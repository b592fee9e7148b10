# MaskedInteger in Dafny

A model of the class `MI` from `MaskedInteger.py`: a Python integer `value`
kept together with a width `bits`, a multiple of 8, and the mask
`(1 << bits) - 1`. The model follows the code:

- every operator, including the non-compound ones such as `__add__`,
  changes the receiver in place and returns it;
- the arithmetic, bitwise and shift operators go through one dispatcher,
  `perform_math`, which stores the result **unmasked**, so `value` may be
  negative or at least `2^bits` afterwards;
- only the constructor, `rol`/`ror`, the exponentiation operators,
  negation and complement mask the value into `[0, mask]`;
- bytes are always little-endian and unsigned, and the hex text is their
  upper-case digits.

Because `perform_math` stores unmasked results (MaskedInteger.py:81-84),
"value in `[0, mask]`" is not a class invariant.

Layout, one module per file:

- `outcomes.dfy` (`Outcomes`): the exceptions the code can raise, as an
  `Error` datatype, with `Option` and `Result`.
- `pyint.dfy` (`PyInt`): Python's integer operators on unbounded `int`:
  - floor division and modulo;
  - shifts as repeated doubling and halving;
  - `~`, and `&`, `|`, `^` defined bit by bit on two's-complement
    expansions;
  - the dispatcher's operator table `Calc`.
- `fixedwidth.dfy` (`FixedWidth`): masking (`MaskTo`, proved equal to
  `x & mask` and to `x mod 2^bits`), negation and complement at a width.
- `rotation.dfy` (`Rotation`): the value `rol` stores (`RolValue`, step for
  step as written). It is related to a reference rotation `RotateLeft` of a
  `bits`-bit pattern and to the rotation the code intends for any stored
  value (`RotateMasked`).
- `serial.dfy` (`Serial`): `to_bytes(n, "little", signed=False)` and
  `bytes.hex().upper()`, with their inverses and round trips.
- `maskedinteger.dfy` (`MaskedInteger`): the class `MI` with fields
  `value: int` and `bits: nat`:
  - the operand kinds (`int`, another `MI`, anything else);
  - the dispatcher and every operator as methods that modify the receiver;
  - the comparisons and the serialisations as functions that read it.
- `smokescript.dfy` (`SmokeScript`): the demonstration script `tests.py`,
  replayed on the model.

Python exceptions are values of `Result`, one constructor of `Error` each:

- `BitsNotByteMultiple`: the width assertion of the constructor
  (MaskedInteger.py:10).
- `NegativeBitWidth`: the `ValueError` of `1 << bits` for a negative width,
  raised when the constructor masks (MaskedInteger.py:7, 17).
- `UnsupportedOperand`: the operand-type assertion of `perform_math`
  (MaskedInteger.py:76). It also stands for the `TypeError` of `pow` or `&`
  when the exponent of `__pow__` is neither an `int` nor an `MI`.
- `ZeroDivision`: the `ZeroDivisionError` of `//` or `%` by zero. It is also
  what `rol` raises at width 0, where it reduces the count modulo the width
  (MaskedInteger.py:44, 55).
- `NegativeShiftCount`: the `ValueError` of `<<` or `>>` with a negative
  count.
- `NegativeExponent`: `pow` with a negative exponent and no modulus. Python
  gives a `float`, and masking it with `&` raises `TypeError`; for base 0,
  `pow` itself raises `ZeroDivisionError`. Both end the call without a
  change.
- `Overflow`: the `OverflowError` of `to_bytes` for a value outside
  `[0, mask]`.
- `NotCallable`: the `TypeError` of calling `NotImplemented`, which is what
  `__truediv__` and `__itruediv__` hold.

Every `MI` keeps its width a multiple of 8; the predicate `MI.Valid` states
it, the constructor, `MI.Create` and `reset` establish it, and every method
keeps it. The constructor defaults (`value_or_mi=0`, `bits=64`) and the
`modulo=None` of the exponentiation operators are Dafny default arguments.

## Model

| member | source | states |
|---|---|---|
| PyInt.Pow2IsPower | MaskedInteger.py:7 | `1 << n` and `2 ** n` are the same number |
| PyInt.FloorDivision | MaskedInteger.py:79-84 | `a // b` is the quotient rounded towards negative infinity, for either sign of `b` |
| PyInt.FloorModulo | MaskedInteger.py:79-84 | `a % b` completes `a // b` to `a` and lies between 0 and `b`, taking the sign of `b` |
| PyInt.DivModConsistent | MaskedInteger.py:79-84 | `(a // b) * b + a % b == a` for the two division operators the dispatcher offers |
| PyInt.ShiftLeftIsProduct | MaskedInteger.py:50 | `x << n` is `x * 2^n` |
| PyInt.ShiftRightIsQuotient | MaskedInteger.py:45 | `x >> n` is `x` divided by `2^n`, rounded down |
| PyInt.ShiftRightFloor | MaskedInteger.py:58 | `x >> n` is the largest `q` with `q * 2^n <= x` |
| PyInt.ShiftLeftThenRight | MaskedInteger.py:50 | shifting left and then right by the same count gives back any integer |
| PyInt.BitwiseCommutes | MaskedInteger.py:52-60 | `&`, `\|` and `^` are symmetric in their operands, so both branches of `rol` may combine the halves in either order |
| PyInt.AndLowMask | MaskedInteger.py:17 | `x & (2^n - 1)` is `x mod 2^n`, for negative `x` as well |
| PyInt.OrDisjoint | MaskedInteger.py:52 | `(a << k) \| h` is `(a << k) + h` when `h` fits the `k` vacated bits |
| PyInt.NotIsXorAllOnes | MaskedInteger.py:250 | Python's `~x` flips every bit: it is `x ^ -1` |
| PyInt.Calc | MaskedInteger.py:79-84 | an operator of the dispatcher fails exactly on a zero divisor (`ZeroDivisionError`) or a negative shift count (`ValueError`), and says which |
| FixedWidth.MaskTo | MaskedInteger.py:17 | masking yields a value in `[0, 2^bits)` and leaves a value already there unchanged |
| FixedWidth.MaskToIsMod | MaskedInteger.py:17 | masking to `bits` bits is reducing modulo `2^bits` |
| FixedWidth.MaskToIsBitAnd | MaskedInteger.py:5-7 | masking to `bits` bits is `x & mask` with `mask == (1 << bits) - 1`, for every integer |
| FixedWidth.MaskAddMultiple | MaskedInteger.py:17 | adding a multiple of `2^bits` does not change the masked value |
| FixedWidth.MaskAddCongruent | MaskedInteger.py:81-84 | the unmasked sum `perform_math` stores masks to the same value as a sum of masked operands |
| FixedWidth.MaskMulCongruent | MaskedInteger.py:81-84 | likewise for the unmasked product |
| FixedWidth.MaskPowerCongruent | MaskedInteger.py:216-219 | the masked power depends only on the masked base |
| FixedWidth.Negated | MaskedInteger.py:246 | `(-v) & mask` lies in `[0, mask]` and adds to `v` to a multiple of `2^bits` |
| FixedWidth.MaskOfNegation | MaskedInteger.py:246 | the masked `-v` plus `v` masks to 0 |
| FixedWidth.Complemented | MaskedInteger.py:250 | `(~v) & mask` lies in `[0, mask]` and adds to the masked `v` to exactly `mask` |
| FixedWidth.MaskOfNot | MaskedInteger.py:250 | the low `bits` bits of `~v` and of `v` are complementary |
| FixedWidth.NegatedTwice | MaskedInteger.py:245-247 | negating twice gives back any value in `[0, mask]` |
| FixedWidth.ComplementedTwice | MaskedInteger.py:249-251 | complementing twice gives back any value in `[0, mask]` |
| Rotation.RolValue | MaskedInteger.py:41-63 | the value `rol` stores always lies in `[0, mask]` |
| Rotation.RolUp | MaskedInteger.py:43-53 | the branch for a positive count yields a value in `[0, mask]` |
| Rotation.RolDown | MaskedInteger.py:54-61 | the branch for any other count yields a value in `[0, mask]` |
| Rotation.RotateLeft | MaskedInteger.py:41-63 | the reference rotation of a `bits`-bit pattern stays within `bits` bits |
| Rotation.RotateLeftArithmetic | MaskedInteger.py:41-63 | rotating left by `k` is `(v * 2^k) mod 2^bits + v div 2^(bits - k)` |
| Rotation.RolArithmetic | MaskedInteger.py:43-53 | for `0 < c < bits` and `v` in `[0, mask]`, `rol(c)` stores `(v * 2^c) mod 2^bits + v div 2^(bits - c)` |
| Rotation.NegatedCount | MaskedInteger.py:44-55 | the rightward count `-count % bits` is the complement to `bits` of `count % bits`, or both are 0 |
| Rotation.RotateHalves | MaskedInteger.py:45-53 | the two halves the leftward branch shifts, masks and `\|`-combines make up the rotated pattern |
| Rotation.RotateHalvesSwapped | MaskedInteger.py:56-61 | the halves of the rightward branch, combined in its order, make up the same rotated pattern |
| Rotation.RolUpRotates | MaskedInteger.py:43-53 | for a value in `[0, mask]`, the leftward branch rotates left by the reduced count |
| Rotation.RolDownRotates | MaskedInteger.py:54-61 | for a value in `[0, mask]`, the rightward branch rotates right by the reduced count |
| Rotation.RolIsRotateLeft | MaskedInteger.py:41-63 | for a value in `[0, mask]`, `rol(count)` rotates left by `count mod bits`, whatever the sign of `count` |
| Rotation.MaskShiftLeft | MaskedInteger.py:50-51 | `(x << k) & mask` keeps the low `bits - k` bits of `x`, moved up by `k` |
| Rotation.MaskShiftRight | MaskedInteger.py:45-46 | the top `bits - j` of the masked bits of `t`, moved down, are `(t >> j)` cut to `bits - j` bits |
| Rotation.MaskOfMask | MaskedInteger.py:46-49 | masking twice, the second time narrower, is masking once to the narrower width |
| Rotation.LowOnes | MaskedInteger.py:48 | `~(-1 << c)` is the mask of the low `c` bits |
| Rotation.RotateLeftNone | MaskedInteger.py:41-63 | rotating by no places or by a whole turn changes nothing |
| Rotation.RotateLeftInverse | MaskedInteger.py:41-63 | rotating left by `k` and then by `bits - k` restores the pattern |
| Rotation.RotateLeftOpposite | MaskedInteger.py:44-55 | rotating by `count mod bits` and then by `-count mod bits` restores the pattern |
| Rotation.RolThenRor | MaskedInteger.py:41-66 | `rol(c)` followed by `ror(c)` restores a value in `[0, mask]` |
| Rotation.RorThenRol | MaskedInteger.py:41-66 | `ror(c)` followed by `rol(c)` restores a value in `[0, mask]` |
| Rotation.RolFullTurns | MaskedInteger.py:44-55 | `rol(k * bits)` leaves a value in `[0, mask]` unchanged, for every integer `k` |
| Rotation.RotateMasked | MaskedInteger.py:41-63 | the intended rotation of the masked pattern of any stored value lies in `[0, mask]` |
| Rotation.RotateMaskedRoundTrip | MaskedInteger.py:41-66 | the intended rotation is undone by rotating the other way, for every stored value |
| Rotation.RolIsRotateMasked | MaskedInteger.py:41-63 | `rol` performs the intended rotation on a value in `[0, mask]`, and, thanks to the correction, on a negative value rotated leftwards |
| Rotation.RolUpNegative | MaskedInteger.py:47-49 | with the correction, the leftward branch rotates the masked pattern of a negative value |
| Rotation.CorrectedHigh | MaskedInteger.py:45-49 | after the correction the high part is the top `c` bits of the masked value, moved down |
| Rotation.RolOfWideValue | MaskedInteger.py:47 | as written: at width 8, a stored 256 (masked pattern 0) rotated left by one gives 2, where the intended rotation gives 0 |
| Rotation.RorOfNegativeValue | MaskedInteger.py:54-61 | as written: at width 8, a stored -256 (masked pattern 0) rotated right by one gives 128, where the intended rotation gives 0 |
| Serial.LittleEndian | MaskedInteger.py:33 | a value below `256^n` has exactly `n` little-endian bytes |
| Serial.FromLittleEndian | MaskedInteger.py:33 | `n` bytes decode to a number below `256^n` |
| Serial.LittleEndianRoundTrip | MaskedInteger.py:33 | decoding the little-endian bytes of a value gives back the value |
| Serial.FromLittleEndianRoundTrip | MaskedInteger.py:33 | encoding a decoded byte string at its own length gives back the bytes |
| Serial.ToBytes | MaskedInteger.py:33 | `to_bytes(n, "little", signed=False)` succeeds exactly for values in `[0, 256^n)`, then yields `n` bytes that decode to the value; otherwise `OverflowError` |
| Serial.HexDigit | MaskedInteger.py:39 | a nibble is written as an upper-case hex digit |
| Serial.DigitValue | MaskedInteger.py:39 | a digit read back is a nibble that is written as that digit |
| Serial.DigitValueOfHexDigit | MaskedInteger.py:39 | every nibble reads back from its digit |
| Serial.HexPair | MaskedInteger.py:39 | each byte is written as two characters |
| Serial.HexOf | MaskedInteger.py:39 | the hex text has two characters per byte |
| Serial.HexOfAt | MaskedInteger.py:39 | characters `2i` and `2i + 1` are the high and low nibble of byte `i`, in byte order |
| Serial.FromHex | MaskedInteger.py:39 | text that reads back has two characters per byte |
| Serial.HexRoundTrip | MaskedInteger.py:39 | reading the hex text back gives the bytes it was written from |
| MaskedInteger.MathStep | MaskedInteger.py:75-84 | an operand that is neither `int` nor `MI` fails the assertion; otherwise the result is `value op other`, or `other op value` when reflected, and it fails exactly on a zero divisor or a negative shift count |
| MaskedInteger.ReverseSwapsOperands | MaskedInteger.py:81-84 | the reflected form of an operator is the forward form with the operands swapped |
| MaskedInteger.PowStep | MaskedInteger.py:212-221 | exponentiation fails exactly for a missing or negative exponent (without a modulus), and otherwise yields a value in `[0, mask]` |
| MaskedInteger.PowZeroModulus | MaskedInteger.py:215-218 | a zero modulus is falsy and counts as no modulus |
| MaskedInteger.PowMaskedBase | MaskedInteger.py:218-219 | without a modulus, only the masked base matters |
| MaskedInteger.PowModulusOfWidth | MaskedInteger.py:215-219 | a modulus of `2^bits` gives the same stored value as no modulus |
| MaskedInteger.MI.Mask | MaskedInteger.py:5-7 | `mask + 1 == 2^bits` |
| MaskedInteger.MI.MaskKeepsResidue | MaskedInteger.py:5-7 | `x & mask` is `x mod 2^bits`, in `[0, mask]` |
| MaskedInteger.MI.MaskIsMaskTo | MaskedInteger.py:5-7 | `x & mask` is the bit-by-bit masking `MaskTo(x, bits)` |
| MaskedInteger.MI.constructor | MaskedInteger.py:9-17 | `bits` is the argument (64 by default); `value` is the `int` argument (0 by default), or the `value` of an `MI` argument, or 0 for anything else, masked to the width; the width is a multiple of 8 |
| MaskedInteger.MI.Create | MaskedInteger.py:9-17 | a width that is not a multiple of 8 fails the assertion, a negative one fails on the mask; otherwise a fresh `MI` as the constructor builds it |
| MaskedInteger.MI.Reset | MaskedInteger.py:19-21 | `value` becomes 0 and `bits` 64 |
| MaskedInteger.MI.Int | MaskedInteger.py:29-30 | `int(m)` is the number its bytes encode, whenever it has bytes |
| MaskedInteger.MI.Bytes | MaskedInteger.py:32-33 | `bits // 8` bytes that decode to `value`, exactly when `value` is in `[0, mask]`; otherwise `OverflowError` |
| MaskedInteger.MI.Hex | MaskedInteger.py:38-39 | upper-case hex text, two digits per byte, that reads back as the bytes; fails exactly when the bytes do |
| MaskedInteger.MI.Rol | MaskedInteger.py:41-63 | the receiver, `bits` kept, `value` in `[0, mask]`; a value already in `[0, mask]` is rotated by `count mod bits`; a width of 0 fails on the modulo and changes nothing |
| MaskedInteger.MI.RolUpSteps | MaskedInteger.py:43-53 | the statement-by-statement steps for a positive count, on plain integers, give the value `RolUp` defines, in `[0, mask]` |
| MaskedInteger.MI.RolDownSteps | MaskedInteger.py:54-61 | the steps for any other count give the value `RolDown` defines, in `[0, mask]` |
| MaskedInteger.MI.RolFitsIsRotation | MaskedInteger.py:41-63 | for a value in `[0, mask]`, what `rol` stores is the intended rotation |
| MaskedInteger.MI.Ror | MaskedInteger.py:65-66 | `ror(count)` does exactly what `rol(-count)` does |
| MaskedInteger.MI.PerformMath | MaskedInteger.py:75-84 | stores `value op other` (or reflected) unmasked, leaves `bits`, and changes nothing on a failure |
| MaskedInteger.MI.Add | MaskedInteger.py:86-88 | stores the unmasked sum `value + other`, keeps `bits` and returns the receiver, or fails as the dispatcher does |
| MaskedInteger.MI.IAdd | MaskedInteger.py:90-92 | stores the unmasked sum `value + other`, keeps `bits` and returns the receiver, or fails as the dispatcher does |
| MaskedInteger.MI.RAdd | MaskedInteger.py:94-96 | stores the unmasked sum `other + value`, keeps `bits` and returns the receiver, or fails as the dispatcher does |
| MaskedInteger.MI.Sub | MaskedInteger.py:98-100 | stores the unmasked difference `value - other`, keeps `bits` and returns the receiver, or fails as the dispatcher does |
| MaskedInteger.MI.ISub | MaskedInteger.py:102-104 | stores the unmasked difference `value - other`, keeps `bits` and returns the receiver, or fails as the dispatcher does |
| MaskedInteger.MI.RSub | MaskedInteger.py:106-108 | stores the unmasked difference `other - value`, keeps `bits` and returns the receiver, or fails as the dispatcher does |
| MaskedInteger.MI.Mul | MaskedInteger.py:110-112 | stores the unmasked product `value * other`, keeps `bits` and returns the receiver, or fails as the dispatcher does |
| MaskedInteger.MI.IMul | MaskedInteger.py:114-116 | stores the unmasked product `value * other`, keeps `bits` and returns the receiver, or fails as the dispatcher does |
| MaskedInteger.MI.RMul | MaskedInteger.py:118-120 | stores the unmasked product `other * value`, keeps `bits` and returns the receiver, or fails as the dispatcher does |
| MaskedInteger.MI.FloorDiv | MaskedInteger.py:128-130 | stores the unmasked floor quotient `value // other`, keeps `bits` and returns the receiver, or fails as the dispatcher does |
| MaskedInteger.MI.IFloorDiv | MaskedInteger.py:132-134 | stores the unmasked floor quotient `value // other`, keeps `bits` and returns the receiver, or fails as the dispatcher does |
| MaskedInteger.MI.RFloorDiv | MaskedInteger.py:136-138 | stores the unmasked floor quotient `other // value`, keeps `bits` and returns the receiver, or fails as the dispatcher does |
| MaskedInteger.MI.Mod | MaskedInteger.py:140-142 | stores the unmasked floor remainder `value % other`, keeps `bits` and returns the receiver, or fails as the dispatcher does |
| MaskedInteger.MI.IMod | MaskedInteger.py:144-146 | stores the unmasked floor remainder `value % other`, keeps `bits` and returns the receiver, or fails as the dispatcher does |
| MaskedInteger.MI.RMod | MaskedInteger.py:148-150 | stores the unmasked floor remainder `other % value`, keeps `bits` and returns the receiver, or fails as the dispatcher does |
| MaskedInteger.MI.Xor | MaskedInteger.py:152-154 | stores the unmasked bitwise exclusive or `value ^ other`, keeps `bits` and returns the receiver, or fails as the dispatcher does |
| MaskedInteger.MI.IXor | MaskedInteger.py:156-158 | stores the unmasked bitwise exclusive or `value ^ other`, keeps `bits` and returns the receiver, or fails as the dispatcher does |
| MaskedInteger.MI.RXor | MaskedInteger.py:160-162 | stores the unmasked bitwise exclusive or `other ^ value`, keeps `bits` and returns the receiver, or fails as the dispatcher does |
| MaskedInteger.MI.Or | MaskedInteger.py:164-166 | stores the unmasked bitwise or `value \| other`, keeps `bits` and returns the receiver, or fails as the dispatcher does |
| MaskedInteger.MI.IOr | MaskedInteger.py:168-170 | stores the unmasked bitwise or `value \| other`, keeps `bits` and returns the receiver, or fails as the dispatcher does |
| MaskedInteger.MI.ROr | MaskedInteger.py:172-174 | stores the unmasked bitwise or `other \| value`, keeps `bits` and returns the receiver, or fails as the dispatcher does |
| MaskedInteger.MI.And | MaskedInteger.py:176-178 | stores the unmasked bitwise and `value & other`, keeps `bits` and returns the receiver, or fails as the dispatcher does |
| MaskedInteger.MI.IAnd | MaskedInteger.py:180-182 | stores the unmasked bitwise and `value & other`, keeps `bits` and returns the receiver, or fails as the dispatcher does |
| MaskedInteger.MI.RAnd | MaskedInteger.py:184-186 | stores the unmasked bitwise and `other & value`, keeps `bits` and returns the receiver, or fails as the dispatcher does |
| MaskedInteger.MI.LShift | MaskedInteger.py:188-190 | stores the unmasked left shift `value << other`, keeps `bits` and returns the receiver, or fails as the dispatcher does |
| MaskedInteger.MI.ILShift | MaskedInteger.py:192-194 | stores the unmasked left shift `value << other`, keeps `bits` and returns the receiver, or fails as the dispatcher does |
| MaskedInteger.MI.RLShift | MaskedInteger.py:196-198 | stores the unmasked left shift `other << value`, keeps `bits` and returns the receiver, or fails as the dispatcher does |
| MaskedInteger.MI.RShift | MaskedInteger.py:200-202 | stores the unmasked right shift `value >> other`, keeps `bits` and returns the receiver, or fails as the dispatcher does |
| MaskedInteger.MI.IRShift | MaskedInteger.py:204-206 | stores the unmasked right shift `value >> other`, keeps `bits` and returns the receiver, or fails as the dispatcher does |
| MaskedInteger.MI.RRShift | MaskedInteger.py:208-210 | stores the unmasked right shift `other >> value`, keeps `bits` and returns the receiver, or fails as the dispatcher does |
| MaskedInteger.MI.TrueDiv | MaskedInteger.py:122-123 | always fails: `NotImplemented` is not callable |
| MaskedInteger.MI.ITrueDiv | MaskedInteger.py:125-126 | always fails: `NotImplemented` is not callable |
| MaskedInteger.MI.Pow | MaskedInteger.py:212-221 | stores `pow(value, e)`, or `pow(value, e, m)` for a non-zero modulus (the modulus defaults to none), masked to the width, and returns the receiver; a non-integer or (without modulus) negative exponent fails and changes nothing |
| MaskedInteger.MI.IPow | MaskedInteger.py:223-232 | the same as `__pow__` |
| MaskedInteger.MI.RPow | MaskedInteger.py:234-243 | the same as `__pow__`: the receiver's value stays the base |
| MaskedInteger.MI.Neg | MaskedInteger.py:245-247 | stores the additive inverse of `value` modulo `2^bits` and returns the receiver |
| MaskedInteger.MI.Invert | MaskedInteger.py:249-251 | stores the complement of the low `bits` bits of `value` and returns the receiver |
| MaskedInteger.OperandInt | MaskedInteger.py:69-70 | an `int` operand stands for itself and an `MI` operand for its `value`; only an operand of any other type has no integer (the same step appears at MaskedInteger.py:77-78 and 213-214) |
| MaskedInteger.MI.PerformCompare | MaskedInteger.py:68-73 | compares the receiver's `value` with an `int` operand, or with the `value` of an `MI` operand, by the given operator; neither side is masked |
| MaskedInteger.MI.Lt | MaskedInteger.py:253-254 | true exactly when `value` is less than the operand's integer |
| MaskedInteger.MI.Le | MaskedInteger.py:256-257 | true exactly when `value` is at most the operand's integer |
| MaskedInteger.MI.Eq | MaskedInteger.py:259-260 | true exactly when `value` equals the operand's integer |
| MaskedInteger.MI.Ne | MaskedInteger.py:262-263 | true exactly when `value` differs from the operand's integer |
| MaskedInteger.MI.Gt | MaskedInteger.py:265-266 | true exactly when `value` is greater than the operand's integer |
| MaskedInteger.MI.Ge | MaskedInteger.py:268-269 | true exactly when `value` is at least the operand's integer |
| MaskedInteger.ComparisonsComplement | MaskedInteger.py:253-269 | `<` is the negation of `>=`, `>` of `<=`, `==` of `!=` |
| MaskedInteger.ComparisonsMirror | MaskedInteger.py:68-73 | two `MI`s compare by `value` alone, whatever their widths, in either order, and as the plain integer |
| MaskedInteger.ComparisonsWithInt | MaskedInteger.py:253-269 | against a plain `int` `n`, each of the six comparisons gives `value < n`, `value <= n`, `value == n`, `value != n`, `value > n` or `value >= n`, without masking either side |
| SmokeScript.Pow2Of64 | tests.py:5-8 | `GM(64) + 1 == 2^64` |
| SmokeScript.PlainSum | tests.py:10-15 | the plain sum masked once at the end is `0x11111111AAAAAAAA` |
| SmokeScript.MaskedSum | tests.py:17-22 | the `+=` chain on a 64-bit `MI` stores `0x111111111AAAAAAAA`: nothing masks it |
| SmokeScript.WideHex | tests.py:25 | `m0.hex()` on that value fails with `OverflowError` |
| SmokeScript.AdditionChain | tests.py:7-25 | the run ends at tests.py:25: the two sums agree modulo `2^64`, but the stored value is at least `2^64`, so `m0.hex()` raises `OverflowError`; nothing catches it, and the comparison at tests.py:27 is never reached |

## Left out

- The `eval`-string dispatch of `perform_math` and `perform_compare`, and their `ValueError` for an unknown operator string: operators are the enumerations `MathOp` and `CompareOp`, so an unknown operator cannot be written. Evaluating the printed operands gives the same result as applying the operator directly, which is what the model does.
- Python's limit on the number of digits when an integer is turned into text (4300 by default) could make `eval` fail for very large values. It is not modelled.
- `__format__` and `__str__` delegate to Python's number formatting, which is not part of this model.
- The class-level attribute defaults of `value` and `bits` (MaskedInteger.py:2-3) are not modelled: every `MI` is built by the constructor, which assigns both. The commented-out `__bytearray__` is not modelled either.
- `assert` statements vanish under `python -O`. The model keeps the checks as they run by default.
- MaskedInteger.MI.PerformCompare: requires an `int` or `MI` operand. Comparing against another type evaluates whatever text that object prints as, which is not modelled. The six comparison functions carry the same requirement.
- MaskedInteger.MI.Pow: requires that a negative exponent not come with a non-zero modulus. Python then computes a modular inverse, or raises `ValueError` when there is none, and that is not modelled. `IPow`, `RPow`, `PowStep` and `Powered` carry the same requirement.
- MaskedInteger.MI.Pow: the modulus is an optional integer. A modulus that is an `MI` or of another type is not modelled.
- MaskedInteger.MI.constructor: requires a width that is a multiple of 8. `MI.Create` models the failing widths, including the negative ones, whose mask raises `ValueError`.
- `bits` is a `nat`: a negative width is rejected by `MI.Create` before a receiver exists, and nothing else assigns `bits` except `reset`.
- The reflected operators (`__radd__` and so on) are modelled as methods called on the receiver. Python's choice of calling them only when the left operand does not handle the operator is not modelled.
- `tests.py` prints its results. The printing, and the `{t0:X}` formatting that compares big-endian text with little-endian bytes, are not modelled; `SmokeScript.AdditionChain` states the values instead.
- The model is sequential. Aliasing between the receiver and an `MI` operand is handled: the operand is read before the receiver changes. Nothing else about object identity is modelled.

## Findings

| source | as written | input that shows it | evidently intended | confidence | as-written member | corrected member |
|---|---|---|---|---|---|---|
| MaskedInteger.py:47 | the correction of the high part in `rol` is guarded by `t < 0`, so a stored value at or above `2^bits` keeps its excess bits | `MI(0, 8)`, then `+= 256` (stored 256, masked pattern 0), then `rol(1)` stores 2 | rotate the masked pattern: 0 | medium, not executed | Rotation.RolOfWideValue | Rotation.RotateMasked (with Rotation.RotateMaskedRoundTrip, Rotation.RolIsRotateMasked) |
| MaskedInteger.py:54-61 | the rightward branch of `rol` has no correction, so the sign bits of a negative value fill the vacated high bits | `MI(0, 8)`, then `-= 256` (stored -256, masked pattern 0), then `ror(1)` stores 128 | rotate the masked pattern: 0 | medium, not executed | Rotation.RorOfNegativeValue | Rotation.RotateMasked (with Rotation.RotateMaskedRoundTrip, Rotation.RolIsRotateMasked) |

`MI.Rol` states both: what the code stores (`RolValue`), and that this is
the corrected rotation `RotateMasked` whenever the stored value is already
in `[0, mask]`.
