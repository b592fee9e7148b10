/**
 * The masked integer `MI`: a Python integer `value` kept with a width
 * `bits`. Every operator changes the receiver in place and hands it back.
 * The arithmetic, bitwise and shift operators store the unmasked result.
 * Construction, rotation, exponentiation, negation and complement mask it
 * to the width.
 */
module MaskedInteger {
  import opened Outcomes
  import opened PyInt
  import opened FixedWidth
  import opened Rotation
  import opened Serial

  /** What an operator may be handed on its other side. */
  datatype Operand = IntOperand(n: int) | MIOperand(mi: MI) | OtherOperand

  /** The objects an operand reads: the other masked integer, if there is one. */
  function Objects(o: Operand): set<object> {
    if o.MIOperand? then {o.mi} else {}
  }

  /** The integer an operand stands for: only the `value` of a masked integer. */
  function OperandInt(o: Operand): (r: Option<int>)
    reads Objects(o)
    ensures r.None? <==> o.OtherOperand?
    ensures o.IntOperand? ==> r == Some(o.n)
    ensures o.MIOperand? ==> r == Some(o.mi.value)
  {
    match o
    case IntOperand(n) => Some(n)
    case MIOperand(m) => Some(m.value)
    case OtherOperand => None
  }

  /**
   * What `perform_math` stores for `value op other`, or `other op value`
   * when `reverse` is set: `None` for the other operand means it is
   * neither an `int` nor a masked integer. Nothing is masked.
   */
  function MathStep(op: MathOp, v: int, other: Option<int>, reverse: bool): (r: Result<int>)
    ensures other.None? ==> r == Err(UnsupportedOperand)
    ensures other.Some? ==> r == (if reverse then Calc(op, other.value, v) else Calc(op, v, other.value))
    ensures r.Err? <==> (other.None?
                         || ((op == FloorDiv || op == Mod) && (if reverse then v else other.value) == 0)
                         || ((op == LShift || op == RShift) && (if reverse then v else other.value) < 0))
  {
    match other
    case None => Err(UnsupportedOperand)
    case Some(x) => if reverse then Calc(op, x, v) else Calc(op, v, x)
  }

  /** The operands of a reflected operator trade places. */
  lemma {:induction false} ReverseSwapsOperands(op: MathOp, v: int, x: int)
    ensures MathStep(op, v, Some(x), true) == MathStep(op, x, Some(v), false)
  {
  }

  /**
   * What the three exponentiation operators store: `pow(v, e)`, or
   * `pow(v, e, m)` when a non-zero modulus is given, masked to `bits`. A
   * negative exponent without a modulus yields a float (or divides by zero),
   * which the masking `&` rejects.
   */
  function PowStep(v: int, e: Option<int>, modulo: Option<int>, bits: nat): (r: Result<int>)
    requires !(e.Some? && e.value < 0 && modulo.Some? && modulo.value != 0)
    ensures r.Err? <==> e.None? || e.value < 0
    ensures e.None? ==> r == Err(UnsupportedOperand)
    ensures r.Ok? ==> 0 <= r.value < Pow2(bits)
  {
    match e
    case None => Err(UnsupportedOperand)
    case Some(x) =>
      if modulo.Some? && modulo.value != 0 then Ok(MaskTo(FloorModulo(Power(v, x), modulo.value), bits))
      else if x < 0 then Err(NegativeExponent)
      else Ok(MaskTo(Power(v, x), bits))
  }

  /** A zero modulus counts as no modulus at all. */
  lemma {:induction false} PowZeroModulus(v: int, e: int, bits: nat)
    ensures PowStep(v, Some(e), Some(0), bits) == PowStep(v, Some(e), None, bits)
  {
  }

  /** Without a modulus, only the masked base matters. */
  lemma {:induction false} PowMaskedBase(v: int, e: nat, bits: nat)
    ensures PowStep(MaskTo(v, bits), Some(e), None, bits) == PowStep(v, Some(e), None, bits)
  {
    MaskPowerCongruent(v, e, bits);
  }

  /** Reducing modulo `2^bits` before masking to `bits` bits changes nothing. */
  lemma {:induction false} PowModulusOfWidth(v: int, e: nat, bits: nat)
    ensures PowStep(v, Some(e), Some(Pow2(bits)), bits) == PowStep(v, Some(e), None, bits)
  {
    var x := Power(v, e);
    MaskToIsMod(x, bits);
    MaskOfMask(x, bits, bits);
  }

  class MI {
    var value: int
    var bits: nat

    /** The width is a whole number of bytes. */
    predicate Valid()
      reads this
    {
      bits % 8 == 0
    }

    /** `(1 << bits) - 1`. */
    function Mask(): (m: int)
      reads this
      ensures 0 <= m && m + 1 == Pow2(bits)
    {
      ShiftLeftIsProduct(1, bits);
      ShiftLeft(1, bits) - 1
    }

    /** `x & mask` keeps the residue of `x` modulo `2^bits`, which lies in `[0, mask]`. */
    lemma {:induction false} MaskKeepsResidue(x: int)
      ensures BitAnd(x, Mask()) == x % Pow2(bits)
      ensures 0 <= BitAnd(x, Mask()) <= Mask()
    {
      MaskIsMaskTo(x);
      MaskToIsMod(x, bits);
    }

    /** `x & mask` is `MaskTo(x, bits)`. */
    lemma {:induction false} MaskIsMaskTo(x: int)
      ensures BitAnd(x, Mask()) == MaskTo(x, bits)
    {
      MaskToIsBitAnd(x, bits);
    }

    /**
     * `MI(value_or_mi, bits)`: takes an `int` as is, only the `value` of a
     * masked integer, and leaves anything else at 0; then masks it to the
     * width. A width that is not a multiple of 8 fails, see `Create`.
     */
    constructor (init: Operand := IntOperand(0), bits: nat := 64)
      requires bits % 8 == 0
      ensures Valid()
      ensures this.bits == bits
      ensures value == MaskTo(if init.OtherOperand? then 0 else OperandInt(init).value, bits)
    {
      new;
      Reset();
      match init {
        case IntOperand(n) => value := n;
        case MIOperand(m) => value := m.value;
        case OtherOperand =>
      }
      this.bits := bits;
      MaskIsMaskTo(value);
      value := BitAnd(value, Mask());
    }

    /**
     * Construction with every outcome: the assertion on the width, then the
     * `ValueError` a negative width raises when the mask is computed.
     */
    static method Create(init: Operand := IntOperand(0), bits: int := 64) returns (r: Result<MI>)
      ensures bits % 8 != 0 ==> r == Err(BitsNotByteMultiple)
      ensures bits % 8 == 0 && bits < 0 ==> r == Err(NegativeBitWidth)
      ensures r.Ok? <==> bits % 8 == 0 && bits >= 0
      ensures r.Ok? ==> (fresh(r.value) && r.value.Valid() && r.value.bits == bits
                         && r.value.value == MaskTo(if init.OtherOperand? then 0 else OperandInt(init).value, bits))
    {
      if bits % 8 != 0 {
        return Err(BitsNotByteMultiple);
      }
      if bits < 0 {
        return Err(NegativeBitWidth);
      }
      var m := new MI(init, bits);
      r := Ok(m);
    }

    /** `reset`: value 0 at the default width of 64 bits. */
    method Reset()
      modifies this
      ensures Valid()
      ensures value == 0 && bits == 64
    {
      value := 0;
      bits := 64;
    }

    /** `int(m)`: the stored value, the number its bytes encode when it has bytes. */
    function Int(): (r: int)
      reads this
      requires Valid()
      ensures Bytes().Ok? ==> r == FromLittleEndian(Bytes().value)
    {
      value
    }

    /**
     * `bytes(m)`: `bits // 8` bytes, little-endian and unsigned. A value
     * outside `[0, mask]` overflows.
     */
    function Bytes(): (r: Result<seq<byte>>)
      reads this
      requires Valid()
      ensures r.Ok? ==> |r.value| == bits / 8 && FromLittleEndian(r.value) == value
      ensures r.Err? ==> r.error == Overflow
      ensures r.Ok? <==> 0 <= value <= Mask()
    {
      assert 8 * (bits / 8) == bits;
      ToBytes(value, bits / 8)
    }

    /** `m.hex()`: the bytes as upper-case hexadecimal text, which reads back as the bytes. */
    function Hex(): (r: Result<string>)
      reads this
      requires Valid()
      ensures r.Ok? <==> Bytes().Ok?
      ensures r.Err? ==> r.error == Overflow
      ensures r.Ok? ==> |r.value| == 2 * (bits / 8) && FromHex(r.value) == Some(Bytes().value)
    {
      match Bytes()
      case Ok(b) =>
        HexRoundTrip(b);
        Ok(HexOf(b))
      case Err(e) => Err(e)
    }

    /**
     * `rol(count)`, step by step on a local `t`. A width of 0 fails on the
     * reduction of the count. The stored value always ends up in
     * `[0, mask]`; when it was already there, it is rotated.
     */
    method Rol(count: int) returns (r: Result<MI>)
      requires Valid()
      modifies this
      ensures Valid()
      ensures bits == old(bits)
      ensures bits == 0 ==> r == Err(ZeroDivision) && value == old(value)
      ensures bits > 0 ==> r == Ok(this) && value == RolValue(old(value), bits, count)
      ensures bits > 0 ==> 0 <= value <= Mask()
      ensures bits > 0 && 0 <= old(value) <= Mask() ==> value == RotateMasked(old(value), bits, count)
    {
      if bits == 0 {
        return Err(ZeroDivision);
      }
      var t;
      if count > 0 {
        t := RolUpSteps(value, bits, count % bits, Mask());
      } else {
        t := RolDownSteps(value, bits, (-count) % bits, Mask());
      }
      if 0 <= old(value) <= Mask() {
        RolFitsIsRotation(old(value), count);
      }
      value := t;
      r := Ok(this);
    }

    /** The steps of `rol` for a positive count, already reduced to `c`, on the integer `t`. */
    static method RolUpSteps(t: int, bits: nat, c: nat, mask: int) returns (u: int)
      requires c < bits && mask == Pow2(bits) - 1
      ensures u == RolUp(t, bits, c)
      ensures 0 <= u <= mask
    {
      var high := ShiftRight(t, bits - c);
      MaskToIsBitAnd(high, bits);
      high := BitAnd(high, mask);
      if t < 0 {
        MaskToIsBitAnd(BitAnd(high, BitNot(ShiftLeft(-1, c))), bits);
        high := BitAnd(high, BitNot(ShiftLeft(-1, c)));
        high := BitAnd(high, mask);
      }
      MaskToIsBitAnd(ShiftLeft(t, c), bits);
      u := ShiftLeft(t, c);
      u := BitAnd(u, mask);
      MaskToIsBitAnd(BitOr(u, high), bits);
      u := BitOr(u, high);
      u := BitAnd(u, mask);
    }

    /** The steps of `rol` for any other count, negated and reduced to `c`, on the integer `t`. */
    static method RolDownSteps(t: int, bits: nat, c: nat, mask: int) returns (u: int)
      requires c < bits && mask == Pow2(bits) - 1
      ensures u == RolDown(t, bits, c)
      ensures 0 <= u <= mask
    {
      var low := ShiftLeft(t, bits - c);
      MaskToIsBitAnd(low, bits);
      low := BitAnd(low, mask);
      MaskToIsBitAnd(ShiftRight(t, c), bits);
      u := ShiftRight(t, c);
      u := BitAnd(u, mask);
      MaskToIsBitAnd(BitOr(u, low), bits);
      u := BitOr(u, low);
      u := BitAnd(u, mask);
    }

    lemma {:induction false} RolFitsIsRotation(v: int, count: int)
      requires bits > 0 && 0 <= v <= Mask()
      ensures RolValue(v, bits, count) == RotateMasked(v, bits, count)
    {
      RolIsRotateMasked(v, bits, count);
    }

    /** `ror(count)` is `rol(-count)`. */
    method Ror(count: int) returns (r: Result<MI>)
      requires Valid()
      modifies this
      ensures Valid()
      ensures bits == old(bits)
      ensures bits == 0 ==> r == Err(ZeroDivision) && value == old(value)
      ensures bits > 0 ==> r == Ok(this) && value == RolValue(old(value), bits, -count)
      ensures bits > 0 ==> 0 <= value <= Mask()
      ensures bits > 0 && 0 <= old(value) <= Mask() ==> value == RotateMasked(old(value), bits, -count)
    {
      r := Rol(-count);
    }

    /**
     * `perform_math(op, other, reverse)`: stores `value op other` (or
     * `other op value`) unmasked; on a failure nothing changes. The other
     * operand is read before anything is stored, so it may be the receiver.
     */
    method PerformMath(op: MathOp, other: Operand, reverse: bool) returns (r: Result<()>)
      requires Valid()
      modifies this
      ensures Valid()
      ensures bits == old(bits)
      ensures var s := MathStep(op, old(value), old(OperandInt(other)), reverse);
              if s.Ok? then value == s.value && r == Ok(()) else value == old(value) && r == Err(s.error)
    {
      var x := OperandInt(other);
      if x.None? {
        return Err(UnsupportedOperand);
      }
      var s := if reverse then Calc(op, x.value, value) else Calc(op, value, x.value);
      if s.Err? {
        return Err(s.error);
      }
      value := s.value;
      r := Ok(());
    }

    /** What every binary operator does: `perform_math`, then the receiver itself. */
    twostate predicate Applied(op: MathOp, other: Operand, reverse: bool, new r: Result<MI>)
      reads this
    {
      var s := MathStep(op, old(value), old(OperandInt(other)), reverse);
      bits == old(bits) &&
      if s.Ok? then value == s.value && r == Ok(this) else value == old(value) && r == Err(s.error)
    }

    /** `__add__`. */
    method Add(other: Operand) returns (r: Result<MI>)
      requires Valid()
      modifies this
      ensures Valid()
      ensures Applied(MathOp.Add, other, false, r)
    {
      var done := PerformMath(MathOp.Add, other, false);
      r := if done.Ok? then Ok(this) else Err(done.error);
    }

    /** `__iadd__`. */
    method IAdd(other: Operand) returns (r: Result<MI>)
      requires Valid()
      modifies this
      ensures Valid()
      ensures Applied(MathOp.Add, other, false, r)
    {
      var done := PerformMath(MathOp.Add, other, false);
      r := if done.Ok? then Ok(this) else Err(done.error);
    }

    /** `__radd__`. */
    method RAdd(other: Operand) returns (r: Result<MI>)
      requires Valid()
      modifies this
      ensures Valid()
      ensures Applied(MathOp.Add, other, true, r)
    {
      var done := PerformMath(MathOp.Add, other, true);
      r := if done.Ok? then Ok(this) else Err(done.error);
    }

    /** `__sub__`. */
    method Sub(other: Operand) returns (r: Result<MI>)
      requires Valid()
      modifies this
      ensures Valid()
      ensures Applied(MathOp.Sub, other, false, r)
    {
      var done := PerformMath(MathOp.Sub, other, false);
      r := if done.Ok? then Ok(this) else Err(done.error);
    }

    /** `__isub__`. */
    method ISub(other: Operand) returns (r: Result<MI>)
      requires Valid()
      modifies this
      ensures Valid()
      ensures Applied(MathOp.Sub, other, false, r)
    {
      var done := PerformMath(MathOp.Sub, other, false);
      r := if done.Ok? then Ok(this) else Err(done.error);
    }

    /** `__rsub__`. */
    method RSub(other: Operand) returns (r: Result<MI>)
      requires Valid()
      modifies this
      ensures Valid()
      ensures Applied(MathOp.Sub, other, true, r)
    {
      var done := PerformMath(MathOp.Sub, other, true);
      r := if done.Ok? then Ok(this) else Err(done.error);
    }

    /** `__mul__`. */
    method Mul(other: Operand) returns (r: Result<MI>)
      requires Valid()
      modifies this
      ensures Valid()
      ensures Applied(MathOp.Mul, other, false, r)
    {
      var done := PerformMath(MathOp.Mul, other, false);
      r := if done.Ok? then Ok(this) else Err(done.error);
    }

    /** `__imul__`. */
    method IMul(other: Operand) returns (r: Result<MI>)
      requires Valid()
      modifies this
      ensures Valid()
      ensures Applied(MathOp.Mul, other, false, r)
    {
      var done := PerformMath(MathOp.Mul, other, false);
      r := if done.Ok? then Ok(this) else Err(done.error);
    }

    /** `__rmul__`. */
    method RMul(other: Operand) returns (r: Result<MI>)
      requires Valid()
      modifies this
      ensures Valid()
      ensures Applied(MathOp.Mul, other, true, r)
    {
      var done := PerformMath(MathOp.Mul, other, true);
      r := if done.Ok? then Ok(this) else Err(done.error);
    }

    /** `__truediv__`: calls `NotImplemented`, which is not callable. */
    method TrueDiv(other: Operand) returns (r: Result<MI>)
      requires Valid()
      ensures r == Err(NotCallable)
    {
      r := Err(NotCallable);
    }

    /** `__itruediv__`: fails the same way. */
    method ITrueDiv(other: Operand) returns (r: Result<MI>)
      requires Valid()
      ensures r == Err(NotCallable)
    {
      r := Err(NotCallable);
    }

    /** `__floordiv__`. */
    method FloorDiv(other: Operand) returns (r: Result<MI>)
      requires Valid()
      modifies this
      ensures Valid()
      ensures Applied(MathOp.FloorDiv, other, false, r)
    {
      var done := PerformMath(MathOp.FloorDiv, other, false);
      r := if done.Ok? then Ok(this) else Err(done.error);
    }

    /** `__ifloordiv__`. */
    method IFloorDiv(other: Operand) returns (r: Result<MI>)
      requires Valid()
      modifies this
      ensures Valid()
      ensures Applied(MathOp.FloorDiv, other, false, r)
    {
      var done := PerformMath(MathOp.FloorDiv, other, false);
      r := if done.Ok? then Ok(this) else Err(done.error);
    }

    /** `__rfloordiv__`. */
    method RFloorDiv(other: Operand) returns (r: Result<MI>)
      requires Valid()
      modifies this
      ensures Valid()
      ensures Applied(MathOp.FloorDiv, other, true, r)
    {
      var done := PerformMath(MathOp.FloorDiv, other, true);
      r := if done.Ok? then Ok(this) else Err(done.error);
    }

    /** `__mod__`. */
    method Mod(other: Operand) returns (r: Result<MI>)
      requires Valid()
      modifies this
      ensures Valid()
      ensures Applied(MathOp.Mod, other, false, r)
    {
      var done := PerformMath(MathOp.Mod, other, false);
      r := if done.Ok? then Ok(this) else Err(done.error);
    }

    /** `__imod__`. */
    method IMod(other: Operand) returns (r: Result<MI>)
      requires Valid()
      modifies this
      ensures Valid()
      ensures Applied(MathOp.Mod, other, false, r)
    {
      var done := PerformMath(MathOp.Mod, other, false);
      r := if done.Ok? then Ok(this) else Err(done.error);
    }

    /** `__rmod__`. */
    method RMod(other: Operand) returns (r: Result<MI>)
      requires Valid()
      modifies this
      ensures Valid()
      ensures Applied(MathOp.Mod, other, true, r)
    {
      var done := PerformMath(MathOp.Mod, other, true);
      r := if done.Ok? then Ok(this) else Err(done.error);
    }

    /** `__xor__`. */
    method Xor(other: Operand) returns (r: Result<MI>)
      requires Valid()
      modifies this
      ensures Valid()
      ensures Applied(MathOp.Xor, other, false, r)
    {
      var done := PerformMath(MathOp.Xor, other, false);
      r := if done.Ok? then Ok(this) else Err(done.error);
    }

    /** `__ixor__`. */
    method IXor(other: Operand) returns (r: Result<MI>)
      requires Valid()
      modifies this
      ensures Valid()
      ensures Applied(MathOp.Xor, other, false, r)
    {
      var done := PerformMath(MathOp.Xor, other, false);
      r := if done.Ok? then Ok(this) else Err(done.error);
    }

    /** `__rxor__`. */
    method RXor(other: Operand) returns (r: Result<MI>)
      requires Valid()
      modifies this
      ensures Valid()
      ensures Applied(MathOp.Xor, other, true, r)
    {
      var done := PerformMath(MathOp.Xor, other, true);
      r := if done.Ok? then Ok(this) else Err(done.error);
    }

    /** `__or__`. */
    method Or(other: Operand) returns (r: Result<MI>)
      requires Valid()
      modifies this
      ensures Valid()
      ensures Applied(MathOp.Or, other, false, r)
    {
      var done := PerformMath(MathOp.Or, other, false);
      r := if done.Ok? then Ok(this) else Err(done.error);
    }

    /** `__ior__`. */
    method IOr(other: Operand) returns (r: Result<MI>)
      requires Valid()
      modifies this
      ensures Valid()
      ensures Applied(MathOp.Or, other, false, r)
    {
      var done := PerformMath(MathOp.Or, other, false);
      r := if done.Ok? then Ok(this) else Err(done.error);
    }

    /** `__ror__`. */
    method ROr(other: Operand) returns (r: Result<MI>)
      requires Valid()
      modifies this
      ensures Valid()
      ensures Applied(MathOp.Or, other, true, r)
    {
      var done := PerformMath(MathOp.Or, other, true);
      r := if done.Ok? then Ok(this) else Err(done.error);
    }

    /** `__and__`. */
    method And(other: Operand) returns (r: Result<MI>)
      requires Valid()
      modifies this
      ensures Valid()
      ensures Applied(MathOp.And, other, false, r)
    {
      var done := PerformMath(MathOp.And, other, false);
      r := if done.Ok? then Ok(this) else Err(done.error);
    }

    /** `__iand__`. */
    method IAnd(other: Operand) returns (r: Result<MI>)
      requires Valid()
      modifies this
      ensures Valid()
      ensures Applied(MathOp.And, other, false, r)
    {
      var done := PerformMath(MathOp.And, other, false);
      r := if done.Ok? then Ok(this) else Err(done.error);
    }

    /** `__rand__`. */
    method RAnd(other: Operand) returns (r: Result<MI>)
      requires Valid()
      modifies this
      ensures Valid()
      ensures Applied(MathOp.And, other, true, r)
    {
      var done := PerformMath(MathOp.And, other, true);
      r := if done.Ok? then Ok(this) else Err(done.error);
    }

    /** `__lshift__`. */
    method LShift(other: Operand) returns (r: Result<MI>)
      requires Valid()
      modifies this
      ensures Valid()
      ensures Applied(MathOp.LShift, other, false, r)
    {
      var done := PerformMath(MathOp.LShift, other, false);
      r := if done.Ok? then Ok(this) else Err(done.error);
    }

    /** `__ilshift__`. */
    method ILShift(other: Operand) returns (r: Result<MI>)
      requires Valid()
      modifies this
      ensures Valid()
      ensures Applied(MathOp.LShift, other, false, r)
    {
      var done := PerformMath(MathOp.LShift, other, false);
      r := if done.Ok? then Ok(this) else Err(done.error);
    }

    /** `__rlshift__`. */
    method RLShift(other: Operand) returns (r: Result<MI>)
      requires Valid()
      modifies this
      ensures Valid()
      ensures Applied(MathOp.LShift, other, true, r)
    {
      var done := PerformMath(MathOp.LShift, other, true);
      r := if done.Ok? then Ok(this) else Err(done.error);
    }

    /** `__rshift__`. */
    method RShift(other: Operand) returns (r: Result<MI>)
      requires Valid()
      modifies this
      ensures Valid()
      ensures Applied(MathOp.RShift, other, false, r)
    {
      var done := PerformMath(MathOp.RShift, other, false);
      r := if done.Ok? then Ok(this) else Err(done.error);
    }

    /** `__irshift__`. */
    method IRShift(other: Operand) returns (r: Result<MI>)
      requires Valid()
      modifies this
      ensures Valid()
      ensures Applied(MathOp.RShift, other, false, r)
    {
      var done := PerformMath(MathOp.RShift, other, false);
      r := if done.Ok? then Ok(this) else Err(done.error);
    }

    /** `__rrshift__`. */
    method RRShift(other: Operand) returns (r: Result<MI>)
      requires Valid()
      modifies this
      ensures Valid()
      ensures Applied(MathOp.RShift, other, true, r)
    {
      var done := PerformMath(MathOp.RShift, other, true);
      r := if done.Ok? then Ok(this) else Err(done.error);
    }

    /** What every exponentiation operator does, then the receiver itself. */
    twostate predicate Powered(other: Operand, modulo: Option<int>, new r: Result<MI>)
      reads this
      requires !(old(OperandInt(other)).Some? && old(OperandInt(other)).value < 0 && modulo.Some? && modulo.value != 0)
    {
      var s := PowStep(old(value), old(OperandInt(other)), modulo, old(bits));
      bits == old(bits) &&
      if s.Ok? then value == s.value && r == Ok(this) else value == old(value) && r == Err(s.error)
    }

    /** `__pow__(other, modulo)`: the receiver's value is the base. */
    method Pow(other: Operand, modulo: Option<int> := None) returns (r: Result<MI>)
      requires var e := OperandInt(other); !(e.Some? && e.value < 0 && modulo.Some? && modulo.value != 0)
      requires Valid()
      modifies this
      ensures Valid()
      ensures Powered(other, modulo, r)
    {
      var e := OperandInt(other);
      if e.None? {
        return Err(UnsupportedOperand);
      }
      var t: int;
      if modulo.Some? && modulo.value != 0 {
        t := FloorModulo(Power(value, e.value), modulo.value);
      } else {
        if e.value < 0 {
          return Err(NegativeExponent);
        }
        t := Power(value, e.value);
      }
      MaskIsMaskTo(t);
      t := BitAnd(t, Mask());
      value := t;
      r := Ok(this);
    }

    /** `__ipow__`: the same as `__pow__`. */
    method IPow(other: Operand, modulo: Option<int> := None) returns (r: Result<MI>)
      requires var e := OperandInt(other); !(e.Some? && e.value < 0 && modulo.Some? && modulo.value != 0)
      requires Valid()
      modifies this
      ensures Valid()
      ensures Powered(other, modulo, r)
    {
      r := Pow(other, modulo);
    }

    /** `__rpow__`: also the same as `__pow__`; the operands are not swapped. */
    method RPow(other: Operand, modulo: Option<int> := None) returns (r: Result<MI>)
      requires var e := OperandInt(other); !(e.Some? && e.value < 0 && modulo.Some? && modulo.value != 0)
      requires Valid()
      modifies this
      ensures Valid()
      ensures Powered(other, modulo, r)
    {
      r := Pow(other, modulo);
    }

    /** `-m`: the additive inverse at the width. */
    method Neg() returns (r: MI)
      requires Valid()
      modifies this
      ensures Valid()
      ensures r == this && bits == old(bits)
      ensures value == Negated(old(value), bits)
    {
      MaskIsMaskTo(-value);
      value := BitAnd(-value, Mask());
      r := this;
    }

    /** `~m`: the complement at the width. */
    method Invert() returns (r: MI)
      requires Valid()
      modifies this
      ensures Valid()
      ensures r == this && bits == old(bits)
      ensures value == Complemented(old(value), bits)
    {
      MaskIsMaskTo(BitNot(value));
      value := BitAnd(BitNot(value), Mask());
      r := this;
    }

    /** `perform_compare(op, other)`: the stored value against the operand's integer. */
    function PerformCompare(op: CompareOp, other: Operand): (r: bool)
      reads this, Objects(other)
      requires !other.OtherOperand?
      ensures other.IntOperand? ==> r == Compare(op, value, other.n)
      ensures other.MIOperand? ==> r == Compare(op, value, other.mi.value)
    {
      Compare(op, value, OperandInt(other).value)
    }

    function Lt(other: Operand): (r: bool)
      reads this, Objects(other)
      requires !other.OtherOperand?
      ensures r <==> value < OperandInt(other).value
    {
      PerformCompare(CompareOp.Lt, other)
    }

    function Le(other: Operand): (r: bool)
      reads this, Objects(other)
      requires !other.OtherOperand?
      ensures r <==> value <= OperandInt(other).value
    {
      PerformCompare(CompareOp.Le, other)
    }

    function Eq(other: Operand): (r: bool)
      reads this, Objects(other)
      requires !other.OtherOperand?
      ensures r <==> value == OperandInt(other).value
    {
      PerformCompare(CompareOp.Eq, other)
    }

    function Ne(other: Operand): (r: bool)
      reads this, Objects(other)
      requires !other.OtherOperand?
      ensures r <==> value != OperandInt(other).value
    {
      PerformCompare(CompareOp.Ne, other)
    }

    function Gt(other: Operand): (r: bool)
      reads this, Objects(other)
      requires !other.OtherOperand?
      ensures r <==> value > OperandInt(other).value
    {
      PerformCompare(CompareOp.Gt, other)
    }

    function Ge(other: Operand): (r: bool)
      reads this, Objects(other)
      requires !other.OtherOperand?
      ensures r <==> value >= OperandInt(other).value
    {
      PerformCompare(CompareOp.Ge, other)
    }
  }

  /** Each comparison is the negation of its opposite. */
  lemma {:induction false} ComparisonsComplement(m: MI, other: Operand)
    requires !other.OtherOperand?
    ensures m.Lt(other) == !m.Ge(other)
    ensures m.Gt(other) == !m.Le(other)
    ensures m.Eq(other) == !m.Ne(other)
  {
  }

  /** Comparing two masked integers looks at their values only, whatever their widths. */
  lemma {:induction false} ComparisonsMirror(a: MI, b: MI)
    ensures a.Lt(MIOperand(b)) == b.Gt(MIOperand(a)) == (a.value < b.value)
    ensures a.Le(MIOperand(b)) == b.Ge(MIOperand(a)) == (a.value <= b.value)
    ensures a.Eq(MIOperand(b)) == b.Eq(MIOperand(a)) == (a.value == b.value)
    ensures a.Eq(MIOperand(b)) == a.Eq(IntOperand(b.value))
  {
  }

  /** Against a plain int, each comparison compares the stored value with it, unmasked on both sides. */
  lemma {:induction false} ComparisonsWithInt(m: MI, n: int)
    ensures m.Lt(IntOperand(n)) == (m.value < n)
    ensures m.Le(IntOperand(n)) == (m.value <= n)
    ensures m.Eq(IntOperand(n)) == (m.value == n)
    ensures m.Ne(IntOperand(n)) == (m.value != n)
    ensures m.Gt(IntOperand(n)) == (m.value > n)
    ensures m.Ge(IntOperand(n)) == (m.value >= n)
  {
  }
}
