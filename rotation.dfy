/**
 * The masked integer's rotate-left, replayed on integers, and what it
 * amounts to for a value that fits the width: a rotation of the `bits`-bit
 * pattern, undone by rotating the other way.
 */
module Rotation {
  import opened PyInt
  import opened FixedWidth

  /**
   * The value `rol(count)` stores when the receiver holds `t` at width
   * `bits`. A positive count is reduced modulo the width and rotates left;
   * any other count is negated, reduced and rotates right. When `t` is
   * negative the bits shifted down are cut to the count before they are
   * combined.
   */
  function RolValue(t: int, bits: nat, count: int): (r: int)
    requires bits > 0
    ensures 0 <= r < Pow2(bits)
  {
    if count > 0 then RolUp(t, bits, count % bits) else RolDown(t, bits, (-count) % bits)
  }

  /** The branch of `rol` for a positive count, already reduced to `c`. */
  function RolUp(t: int, bits: nat, c: nat): (r: int)
    requires c <= bits
    ensures 0 <= r < Pow2(bits)
  {
    var high := MaskTo(ShiftRight(t, bits - c), bits);
    var high := if t < 0 then MaskTo(BitAnd(high, BitNot(ShiftLeft(-1, c))), bits) else high;
    MaskTo(BitOr(MaskTo(ShiftLeft(t, c), bits), high), bits)
  }

  /** The branch of `rol` for any other count, negated and reduced to `c`. */
  function RolDown(t: int, bits: nat, c: nat): (r: int)
    requires c <= bits
    ensures 0 <= r < Pow2(bits)
  {
    var low := MaskTo(ShiftLeft(t, bits - c), bits);
    MaskTo(BitOr(MaskTo(ShiftRight(t, c), bits), low), bits)
  }

  /**
   * Rotating the `bits`-bit value `v` left by `k` places: the low
   * `bits - k` bits move up by `k`, the high `k` bits move down to the bottom.
   */
  function RotateLeft(v: int, bits: nat, k: nat): (r: int)
    requires 0 <= v < Pow2(bits) && k <= bits
    ensures 0 <= r < Pow2(bits)
  {
    ShiftRightBelow(v, bits, bits - k);
    ShiftLeftBelow(MaskTo(v, bits - k), bits - k, k);
    ShiftLeft(MaskTo(v, bits - k), k) + ShiftRight(v, bits - k)
  }

  /** Shifting a `bits`-bit value right by `j` leaves a `bits - j`-bit value. */
  lemma {:induction false} ShiftRightBelow(v: int, bits: nat, j: nat)
    requires 0 <= v < Pow2(bits) && j <= bits
    ensures 0 <= ShiftRight(v, j) < Pow2(bits - j)
    decreases j
  {
    if j > 0 {
      ShiftRightBelow(v / 2, bits - 1, j - 1);
    }
  }

  /** Shifting an `m`-bit value left by `k` leaves room for `k` low bits below `2^(m+k)`. */
  lemma {:induction false} ShiftLeftBelow(x: int, m: nat, k: nat)
    requires 0 <= x < Pow2(m)
    ensures 0 <= ShiftLeft(x, k) && ShiftLeft(x, k) + Pow2(k) <= Pow2(m + k)
    decreases k
  {
    if k > 0 {
      ShiftLeftBelow(x, m, k - 1);
    }
  }

  /** `(x << k) & mask` keeps the low `bits - k` bits of `x`, moved up by `k`. */
  lemma {:induction false} MaskShiftLeft(x: int, bits: nat, k: nat)
    requires k <= bits
    ensures MaskTo(ShiftLeft(x, k), bits) == ShiftLeft(MaskTo(x, bits - k), k)
    decreases k
  {
    if k > 0 {
      var y := ShiftLeft(x, k - 1);
      assert (2 * y) / 2 == y && (2 * y) % 2 == 0;
      MaskShiftLeft(x, bits - 1, k - 1);
    }
  }

  /** Below `a << k` sits room for any `k`-bit `h`, and both can be read back. */
  lemma {:induction false} SplitAt(a: int, h: int, k: nat)
    requires 0 <= h < Pow2(k)
    ensures MaskTo(ShiftLeft(a, k) + h, k) == h
    ensures ShiftRight(ShiftLeft(a, k) + h, k) == a
    decreases k
  {
    if k > 0 {
      var x := ShiftLeft(a, k) + h;
      assert x / 2 == ShiftLeft(a, k - 1) + h / 2 && x % 2 == h % 2;
      SplitAt(a, h / 2, k - 1);
    }
  }

  /** Every integer is its bits above `j`, shifted back up, plus its low `j` bits. */
  lemma {:induction false} Recombine(v: int, j: nat)
    ensures ShiftLeft(ShiftRight(v, j), j) + MaskTo(v, j) == v
    decreases j
  {
    if j > 0 {
      Recombine(v / 2, j - 1);
      ShiftLeftOfHalf(v / 2, j);
    }
  }

  lemma {:induction false} ShiftLeftOfHalf(y: int, j: nat)
    requires j > 0
    ensures ShiftLeft(ShiftRight(y, j - 1), j) == 2 * ShiftLeft(ShiftRight(y, j - 1), j - 1)
  {
  }

  /** Masking to `b` bits and then to `a <= b` bits is masking to `a` bits. */
  lemma {:induction false} MaskOfMask(x: int, a: nat, b: nat)
    requires a <= b
    ensures MaskTo(MaskTo(x, b), a) == MaskTo(x, a)
  {
    MaskToIsMod(x, b);
    MaskToIsMod(MaskTo(x, b), a);
    MaskToIsMod(x, a);
    Pow2Add(a, b - a);
    ModMod(x, Pow2(a), Pow2(b - a));
  }

  /** `(t >> j)` cut to `bits - j` bits is the masked `t` shifted down by `j`. */
  lemma {:induction false} MaskShiftRight(t: int, bits: nat, j: nat)
    requires j <= bits
    ensures MaskTo(ShiftRight(t, j), bits - j) == ShiftRight(MaskTo(t, bits), j)
    decreases j
  {
    if j > 0 {
      var m := MaskTo(t / 2, bits - 1);
      assert (2 * m + t % 2) / 2 == m;
      MaskShiftRight(t / 2, bits - 1, j - 1);
    }
  }

  /** `~(-1 << c)` is the mask of the low `c` bits. */
  lemma {:induction false} LowOnes(c: nat)
    ensures BitNot(ShiftLeft(-1, c)) == Pow2(c) - 1
  {
    ShiftLeftIsProduct(-1, c);
  }

  /** Rotating by no places, or by a whole turn, changes nothing. */
  lemma {:induction false} RotateLeftNone(v: int, bits: nat)
    requires 0 <= v < Pow2(bits)
    ensures RotateLeft(v, bits, 0) == v && RotateLeft(v, bits, bits) == v
  {
    RotateLeftZero(v, bits);
    RotateLeftWhole(v, bits);
  }

  lemma {:induction false} RotateLeftZero(v: int, bits: nat)
    requires 0 <= v < Pow2(bits)
    ensures RotateLeft(v, bits, 0) == v
  {
    ShiftRightBelow(v, bits, bits);
  }

  lemma {:induction false} RotateLeftWhole(v: int, bits: nat)
    requires 0 <= v < Pow2(bits)
    ensures RotateLeft(v, bits, bits) == v
  {
    ShiftLeftIsProduct(0, bits);
    assert bits - bits == 0;
  }

  /** Rotating left by `k` and then by `bits - k` is the identity. */
  lemma {:induction false} RotateLeftInverse(v: int, bits: nat, k: nat)
    requires 0 <= v < Pow2(bits) && k <= bits
    ensures RotateLeft(RotateLeft(v, bits, k), bits, bits - k) == v
  {
    var lo, hi := MaskTo(v, bits - k), ShiftRight(v, bits - k);
    ShiftRightBelow(v, bits, bits - k);
    var r := RotateLeft(v, bits, k);
    assert r == ShiftLeft(lo, k) + hi;
    SplitAt(lo, hi, k);
    assert bits - (bits - k) == k;
    assert RotateLeft(r, bits, bits - k) == ShiftLeft(hi, bits - k) + lo;
    Recombine(v, bits - k);
  }

  /** Negating a count reduces to the complementary count modulo the width. */
  lemma {:induction false} NegatedCount(count: int, bits: nat)
    requires bits > 0
    ensures count % bits == 0 <==> (-count) % bits == 0
    ensures count % bits != 0 ==> (-count) % bits == bits - count % bits
    ensures count % bits != 0 ==> count % bits == bits - (-count) % bits
  {
    var q, c := count / bits, count % bits;
    DivModIdentity(count, bits);
    if c == 0 {
      assert -count == (-q) * bits + 0;
      DivModUnique(-count, bits, -q, 0);
    } else {
      assert -count == (-q - 1) * bits + (bits - c);
      DivModUnique(-count, bits, -q - 1, bits - c);
    }
  }

  /**
   * The two halves `rol` combines, for a value that fits the width and a
   * left rotation by `k`: shifted up and masked, the low `bits - k` bits;
   * shifted down and masked, the high `k` bits; combined with `|`, the
   * rotated value.
   */
  lemma {:induction false} RotateHalves(v: int, bits: nat, k: nat, j: nat)
    requires 0 <= v < Pow2(bits) && k + j == bits
    ensures MaskTo(BitOr(MaskTo(ShiftLeft(v, k), bits), MaskTo(ShiftRight(v, j), bits)), bits)
         == RotateLeft(v, bits, k)
  {
    var lo, hi := MaskTo(v, j), ShiftRight(v, j);
    ShiftRightBelow(v, bits, j);
    Pow2Monotone(k, bits);
    assert MaskTo(hi, bits) == hi;
    MaskShiftLeft(v, bits, k);
    OrDisjoint(lo, hi, k);
  }

  /** The same halves combined in the order the rightward branch uses. */
  lemma {:induction false} RotateHalvesSwapped(v: int, bits: nat, k: nat, j: nat)
    requires 0 <= v < Pow2(bits) && k + j == bits
    ensures MaskTo(BitOr(MaskTo(ShiftRight(v, j), bits), MaskTo(ShiftLeft(v, k), bits)), bits)
         == RotateLeft(v, bits, k)
  {
    RotateHalves(v, bits, k, j);
    BitwiseCommutes(OrBits, MaskTo(ShiftRight(v, j), bits), MaskTo(ShiftLeft(v, k), bits));
  }

  /** For a value that fits the width, `rol(count)` rotates left by `count` modulo the width. */
  lemma {:induction false} RolIsRotateLeft(v: int, bits: nat, count: int)
    requires bits > 0 && 0 <= v < Pow2(bits)
    ensures RolValue(v, bits, count) == RotateLeft(v, bits, count % bits)
  {
    var c, d := count % bits, (-count) % bits;
    if count > 0 {
      assert RolValue(v, bits, count) == RolUp(v, bits, c);
      RolUpRotates(v, bits, c);
    } else {
      assert RolValue(v, bits, count) == RolDown(v, bits, d);
      NegatedCount(count, bits);
      RolDownRotates(v, bits, d);
      SameRotation(v, bits, c, d);
    }
  }

  /** The leftward branch rotates a value that fits the width left by `c`. */
  lemma {:induction false} RolUpRotates(v: int, bits: nat, c: nat)
    requires 0 <= v < Pow2(bits) && c <= bits
    ensures RolUp(v, bits, c) == RotateLeft(v, bits, c)
  {
    RotateHalves(v, bits, c, bits - c);
  }

  /** The rightward branch rotates a value that fits the width right by `d`. */
  lemma {:induction false} RolDownRotates(v: int, bits: nat, d: nat)
    requires 0 <= v < Pow2(bits) && d <= bits
    ensures RolDown(v, bits, d) == RotateLeft(v, bits, bits - d)
  {
    RotateHalvesSwapped(v, bits, bits - d, d);
  }

  /** Rotating right by `d` is rotating left by the complementary count `c`. */
  lemma {:induction false} SameRotation(v: int, bits: nat, c: nat, d: nat)
    requires 0 <= v < Pow2(bits)
    requires (c == 0 && d == 0) || (c <= bits && c + d == bits)
    ensures RotateLeft(v, bits, bits - d) == RotateLeft(v, bits, c)
  {
    if c == 0 && d == 0 {
      RotateLeftNone(v, bits);
    } else {
      assert bits - d == c;
    }
  }

  /** Rotating left by `count` and by `-count`, both modulo the width, is the identity. */
  lemma {:induction false} RotateLeftOpposite(v: int, bits: nat, count: int)
    requires bits > 0 && 0 <= v < Pow2(bits)
    ensures RotateLeft(RotateLeft(v, bits, count % bits), bits, (-count) % bits) == v
  {
    NegatedCount(count, bits);
    OppositeRotations(v, bits, count % bits, (-count) % bits);
  }

  lemma {:induction false} OppositeRotations(v: int, bits: nat, c: nat, d: nat)
    requires 0 <= v < Pow2(bits)
    requires (c == 0 && d == 0) || (c <= bits && c + d == bits)
    ensures RotateLeft(RotateLeft(v, bits, c), bits, d) == v
  {
    if c == 0 && d == 0 {
      RotateLeftZero(v, bits);
      RotateLeftZero(RotateLeft(v, bits, 0), bits);
    } else {
      RotateLeftInverse(v, bits, c);
      assert d == bits - c;
    }
  }

  /** The rotation in plain arithmetic: `(v * 2^k) mod 2^bits + v div 2^(bits - k)`. */
  lemma {:induction false} RotateLeftArithmetic(v: int, bits: nat, k: nat)
    requires 0 <= v < Pow2(bits) && k <= bits
    ensures RotateLeft(v, bits, k) == (v * Pow2(k)) % Pow2(bits) + v / Pow2(bits - k)
  {
    MaskShiftLeft(v, bits, k);
    ShiftLeftIsProduct(v, k);
    MaskToIsMod(v * Pow2(k), bits);
    ShiftRightIsQuotient(v, bits - k);
  }

  /** For `0 < c < bits`, `rol(c)` on a value that fits the width in plain arithmetic. */
  lemma {:induction false} RolArithmetic(v: int, bits: nat, c: int)
    requires 0 < c < bits && 0 <= v < Pow2(bits)
    ensures RolValue(v, bits, c) == (v * Pow2(c)) % Pow2(bits) + v / Pow2(bits - c)
  {
    DivModUnique(c, bits, 0, c);
    RolIsRotateLeft(v, bits, c);
    RotateLeftArithmetic(v, bits, c);
  }

  /** `rol(count)` followed by `ror(count)` restores a value that fits the width. */
  lemma {:induction false} RolThenRor(v: int, bits: nat, count: int)
    requires bits > 0 && 0 <= v < Pow2(bits)
    ensures RolValue(RolValue(v, bits, count), bits, -count) == v
  {
    RoundTrip(v, bits, count, -count);
  }

  /** `ror(count)` followed by `rol(count)` restores a value that fits the width. */
  lemma {:induction false} RorThenRol(v: int, bits: nat, count: int)
    requires bits > 0 && 0 <= v < Pow2(bits)
    ensures RolValue(RolValue(v, bits, -count), bits, count) == v
  {
    RoundTrip(v, bits, -count, count);
  }

  /** Rotating by `there` and then by `back == -there` is the identity. */
  lemma {:induction false} RoundTrip(v: int, bits: nat, there: int, back: int)
    requires bits > 0 && 0 <= v < Pow2(bits) && back == -there
    ensures RolValue(RolValue(v, bits, there), bits, back) == v
  {
    var r := RolValue(v, bits, there);
    RolIsRotateLeft(v, bits, there);
    RolBack(v, bits, there, r);
  }

  /** Rotating by `-count` undoes a rotation left by `count`. */
  lemma {:induction false} RolBack(v: int, bits: nat, count: int, r: int)
    requires bits > 0 && 0 <= v < Pow2(bits) && r == RotateLeft(v, bits, count % bits)
    ensures RolValue(r, bits, -count) == v
  {
    RolIsRotateLeft(r, bits, -count);
    RotateLeftOpposite(v, bits, count);
  }

  /** Rotating by a whole number of turns leaves a value that fits the width unchanged. */
  lemma {:induction false} RolFullTurns(v: int, bits: nat, turns: int)
    requires bits > 0 && 0 <= v < Pow2(bits)
    ensures RolValue(v, bits, turns * bits) == v
  {
    DivModUnique(turns * bits, bits, turns, 0);
    RolIsRotateLeft(v, bits, turns * bits);
    RotateLeftNone(v, bits);
  }

  /**
   * What `rol(count)` is meant to do to any stored value: rotate the
   * `bits`-bit pattern the mask keeps of it, left by `count` modulo the
   * width (right for a negative count).
   */
  function RotateMasked(t: int, bits: nat, count: int): (r: int)
    requires bits > 0
    ensures 0 <= r < Pow2(bits)
  {
    RotateLeft(MaskTo(t, bits), bits, count % bits)
  }

  /** The intended rotation is undone by rotating the other way, for every stored value. */
  lemma {:induction false} RotateMaskedRoundTrip(t: int, bits: nat, count: int)
    requires bits > 0
    ensures RotateMasked(RotateMasked(t, bits, count), bits, -count) == MaskTo(t, bits)
  {
    var r := RotateMasked(t, bits, count);
    assert MaskTo(r, bits) == r;
    RotateLeftOpposite(MaskTo(t, bits), bits, count);
  }

  /**
   * `rol` does rotate the masked pattern when the stored value fits the
   * width, and, thanks to the correction for negative values, when it is
   * negative and the rotation is leftward.
   */
  lemma {:induction false} RolIsRotateMasked(t: int, bits: nat, count: int)
    requires bits > 0
    requires 0 <= t < Pow2(bits) || (t < 0 && count > 0)
    ensures RolValue(t, bits, count) == RotateMasked(t, bits, count)
  {
    if 0 <= t < Pow2(bits) {
      RolIsRotateLeft(t, bits, count);
    } else {
      RolNegativeLeftward(t, bits, count);
    }
  }

  lemma {:induction false} RolNegativeLeftward(t: int, bits: nat, count: int)
    requires bits > 0 && t < 0 && count > 0
    ensures RolValue(t, bits, count) == RotateMasked(t, bits, count)
  {
    RolUpNegative(t, bits, count % bits);
  }

  /** With the correction, the leftward branch rotates the masked pattern of a negative value. */
  lemma {:induction false} RolUpNegative(t: int, bits: nat, c: nat)
    requires t < 0 && c <= bits
    ensures RolUp(t, bits, c) == RotateLeft(MaskTo(t, bits), bits, c)
  {
    var v := MaskTo(t, bits);
    var high := MaskTo(BitAnd(MaskTo(ShiftRight(t, bits - c), bits), BitNot(ShiftLeft(-1, c))), bits);
    assert high == ShiftRight(v, bits - c) by {
      CorrectedHigh(t, bits, c);
    }
    var low := MaskTo(ShiftLeft(t, c), bits);
    assert low == ShiftLeft(MaskTo(v, bits - c), c) by {
      MaskShiftLeft(t, bits, c);
      MaskOfMask(t, bits - c, bits);
    }
    ShiftRightBelow(v, bits, bits - c);
    OrDisjoint(MaskTo(v, bits - c), high, c);
  }

  /** The high part after the correction: the top `c` bits of the masked value, moved down. */
  lemma {:induction false} CorrectedHigh(t: int, bits: nat, c: nat)
    requires c <= bits
    ensures MaskTo(BitAnd(MaskTo(ShiftRight(t, bits - c), bits), BitNot(ShiftLeft(-1, c))), bits)
         == ShiftRight(MaskTo(t, bits), bits - c)
  {
    var h := MaskTo(ShiftRight(t, bits - c), bits);
    LowOnes(c);
    MaskToIsBitAnd(h, c);
    Pow2Monotone(c, bits);
    MaskOfMask(ShiftRight(t, bits - c), c, bits);
    assert bits - (bits - c) == c;
    MaskShiftRight(t, bits, bits - c);
  }

  /**
   * As written, the correction is guarded by `t < 0`: a stored value at or
   * above `2^bits` keeps its excess bits in the high part. At width 8, `256`
   * masks to `0`, yet rotating it left by one gives `2`.
   */
  lemma {:induction false} RolOfWideValue()
    ensures RolValue(256, 8, 1) == 2
    ensures RotateMasked(256, 8, 1) == 0
  {
    assert Pow2(8) == 256;
    ShiftRightIsQuotient(256, 7);
    assert ShiftRight(256, 7) == 2;
    ShiftLeftIsProduct(256, 1);
    MaskToIsMod(512, 8);
    BitwiseCommutes(OrBits, 0, 2);
    OrZero(2);
    assert RolValue(256, 8, 1) == MaskTo(BitOr(0, 2), 8);
    MaskToIsMod(256, 8);
    RotateLeftZeroValue(8, 1);
  }

  /**
   * As written, the rightward branch has no correction at all: the sign bits
   * of a negative value fill the vacated high bits. At width 8, `-256` masks
   * to `0`, yet rotating it right by one gives `128`.
   */
  lemma {:induction false} RorOfNegativeValue()
    ensures RolValue(-256, 8, -1) == 128
    ensures RotateMasked(-256, 8, -1) == 0
  {
    assert Pow2(8) == 256;
    assert RolValue(-256, 8, -1) == MaskTo(BitOr(MaskTo(ShiftRight(-256, 1), 8), MaskTo(ShiftLeft(-256, 7), 8)), 8) by {
      assert (-(-1)) % 8 == 1;
    }
    assert MaskTo(ShiftRight(-256, 1), 8) == 128 by {
      assert ShiftRight(-256, 1) == -128;
      MaskToIsMod(-128, 8);
    }
    assert MaskTo(ShiftLeft(-256, 7), 8) == 0 by {
      ShiftLeftIsProduct(-256, 7);
      MaskToIsMod(-32768, 8);
    }
    OrZero(128);
    assert RotateMasked(-256, 8, -1) == 0 by {
      MaskToIsMod(-256, 8);
      RotateLeftZeroValue(8, 7);
    }
  }

  /** Rotating the all-zero pattern gives the all-zero pattern. */
  lemma {:induction false} RotateLeftZeroValue(bits: nat, k: nat)
    requires k <= bits
    ensures RotateLeft(0, bits, k) == 0
  {
    ShiftLeftIsProduct(0, k);
    ShiftRightIsQuotient(0, bits - k);
  }
}
