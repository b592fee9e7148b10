/**
 * Arithmetic at a fixed width of `bits` bits: the mask `(1 << bits) - 1`,
 * and negation and complement under that mask.
 */
module FixedWidth {
  import opened PyInt

  /**
   * `x & ((1 << bits) - 1)`, the masking step of the masked integer: the
   * lowest `bits` bits of `x`, also for negative `x`.
   */
  function MaskTo(x: int, bits: nat): (r: int)
    ensures 0 <= r < Pow2(bits)
    ensures 0 <= x < Pow2(bits) ==> r == x
    decreases bits
  {
    if bits == 0 then 0 else 2 * MaskTo(x / 2, bits - 1) + x % 2
  }

  /** Masking to `bits` bits is reducing modulo `2^bits`. */
  lemma {:induction false} MaskToIsMod(x: int, bits: nat)
    ensures MaskTo(x, bits) == x % Pow2(bits)
    decreases bits
  {
    if bits == 0 {
      DivModUnique(x, 1, x, 0);
    } else {
      MaskToIsMod(x / 2, bits - 1);
      HalveMod(x, Pow2(bits - 1));
    }
  }

  /** Masking to `bits` bits is Python's `x & ((1 << bits) - 1)`, for every `x`. */
  lemma {:induction false} MaskToIsBitAnd(x: int, bits: nat)
    ensures MaskTo(x, bits) == BitAnd(x, Pow2(bits) - 1)
  {
    MaskToIsMod(x, bits);
    AndLowMask(x, bits);
  }

  /** Adding a multiple of `2^bits` does not change the masked value. */
  lemma {:induction false} MaskAddMultiple(x: int, k: int, bits: nat)
    ensures MaskTo(x + k * Pow2(bits), bits) == MaskTo(x, bits)
  {
    var p := Pow2(bits);
    var q := x / p;
    assert x + k * p == (q + k) * p + x % p by {
      DivModIdentity(x, p);
      MulAdd(q, k, p);
    }
    DivModUnique(x + k * p, p, q + k, x % p);
    MaskToIsMod(x + k * p, bits);
    MaskToIsMod(x, bits);
  }

  /** Masking an operand before an addition does not change the masked sum. */
  lemma {:induction false} MaskAddCongruent(a: int, b: int, bits: nat)
    ensures MaskTo(MaskTo(a, bits) + b, bits) == MaskTo(a + b, bits)
  {
    var p := Pow2(bits);
    MaskToIsMod(a, bits);
    assert a + b == MaskTo(a, bits) + b + (a / p) * p by {
      DivModIdentity(a, p);
    }
    MaskAddMultiple(MaskTo(a, bits) + b, a / p, bits);
  }

  /** Masking an operand before a multiplication does not change the masked product. */
  lemma {:induction false} MaskMulCongruent(a: int, b: int, bits: nat)
    ensures MaskTo(MaskTo(a, bits) * b, bits) == MaskTo(a * b, bits)
  {
    var p, m := Pow2(bits), MaskTo(a, bits);
    var q := a / p;
    assert a == m + q * p by {
      MaskToIsMod(a, bits);
      DivModIdentity(a, p);
    }
    assert a * b == m * b + (q * b) * p by {
      MulAdd(m, q * p, b);
      MulSwap(q, p, b);
    }
    MaskAddMultiple(m * b, q * b, bits);
  }

  /**
   * Exponentiation at a fixed width only depends on the masked base: the
   * full-precision power masked once equals the power of the masked base.
   */
  lemma {:induction false} MaskPowerCongruent(b: int, e: nat, bits: nat)
    ensures MaskTo(Power(MaskTo(b, bits), e), bits) == MaskTo(Power(b, e), bits)
  {
    if e > 0 {
      var m := MaskTo(b, bits);
      calc {
        MaskTo(Power(m, e), bits);
        MaskTo(m * Power(m, e - 1), bits);
        { MaskMulCongruent(Power(m, e - 1), m, bits); }
        MaskTo(MaskTo(Power(m, e - 1), bits) * m, bits);
        { MaskPowerCongruent(b, e - 1, bits); }
        MaskTo(MaskTo(Power(b, e - 1), bits) * m, bits);
        { MaskMulCongruent(Power(b, e - 1), m, bits); }
        MaskTo(m * Power(b, e - 1), bits);
        { MaskMulCongruent(b, Power(b, e - 1), bits); }
        MaskTo(b * Power(b, e - 1), bits);
      }
    }
  }

  /** `(-v) & mask`: the additive inverse of `v` modulo `2^bits`. */
  function Negated(v: int, bits: nat): (r: int)
    ensures 0 <= r < Pow2(bits)
    ensures MaskTo(r + v, bits) == 0
  {
    MaskOfNegation(v, bits);
    MaskTo(-v, bits)
  }

  /** The low bits of `-v` and of `v` add up to a multiple of `2^bits`. */
  lemma {:induction false} MaskOfNegation(v: int, bits: nat)
    ensures MaskTo(MaskTo(-v, bits) + v, bits) == 0
  {
    var p, r := Pow2(bits), MaskTo(-v, bits);
    var k := -((-v) / p);
    assert r + v == 0 + k * p by {
      MaskToIsMod(-v, bits);
      DivModIdentity(-v, p);
      MulNeg((-v) / p, p);
    }
    MaskAddMultiple(0, k, bits);
  }

  /** `(~v) & mask`: every one of the low `bits` bits of `v` flipped. */
  function Complemented(v: int, bits: nat): (r: int)
    ensures 0 <= r < Pow2(bits)
    ensures r + MaskTo(v, bits) == Pow2(bits) - 1
  {
    MaskOfNot(v, bits);
    MaskTo(BitNot(v), bits)
  }

  /** The low bits of `~v` and of `v` are complementary. */
  lemma {:induction false} MaskOfNot(v: int, bits: nat)
    ensures MaskTo(BitNot(v), bits) + MaskTo(v, bits) == Pow2(bits) - 1
    decreases bits
  {
    if bits > 0 {
      assert BitNot(v) / 2 == BitNot(v / 2) && BitNot(v) % 2 == 1 - v % 2 by {
        DivModIdentity(v, 2);
        DivModUnique(BitNot(v), 2, BitNot(v / 2), 1 - v % 2);
      }
      MaskOfNot(v / 2, bits - 1);
    }
  }

  /** Negating twice gives back any value that fits the width. */
  lemma {:induction false} NegatedTwice(v: int, bits: nat)
    requires 0 <= v < Pow2(bits)
    ensures Negated(Negated(v, bits), bits) == v
  {
    var n := Negated(v, bits);
    InverseOfNegated(v, n, bits);
    assert MaskTo(-n, bits) == v;
  }

  /** Any in-range `n` that cancels `v` at this width is the `n` whose negation is `v`. */
  lemma {:induction false} InverseOfNegated(v: int, n: int, bits: nat)
    requires 0 <= v < Pow2(bits) && 0 <= n < Pow2(bits)
    requires MaskTo(n + v, bits) == 0
    ensures MaskTo(-n, bits) == v
  {
    if n + v < Pow2(bits) {
      assert n == 0 && v == 0;
    } else {
      WrapsOnce(n + v, bits);
      NegatedComplement(v, n, bits);
    }
  }

  /** A value in `[2^bits, 2^(bits+1))` that masks to 0 is `2^bits`. */
  lemma {:induction false} WrapsOnce(x: int, bits: nat)
    requires Pow2(bits) <= x < 2 * Pow2(bits) && MaskTo(x, bits) == 0
    ensures x == Pow2(bits)
  {
    MaskAddMultiple(x - Pow2(bits), 1, bits);
  }

  lemma {:induction false} NegatedComplement(v: int, n: int, bits: nat)
    requires 0 <= v < Pow2(bits) && n + v == Pow2(bits)
    ensures MaskTo(-n, bits) == v
  {
    MaskAddMultiple(v, -1, bits);
  }

  /** Complementing twice gives back any value that fits the width. */
  lemma {:induction false} ComplementedTwice(v: int, bits: nat)
    requires 0 <= v < Pow2(bits)
    ensures Complemented(Complemented(v, bits), bits) == v
  {
    var c := Complemented(v, bits);
    assert Complemented(c, bits) + c == Pow2(bits) - 1;
  }
}
