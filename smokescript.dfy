/**
 * The repository's smoke script: four additions done once on a plain
 * integer, masked to 64 bits at the end, and once on a 64-bit masked
 * integer with `+=`. Since `+=` does not mask, the masked integer ends up
 * at or above `2^64`, so asking for its hex text raises `OverflowError`.
 * Nothing catches it: the script stops there, before its final comparison.
 */
module SmokeScript {
  import opened Outcomes
  import opened PyInt
  import opened FixedWidth
  import opened MaskedInteger

  lemma {:induction false} Pow2Of64()
    ensures Pow2(64) == 0x1_0000_0000_0000_0000
  {
    assert Pow2(8) == 0x100;
    Pow2Add(8, 8);
    assert Pow2(16) == 0x1_0000;
    Pow2Add(16, 16);
    assert Pow2(32) == 0x1_0000_0000;
    Pow2Add(32, 32);
  }

  /**
   * The script up to where it stops: both sums, which agree modulo `2^64`,
   * and the hex text of the masked integer, which fails. The comparison
   * after it is never reached.
   */
  method AdditionChain() returns (t0: int, m0: MI, text: Result<string>)
    ensures t0 == 0x1111_1111_AAAA_AAAA
    ensures m0.bits == 64 && m0.value == 0x1_1111_1111_AAAA_AAAA
    ensures MaskTo(m0.value, 64) == t0
    ensures text == Err(Overflow)
  {
    t0 := PlainSum();
    m0 := MaskedSum();
    Pow2Of64();
    MaskAddMultiple(0x1111_1111_AAAA_AAAA, 1, 64);
    text := WideHex(m0);
  }

  /** The stored sum no longer fits 64 bits, so it has no hex text. */
  method WideHex(m: MI) returns (text: Result<string>)
    requires m.bits == 64 && m.value == 0x1_1111_1111_AAAA_AAAA
    ensures text == Err(Overflow)
  {
    Pow2Of64();
    assert m.value > m.Mask();
    text := m.Hex();
  }

  /** The sum on a plain integer, masked to 64 bits once at the end. */
  method PlainSum() returns (t0: int)
    ensures t0 == 0x1111_1111_AAAA_AAAA
  {
    Pow2Of64();
    var m := Pow2(64) - 1;
    t0 := 0x8877665544332211 + 0x1122334455667788;
    t0 := t0 + 0x7777777777777777;
    t0 := t0 + 1;
    t0 := t0 + 0x99999999;
    assert t0 == 0x1111_1111_AAAA_AAAA + 1 * Pow2(64);
    MaskAddMultiple(0x1111_1111_AAAA_AAAA, 1, 64);
    MaskToIsBitAnd(t0, 64);
    t0 := BitAnd(t0, m);
  }

  /** The sum with `+=` on a 64-bit masked integer: nothing masks it. */
  method MaskedSum() returns (m0: MI)
    ensures m0.bits == 64 && m0.value == 0x1_1111_1111_AAAA_AAAA
  {
    Pow2Of64();
    m0 := new MI(IntOperand(0x8877665544332211));
    assert m0.value == 0x8877665544332211;
    var r := m0.IAdd(IntOperand(0x1122334455667788));
    assert m0.value == 0x9999999999999999;
    r := m0.IAdd(IntOperand(0x7777777777777777));
    assert m0.value == 0x1_1111_1111_1111_1110;
    r := m0.IAdd(IntOperand(1));
    r := m0.IAdd(IntOperand(0x99999999));
  }
}
