/**
 * The byte and text forms of a masked integer: `int.to_bytes(n, "little",
 * signed=False)` and `bytes.hex().upper()`.
 */
module Serial {
  import opened Outcomes
  import opened PyInt

  /** One octet. */
  type byte = x: int | 0 <= x < 256

  /** `256^n`, the number of values `n` bytes can hold. */
  lemma {:induction false} ByteRange(n: nat)
    requires n > 0
    ensures Pow2(8 * n) == 256 * Pow2(8 * (n - 1))
  {
    Pow2Add(8, 8 * (n - 1));
    assert Pow2(8) == 256;
  }

  /** The `n` bytes of `v`, least significant first. */
  function LittleEndian(v: nat, n: nat): (r: seq<byte>)
    requires v < Pow2(8 * n)
    ensures |r| == n
    decreases n
  {
    if n == 0 then []
    else
      ByteRange(n);
      [v % 256] + LittleEndian(v / 256, n - 1)
  }

  /** The number whose little-endian unsigned bytes are `s`. */
  function FromLittleEndian(s: seq<byte>): (r: nat)
    ensures r < Pow2(8 * |s|)
  {
    if s == [] then 0
    else
      ByteRange(|s|);
      s[0] + 256 * FromLittleEndian(s[1..])
  }

  /** Decoding the bytes gives back the number. */
  lemma {:induction false} LittleEndianRoundTrip(v: nat, n: nat)
    requires v < Pow2(8 * n)
    ensures FromLittleEndian(LittleEndian(v, n)) == v
    decreases n
  {
    if n > 0 {
      ByteRange(n);
      var s := LittleEndian(v, n);
      assert s[1..] == LittleEndian(v / 256, n - 1);
      LittleEndianRoundTrip(v / 256, n - 1);
    }
  }

  /** Encoding a decoded byte string at its own length gives back the bytes. */
  lemma {:induction false} FromLittleEndianRoundTrip(s: seq<byte>)
    ensures LittleEndian(FromLittleEndian(s), |s|) == s
  {
    if s != [] {
      ByteRange(|s|);
      FromLittleEndianRoundTrip(s[1..]);
      var v := FromLittleEndian(s);
      assert v % 256 == s[0] && v / 256 == FromLittleEndian(s[1..]);
    }
  }

  /**
   * `v.to_bytes(n, "little", signed=False)`: exactly `n` bytes that decode
   * to `v`, or `OverflowError` for a negative `v` or one that needs more than
   * `n` bytes.
   */
  function ToBytes(v: int, n: nat): (r: Result<seq<byte>>)
    ensures r.Ok? <==> 0 <= v < Pow2(8 * n)
    ensures r.Err? ==> r.error == Overflow
    ensures r.Ok? ==> |r.value| == n && FromLittleEndian(r.value) == v
  {
    if v < 0 || v >= Pow2(8 * n) then Err(Overflow)
    else
      LittleEndianRoundTrip(v, n);
      Ok(LittleEndian(v, n))
  }

  /** Upper-case hexadecimal digit of a nibble. */
  function HexDigit(d: int): (c: char)
    requires 0 <= d < 16
    ensures '0' <= c <= '9' || 'A' <= c <= 'F'
  {
    if d < 10 then ('0' as int + d) as char else ('A' as int + d - 10) as char
  }

  /** Value of an upper-case hexadecimal digit, if it is one. */
  function DigitValue(c: char): (r: Option<int>)
    ensures r.Some? ==> 0 <= r.value < 16 && HexDigit(r.value) == c
  {
    if '0' <= c <= '9' then Some(c as int - '0' as int)
    else if 'A' <= c <= 'F' then Some(c as int - 'A' as int + 10)
    else None
  }

  /** Every digit reads back as the nibble it was written for. */
  lemma {:induction false} DigitValueOfHexDigit(d: int)
    requires 0 <= d < 16
    ensures DigitValue(HexDigit(d)) == Some(d)
  {
  }

  /** The two upper-case digits of one byte, high nibble first. */
  function HexPair(b: byte): (r: string)
    ensures |r| == 2
  {
    [HexDigit(b / 16), HexDigit(b % 16)]
  }

  /** `bytes.hex().upper()`: the digit pairs of the bytes, in byte order. */
  function HexOf(s: seq<byte>): (r: string)
    ensures |r| == 2 * |s|
  {
    if s == [] then "" else HexPair(s[0]) + HexOf(s[1..])
  }

  /** Byte `i` is spelled by characters `2i` and `2i + 1` of the hex text. */
  lemma {:induction false} HexOfAt(s: seq<byte>, i: nat)
    requires i < |s|
    ensures HexOf(s)[2 * i] == HexDigit(s[i] / 16)
    ensures HexOf(s)[2 * i + 1] == HexDigit(s[i] % 16)
  {
    if i > 0 {
      HexOfAt(s[1..], i - 1);
      assert HexOf(s)[2 * i] == HexOf(s[1..])[2 * (i - 1)];
      assert HexOf(s)[2 * i + 1] == HexOf(s[1..])[2 * (i - 1) + 1];
    }
  }

  /** `bytes.fromhex(t)` for upper-case text: `None` on an odd length or a non-digit. */
  function FromHex(t: string): (r: Option<seq<byte>>)
    ensures r.Some? ==> 2 * |r.value| == |t|
    decreases |t|
  {
    if t == [] then Some([])
    else if |t| == 1 then None
    else
      match (DigitValue(t[0]), DigitValue(t[1]), FromHex(t[2..]))
      case (Some(h), Some(l), Some(rest)) => Some([(16 * h + l) as byte] + rest)
      case _ => None
  }

  /** Reading the hex text back gives the bytes it was written from. */
  lemma {:induction false} HexRoundTrip(s: seq<byte>)
    ensures FromHex(HexOf(s)) == Some(s)
  {
    if s != [] {
      var t := HexOf(s);
      DigitValueOfHexDigit(s[0] / 16);
      DigitValueOfHexDigit(s[0] % 16);
      assert t[2..] == HexOf(s[1..]);
      HexRoundTrip(s[1..]);
      assert s == [s[0]] + s[1..];
    }
  }
}
