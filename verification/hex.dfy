/**
 * Hexadecimal text as the digests are printed: QString::arg(n, 8, 16, '0')
 * for the CRC register and QByteArray::toHex for the cryptographic digests.
 */
module Hex {
  import opened Strings

  type byte = bv8

  /** The lower-case digit for a nibble, as Qt prints base-16 numbers. */
  function LowerDigit(d: nat): (c: char)
    requires d < 16
    ensures IsLowerHexDigit(c) && DigitValue(c) == d
  {
    if d < 10 then ('0' as int + d) as char else ('a' as int + d - 10) as char
  }

  predicate IsLowerHexDigit(c: char) {
    ('0' <= c <= '9') || ('a' <= c <= 'f')
  }

  predicate IsUpperHexDigit(c: char) {
    ('0' <= c <= '9') || ('A' <= c <= 'F')
  }

  predicate IsHexDigit(c: char) {
    IsLowerHexDigit(c) || IsUpperHexDigit(c)
  }

  /** The value of one hex digit of either case. */
  function DigitValue(c: char): (d: nat)
    requires IsHexDigit(c)
    ensures d < 16
  {
    if '0' <= c <= '9' then c as int - '0' as int
    else if 'a' <= c <= 'f' then c as int - 'a' as int + 10
    else c as int - 'A' as int + 10
  }

  predicate AllHex(s: string) {
    forall i :: 0 <= i < |s| ==> IsHexDigit(s[i])
  }

  /** Value of a hex text, most significant digit first. */
  function Value(s: string): nat
    requires AllHex(s)
  {
    if |s| == 0 then 0 else Value(s[..|s| - 1]) * 16 + DigitValue(s[|s| - 1])
  }

  /** QString::number(n, 16): the shortest lower-case hex text of `n`. */
  function LowerHexOfNat(n: nat): (s: string)
    ensures 0 < |s| && forall i :: 0 <= i < |s| ==> IsLowerHexDigit(s[i])
  {
    if n < 16 then [LowerDigit(n)] else LowerHexOfNat(n / 16) + [LowerDigit(n % 16)]
  }

  lemma {:induction false} LowerHexOfNatValue(n: nat)
    ensures AllHex(LowerHexOfNat(n)) && Value(LowerHexOfNat(n)) == n
  {
    var s := LowerHexOfNat(n);
    if n >= 16 {
      LowerHexOfNatValue(n / 16);
      assert s[..|s| - 1] == LowerHexOfNat(n / 16);
    }
  }

  function Pow16(k: nat): (r: nat)
    ensures r >= 1
  {
    if k == 0 then 1 else 16 * Pow16(k - 1)
  }

  lemma {:induction false} LowerHexOfNatLength(n: nat, k: nat)
    requires n < Pow16(k) && k > 0
    ensures |LowerHexOfNat(n)| <= k
  {
    if n >= 16 {
      LowerHexOfNatLength(n / 16, k - 1);
    }
  }

  lemma {:induction false} LeadingZeros(z: nat, s: string)
    requires AllHex(s)
    ensures AllHex(Repeat('0', z) + s) && Value(Repeat('0', z) + s) == Value(s)
    decreases |s|
  {
    var t := Repeat('0', z) + s;
    if |s| == 0 {
      ZerosValue(z);
      assert t == Repeat('0', z);
    } else {
      LeadingZeros(z, s[..|s| - 1]);
      assert t[..|t| - 1] == Repeat('0', z) + s[..|s| - 1];
    }
  }

  lemma {:induction false} ZerosValue(z: nat)
    ensures AllHex(Repeat('0', z)) && Value(Repeat('0', z)) == 0
  {
    if z > 0 {
      ZerosValue(z - 1);
      assert Repeat('0', z)[..z - 1] == Repeat('0', z - 1);
    }
  }

  lemma {:induction false} UpperValue(s: string)
    requires AllHex(s)
    ensures AllHex(ToUpper(s)) && Value(ToUpper(s)) == Value(s)
    decreases |s|
  {
    if |s| > 0 {
      UpperValue(s[..|s| - 1]);
      assert ToUpper(s)[..|s| - 1] == ToUpper(s[..|s| - 1]);
    }
  }

  /** `r` is `width` upper-case hex digits whose value is `n`. */
  predicate UpperHexOf(r: string, n: nat, width: nat) {
    && |r| == width
    && (forall i :: 0 <= i < width ==> IsUpperHexDigit(r[i]))
    && AllHex(r) && Value(r) == n
  }

  /**
   * `QString("%1").arg(x, 8, 16, QChar('0')).toUpper()`: the register as
   * eight upper-case hex digits, zero-padded on the left.
   */
  function Upper8(x: bv32): (r: string)
    ensures UpperHexOf(r, x as int, 8)
  {
    RegisterBound(x);
    PaddedUpper(x as int, 8)
  }

  lemma RegisterBound(x: bv32)
    ensures x as int < Pow16(8)
  {
    Pow16Eight();
  }

  lemma Pow16Eight()
    ensures Pow16(8) == 0x1_0000_0000
  {}

  /** `n` in at least `width` upper-case hex digits, zero-padded on the left. */
  function PaddedUpper(n: nat, width: nat): (r: string)
    requires width > 0 && n < Pow16(width)
    ensures UpperHexOf(r, n, width)
  {
    PaddedUpperFacts(n, width);
    ToUpper(RightJustified(LowerHexOfNat(n), width, '0'))
  }

  lemma PaddedUpperFacts(n: nat, width: nat)
    requires width > 0 && n < Pow16(width)
    ensures UpperHexOf(ToUpper(RightJustified(LowerHexOfNat(n), width, '0')), n, width)
  {
    var digits := LowerHexOfNat(n);
    LowerHexOfNatValue(n);
    LowerHexOfNatLength(n, width);
    var padded := Repeat('0', width - |digits|) + digits;
    assert RightJustified(digits, width, '0') == padded;
    LeadingZeros(width - |digits|, digits);
    LowerPadding(width - |digits|, digits);
    UpperValue(padded);
    UpperDigits(padded);
  }

  lemma LowerPadding(z: nat, s: string)
    requires forall i :: 0 <= i < |s| ==> IsLowerHexDigit(s[i])
    ensures forall i :: 0 <= i < z + |s| ==> IsLowerHexDigit((Repeat('0', z) + s)[i])
  {}

  lemma UpperDigits(s: string)
    requires forall i :: 0 <= i < |s| ==> IsLowerHexDigit(s[i])
    ensures forall i :: 0 <= i < |s| ==> IsUpperHexDigit(ToUpper(s)[i])
  {}

  /** One byte as two lower-case hex digits, high nibble first. */
  function ByteHex(b: byte): (r: string)
    ensures |r| == 2 && IsLowerHexDigit(r[0]) && IsLowerHexDigit(r[1])
  {
    [LowerDigit(b as int / 16), LowerDigit(b as int % 16)]
  }

  /** The byte two hex digits of either case denote. */
  function HexByte(hi: char, lo: char): byte
    requires IsHexDigit(hi) && IsHexDigit(lo)
  {
    (DigitValue(hi) * 16 + DigitValue(lo)) as byte
  }

  lemma ByteHexRoundTrip(b: byte)
    ensures HexByte(ByteHex(b)[0], ByteHex(b)[1]) == b
  {
    var v := b as int;
    assert DigitValue(ByteHex(b)[0]) * 16 + DigitValue(ByteHex(b)[1]) == v;
  }

  /** QByteArray::toHex: two lower-case digits per byte, high nibble first. */
  function LowerHexOfBytes(bs: seq<byte>): (r: string)
    ensures |r| == 2 * |bs|
    ensures forall i :: 0 <= i < |r| ==> IsLowerHexDigit(r[i])
  {
    if |bs| == 0 then "" else ByteHex(bs[0]) + LowerHexOfBytes(bs[1..])
  }

  /** Reads two hex digits per byte; None when the text is not such a pairing. */
  function BytesOfHex(s: string): (r: Option<seq<byte>>)
    decreases |s|
  {
    if |s| == 0 then Some([])
    else if |s| == 1 || !IsHexDigit(s[0]) || !IsHexDigit(s[1]) then None
    else
      match BytesOfHex(s[2..])
      case None => None
      case Some(rest) => Some([HexByte(s[0], s[1])] + rest)
  }

  /** The printed digest determines the digest bytes: toHex loses nothing. */
  lemma {:induction false} HexOfBytesRoundTrip(bs: seq<byte>)
    ensures BytesOfHex(LowerHexOfBytes(bs)) == Some(bs)
  {
    if |bs| > 0 {
      HexOfBytesRoundTrip(bs[1..]);
      var s := LowerHexOfBytes(bs);
      var h := ByteHex(bs[0]);
      assert s == h + LowerHexOfBytes(bs[1..]);
      assert s[0] == h[0] && s[1] == h[1] && s[2..] == LowerHexOfBytes(bs[1..]);
      ByteHexRoundTrip(bs[0]);
      assert [bs[0]] + bs[1..] == bs;
    }
  }
}
