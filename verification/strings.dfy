/**
 * The handful of QString operations the checksum core relies on, over
 * Dafny strings (sequences of characters).
 */
module Strings {

  /** QChar::isSpace: ASCII 9..13 and space, NEL, NBSP and the Unicode separators. */
  predicate IsSpace(c: char) {
    || c == ' ' || ('\t' <= c <= '\r')
    || c == '\U{85}' || c == '\U{A0}' || c == '\U{1680}'
    || ('\U{2000}' <= c <= '\U{200A}')
    || c == '\U{2028}' || c == '\U{2029}' || c == '\U{202F}' || c == '\U{205F}' || c == '\U{3000}'
  }

  /** True when `s.simplified()` would be empty: nothing but whitespace. */
  predicate AllSpace(s: string) {
    forall i :: 0 <= i < |s| ==> IsSpace(s[i])
  }

  predicate StartsWith(s: string, prefix: string) {
    |prefix| <= |s| && s[..|prefix|] == prefix
  }

  predicate HasChar(s: string, c: char) {
    exists i :: 0 <= i < |s| && s[i] == c
  }

  /** QString::indexOf(QChar): the first position of `c`, or -1. */
  function IndexOfChar(s: string, c: char): (r: int)
    ensures -1 <= r < |s|
    ensures r == -1 <==> !HasChar(s, c)
    ensures r >= 0 ==> s[r] == c && !HasChar(s[..r], c)
  {
    if |s| == 0 then -1
    else if s[0] == c then 0
    else
      var k := IndexOfChar(s[1..], c);
      assert forall i :: 0 < i < |s| ==> s[i] == s[1..][i - 1];
      if k == -1 then -1
      else
        assert s[..k + 1] == [s[0]] + s[1..][..k];
        k + 1
  }

  /** QString::lastIndexOf(QChar): the last position of `c`, or -1. */
  function LastIndexOfChar(s: string, c: char): (r: int)
    ensures -1 <= r < |s|
    ensures r == -1 <==> !HasChar(s, c)
    ensures r >= 0 ==> s[r] == c && !HasChar(s[r + 1..], c)
  {
    if |s| == 0 then -1
    else if s[|s| - 1] == c then |s| - 1
    else
      var k := LastIndexOfChar(s[..|s| - 1], c);
      assert forall i :: 0 <= i < |s| - 1 ==> s[i] == s[..|s| - 1][i];
      if k == -1 then -1
      else
        assert s[k + 1..] == s[..|s| - 1][k + 1..] + [s[|s| - 1]];
        k
  }

  /** A character found at `p` and never after it is last found at `p`. */
  lemma LastAt(s: string, c: char, p: int)
    requires 0 <= p < |s| && s[p] == c && !HasChar(s[p + 1..], c)
    ensures LastIndexOfChar(s, c) == p
  {
    var l := LastIndexOfChar(s, c);
    assert forall i :: l < i < |s| ==> s[i] == s[l + 1..][i - l - 1];
    assert forall i :: p < i < |s| ==> s[i] == s[p + 1..][i - p - 1];
  }

  /** QString::count(QChar). */
  function CountChar(s: string, c: char): nat {
    if |s| == 0 then 0
    else (if s[0] == c then 1 else 0) + CountChar(s[1..], c)
  }

  lemma {:induction false} CountCharAppend(a: string, b: string, c: char)
    ensures CountChar(a + b, c) == CountChar(a, c) + CountChar(b, c)
  {
    if |a| == 0 {
      assert a + b == b;
    } else {
      CountCharAppend(a[1..], b, c);
      assert (a + b)[0] == a[0] && (a + b)[1..] == a[1..] + b;
    }
  }

  lemma {:induction false} CountCharAbsent(s: string, c: char)
    ensures CountChar(s, c) == 0 <==> !HasChar(s, c)
  {
    if |s| > 0 {
      CountCharAbsent(s[1..], c);
      assert forall i :: 0 < i < |s| ==> s[i] == s[1..][i - 1];
      if s[0] != c && HasChar(s, c) {
        var i :| 0 <= i < |s| && s[i] == c;
        assert s[1..][i - 1] == c;
      }
    }
  }

  /** A character found at `p` and nowhere else occurs once. */
  lemma SingleOccurrence(s: string, c: char, p: int)
    requires 0 <= p < |s| && s[p] == c && !HasChar(s[..p], c) && !HasChar(s[p + 1..], c)
    ensures CountChar(s, c) == 1
  {
    assert s == s[..p] + [c] + s[p + 1..];
    CountCharAppend(s[..p] + [c], s[p + 1..], c);
    CountCharAppend(s[..p], [c], c);
    CountCharAbsent(s[..p], c);
    CountCharAbsent(s[p + 1..], c);
    assert CountChar([c], c) == 1;
  }

  /** With two or more occurrences the first lies strictly before the last. */
  lemma TwoOccurrences(s: string, c: char)
    requires CountChar(s, c) > 1
    ensures 0 <= IndexOfChar(s, c) < LastIndexOfChar(s, c)
  {
    CountCharAbsent(s, c);
    var f := IndexOfChar(s, c);
    if f == LastIndexOfChar(s, c) {
      SingleOccurrence(s, c, f);
    }
  }

  /** `needle` occurs in `s` starting at position `i`. */
  predicate OccursAt(s: string, needle: string, i: int) {
    0 <= i && i + |needle| <= |s| && s[i..i + |needle|] == needle
  }

  predicate Contains(s: string, needle: string) {
    exists i :: 0 <= i <= |s| && OccursAt(s, needle, i)
  }

  /** QString::indexOf(QString): the first position where `needle` occurs, or -1. */
  function IndexOf(s: string, needle: string): (r: int)
    ensures -1 <= r <= |s|
    ensures r == -1 <==> !Contains(s, needle)
    ensures r >= 0 ==> OccursAt(s, needle, r) && forall j :: 0 <= j < r ==> !OccursAt(s, needle, j)
  {
    IndexOfFrom(s, needle, 0)
  }

  function IndexOfFrom(s: string, needle: string, from: nat): (r: int)
    requires forall j :: 0 <= j < from ==> !OccursAt(s, needle, j)
    ensures -1 <= r <= |s|
    ensures r == -1 <==> !Contains(s, needle)
    ensures r >= 0 ==> OccursAt(s, needle, r) && forall j :: 0 <= j < r ==> !OccursAt(s, needle, j)
    decreases |s| + 1 - from
  {
    if from + |needle| > |s| then
      assert forall j :: j >= from ==> !OccursAt(s, needle, j);
      -1
    else if s[from..from + |needle|] == needle then
      assert OccursAt(s, needle, from);
      from
    else IndexOfFrom(s, needle, from + 1)
  }

  /** QString::split(QChar, SkipEmptyParts) for a single separator character. */
  function SplitSkipEmpty(s: string, sep: char): (r: seq<string>)
    ensures forall i :: 0 <= i < |r| ==> |r[i]| > 0 && !HasChar(r[i], sep)
  {
    SplitFrom(s, sep, "")
  }

  function SplitFrom(s: string, sep: char, acc: string): (r: seq<string>)
    requires !HasChar(acc, sep)
    ensures forall i :: 0 <= i < |r| ==> |r[i]| > 0 && !HasChar(r[i], sep)
  {
    if |s| == 0 then (if |acc| == 0 then [] else [acc])
    else if s[0] == sep then
      (if |acc| == 0 then [] else [acc]) + SplitFrom(s[1..], sep, "")
    else
      assert forall i :: 0 <= i < |acc + [s[0]]| ==> (acc + [s[0]])[i] != sep by {
        forall i | 0 <= i < |acc + [s[0]]| ensures (acc + [s[0]])[i] != sep {
          if i < |acc| { assert (acc + [s[0]])[i] == acc[i]; }
        }
      }
      SplitFrom(s[1..], sep, acc + [s[0]])
  }

  lemma HasCharAppend(a: string, b: string, c: char)
    ensures HasChar(a + b, c) <==> HasChar(a, c) || HasChar(b, c)
  {
    if HasChar(a + b, c) {
      var i :| 0 <= i < |a + b| && (a + b)[i] == c;
      if i >= |a| {
        assert b[i - |a|] == c;
      }
    }
    if HasChar(a, c) {
      var i :| 0 <= i < |a| && a[i] == c;
      assert (a + b)[i] == c;
    }
    if HasChar(b, c) {
      var i :| 0 <= i < |b| && b[i] == c;
      assert (a + b)[|a| + i] == c;
    }
  }

  /** A word without separators is one part, joined to whatever part was pending. */
  lemma {:induction false} SplitWord(s: string, sep: char, acc: string)
    requires !HasChar(acc, sep) && !HasChar(s, sep)
    ensures SplitFrom(s, sep, acc) == if |acc + s| == 0 then [] else [acc + s]
    decreases |s|
  {
    if |s| == 0 {
      assert acc + s == acc;
    } else {
      assert s == [s[0]] + s[1..];
      HasCharAppend([s[0]], s[1..], sep);
      HasCharAppend(acc, [s[0]], sep);
      SplitWord(s[1..], sep, acc + [s[0]]);
      assert acc + [s[0]] + s[1..] == acc + s;
    }
  }

  /** A separator after a word closes the word's part; splitting goes on afresh after it. */
  lemma {:induction false} SplitAfterWord(w: string, t: string, sep: char, acc: string)
    requires !HasChar(acc, sep) && !HasChar(w, sep)
    ensures SplitFrom(w + [sep] + t, sep, acc) ==
      (if |acc + w| == 0 then [] else [acc + w]) + SplitFrom(t, sep, "")
    decreases |w|
  {
    var s := w + [sep] + t;
    if |w| == 0 {
      assert acc + w == acc;
      assert s[0] == sep && s[1..] == t;
    } else {
      assert s[0] == w[0] && s[1..] == w[1..] + [sep] + t;
      assert w == [w[0]] + w[1..];
      HasCharAppend([w[0]], w[1..], sep);
      HasCharAppend(acc, [w[0]], sep);
      SplitAfterWord(w[1..], t, sep, acc + [w[0]]);
      assert acc + [w[0]] + w[1..] == acc + w;
    }
  }

  /** An occurrence of `needle` cannot span a character the needle does not hold. */
  lemma ContainsAround(s: string, p: int, needle: string)
    requires 0 <= p < |s| && !HasChar(needle, s[p])
    ensures Contains(s, needle) ==> Contains(s[..p], needle) || Contains(s[p + 1..], needle)
  {
    if Contains(s, needle) {
      var i :| 0 <= i <= |s| && OccursAt(s, needle, i);
      if i + |needle| <= p {
        assert s[..p][i..i + |needle|] == s[i..i + |needle|];
        assert OccursAt(s[..p], needle, i);
      } else if i > p {
        assert s[p + 1..][i - p - 1..i - p - 1 + |needle|] == s[i..i + |needle|];
        assert OccursAt(s[p + 1..], needle, i - p - 1);
      } else {
        assert false;
      }
    }
  }

  /** A needle longer than the text does not occur in it. */
  lemma TooShort(s: string, needle: string)
    requires |s| < |needle|
    ensures !Contains(s, needle)
  {}

  /** The part of `s` from the first non-space character. */
  function TrimStart(s: string): (r: string)
    ensures |r| <= |s| && r == s[|s| - |r|..]
    ensures |r| == 0 || !IsSpace(r[0])
    ensures AllSpace(s[..|s| - |r|])
  {
    if |s| == 0 || !IsSpace(s[0]) then s
    else
      var t := TrimStart(s[1..]);
      assert s[..|s| - |t|] == [s[0]] + s[1..][..|s| - 1 - |t|];
      t
  }

  /** The part of `s` up to the last non-space character. */
  function TrimEnd(s: string): (r: string)
    ensures |r| <= |s| && r == s[..|r|]
    ensures |r| == 0 || !IsSpace(r[|r| - 1])
    ensures AllSpace(s[|r|..])
  {
    if |s| == 0 || !IsSpace(s[|s| - 1]) then s
    else
      var t := TrimEnd(s[..|s| - 1]);
      assert s[|t|..] == s[..|s| - 1][|t|..] + [s[|s| - 1]];
      t
  }

  /** QString::trimmed: whitespace removed from both ends, so neither end of the result is whitespace. */
  function Trimmed(s: string): (r: string)
    ensures |r| == 0 || (!IsSpace(r[0]) && !IsSpace(r[|r| - 1]))
  {
    TrimEnd(TrimStart(s))
  }

  /** What `trimmed` leaves is the piece of the text that only whitespace stood before and after. */
  lemma TrimmedBetween(s: string)
    ensures Between(s, Trimmed(s))
  {
    TrimPieces(s, TrimStart(s), TrimEnd(TrimStart(s)));
  }

  /** `r` is a piece of `s` with only whitespace before and after it. */
  predicate Between(s: string, r: string) {
    exists i :: 0 <= i <= |s| - |r| && r == s[i..i + |r|] && AllSpace(s[..i]) && AllSpace(s[i + |r|..])
  }

  /** Cutting whitespace from the front, then from the back, leaves a piece of the text between whitespace. */
  lemma TrimPieces(s: string, t: string, r: string)
    requires |t| <= |s| && t == s[|s| - |t|..] && AllSpace(s[..|s| - |t|])
    requires |r| <= |t| && r == t[..|r|] && AllSpace(t[|r|..])
    ensures Between(s, r)
  {
    var i := |s| - |t|;
    assert s[i + |r|..] == t[|r|..];
    assert r == s[i..i + |r|];
  }

  /** Spaces before a word that neither starts nor ends with whitespace are all `trimmed` removes. */
  lemma {:induction false} TrimPadding(k: nat, s: string)
    requires |s| > 0 && !IsSpace(s[0]) && !IsSpace(s[|s| - 1])
    ensures Trimmed(Repeat(' ', k) + s) == s
  {
    TrimLeading(k, s);
  }

  lemma {:induction false} TrimLeading(k: nat, s: string)
    requires |s| > 0 && !IsSpace(s[0])
    ensures TrimStart(Repeat(' ', k) + s) == s
  {
    var x := Repeat(' ', k) + s;
    if k == 0 {
      assert x == s;
    } else {
      assert x[0] == ' ' && x[1..] == Repeat(' ', k - 1) + s;
      TrimLeading(k - 1, s);
    }
  }

  /** QString::toUpper, restricted to the ASCII letters. */
  function ToUpper(s: string): (r: string)
    ensures |r| == |s|
    ensures forall i :: 0 <= i < |s| ==> r[i] == UpperChar(s[i])
  {
    seq(|s|, i requires 0 <= i < |s| => UpperChar(s[i]))
  }

  function UpperChar(c: char): (r: char)
    ensures 'a' <= c <= 'z' ==> r as int == c as int - 32
    ensures !('a' <= c <= 'z') ==> r == c
  {
    if 'a' <= c <= 'z' then (c as int - 32) as char else c
  }

  function Repeat(c: char, n: nat): (r: string)
    ensures |r| == n && forall i :: 0 <= i < n ==> r[i] == c
  {
    seq(n, _ => c)
  }

  /** QString::rightJustified(width, fill) without truncation. */
  function RightJustified(s: string, width: nat, fill: char): (r: string)
    ensures |s| <= width ==> |r| == width
    ensures |s| > width ==> r == s
    ensures StartsWith(r, Repeat(fill, |r| - |s|)) && r[|r| - |s|..] == s
  {
    if |s| >= width then s else Repeat(fill, width - |s|) + s
  }

  predicate IsDigit(c: char) {
    '0' <= c <= '9'
  }

  predicate AllDigits(s: string) {
    forall i :: 0 <= i < |s| ==> IsDigit(s[i])
  }

  /** The value of a run of decimal digits. */
  function DigitsValue(s: string): (n: nat)
    requires AllDigits(s)
  {
    if |s| == 0 then 0
    else DigitsValue(s[..|s| - 1]) * 10 + (s[|s| - 1] as int - '0' as int)
  }

  function Pow10(n: nat): nat {
    if n == 0 then 1 else 10 * Pow10(n - 1)
  }

  /** `n` digits denote less than 10^n. */
  lemma {:induction false} DigitsBound(s: string)
    requires AllDigits(s)
    ensures DigitsValue(s) < Pow10(|s|)
  {
    if |s| > 0 {
      DigitsBound(s[..|s| - 1]);
    }
  }

  /** Decimal text of a natural number, no leading zeros ("0" for zero). */
  function Decimal(n: nat): (s: string)
    ensures |s| > 0 && AllDigits(s)
    ensures DigitsValue(s) == n
    ensures |s| > 1 ==> s[0] != '0'
  {
    var d := [('0' as int + n % 10) as char];
    if n < 10 then d
    else
      var p := Decimal(n / 10);
      assert (p + d)[..|p + d| - 1] == p;
      p + d
  }

  /** Appending a digit multiplies the value by ten and adds the digit. */
  lemma DigitsSnoc(s: string, c: char)
    requires AllDigits(s) && IsDigit(c)
    ensures AllDigits(s + [c]) && DigitsValue(s + [c]) == DigitsValue(s) * 10 + (c as int - '0' as int)
  {
    assert (s + [c])[..|s|] == s;
  }

  /** The decimal text of three billion, a size beyond the 32-bit range. */
  lemma ThreeBillion()
    ensures AllDigits("3000000000") && DigitsValue("3000000000") == 3_000_000_000
  {
    assert DigitsValue("3") == 3;
    DigitsSnoc("3", '0');
    assert "3" + ['0'] == "30";
    DigitsSnoc("30", '0');
    assert "30" + ['0'] == "300";
    DigitsSnoc("300", '0');
    assert "300" + ['0'] == "3000";
    DigitsSnoc("3000", '0');
    assert "3000" + ['0'] == "30000";
    DigitsSnoc("30000", '0');
    assert "30000" + ['0'] == "300000";
    DigitsSnoc("300000", '0');
    assert "300000" + ['0'] == "3000000";
    DigitsSnoc("3000000", '0');
    assert "3000000" + ['0'] == "30000000";
    DigitsSnoc("30000000", '0');
    assert "30000000" + ['0'] == "300000000";
    DigitsSnoc("300000000", '0');
    assert "300000000" + ['0'] == "3000000000";
  }

  /** Decimal text of a signed integer, as QString::number and a table cell print it. */
  function SignedDecimal(n: int): string {
    if n < 0 then "-" + Decimal(-n) else Decimal(n)
  }

  /** Signed value of a sign-and-digits text, or None when the text is not one. */
  function SignedValue(s: string): (r: Option<int>)
    ensures AllDigits(s) && |s| > 0 ==> r == Some(DigitsValue(s))
  {
    if |s| > 0 && s[0] == '-' && |s| > 1 && AllDigits(s[1..]) then Some(-(DigitsValue(s[1..]) as int))
    else if |s| > 0 && s[0] == '+' && |s| > 1 && AllDigits(s[1..]) then Some(DigitsValue(s[1..]))
    else if |s| > 0 && AllDigits(s) then Some(DigitsValue(s))
    else None
  }

  /** A run of digits has no whitespace to trim. */
  lemma DigitsTrimmed(s: string)
    ensures AllDigits(s) && |s| > 0 ==> Trimmed(s) == s && SignedValue(s) == Some(DigitsValue(s) as int)
  {
    if AllDigits(s) && |s| > 0 {
      assert !IsSpace(s[0]) && !IsSpace(s[|s| - 1]);
      assert TrimStart(s) == s;
    }
  }

  /** The two integer conversions the core uses: QString::toInt and QString::toLongLong. */
  datatype IntWidth = Int32 | Int64

  /** 2^31 or 2^63: the magnitude bound of the signed range. */
  function SignedLimit(w: IntWidth): nat {
    match w
    case Int32 => 0x8000_0000
    case Int64 => 0x8000_0000_0000_0000
  }

  /**
   * QString::toInt / QString::toLongLong in base 10: the value when the
   * (trimmed) text is a signed decimal inside the signed range, otherwise 0,
   * the conversion-failed result.
   */
  function ParseSigned(s: string, w: IntWidth): (r: int)
    ensures -(SignedLimit(w) as int) <= r < SignedLimit(w)
    ensures AllDigits(s) && |s| > 0 ==>
      r == (if DigitsValue(s) < SignedLimit(w) then DigitsValue(s) else 0)
  {
    if AllDigits(s) && |s| > 0 then ParseDigits(s, w); InRange(SignedValue(Trimmed(s)), w)
    else InRange(SignedValue(Trimmed(s)), w)
  }

  /** A run of digits has nothing to trim, so it converts to its value when that fits and to 0 otherwise. */
  lemma ParseDigits(s: string, w: IntWidth)
    requires AllDigits(s) && |s| > 0
    ensures InRange(SignedValue(Trimmed(s)), w) == (if DigitsValue(s) < SignedLimit(w) then DigitsValue(s) else 0)
  {
    calc {
      InRange(SignedValue(Trimmed(s)), w);
      { DigitsTrimmed(s); }
      InRange(Some(DigitsValue(s) as int), w);
      { InRangeNat(DigitsValue(s) as int, w); }
      if DigitsValue(s) < SignedLimit(w) then DigitsValue(s) else 0;
    }
  }

  lemma InRangeNat(v: int, w: IntWidth)
    requires 0 <= v
    ensures InRange(Some(v), w) == (if v < SignedLimit(w) then v else 0)
  {}

  /** A text without whitespace at its ends that is no signed number converts to 0. */
  lemma NotNumberIsZero(s: string, w: IntWidth)
    requires |s| > 0 && !IsSpace(s[0]) && !IsSpace(s[|s| - 1]) && SignedValue(s) == None
    ensures ParseSigned(s, w) == 0
  {
    TrimPadding(0, s);
    assert Repeat(' ', 0) + s == s;
  }

  /** The value when there is one and it fits the signed range, otherwise 0. */
  function InRange(v: Option<int>, w: IntWidth): (r: int)
    ensures -(SignedLimit(w) as int) <= r < SignedLimit(w)
    ensures v.Some? && -(SignedLimit(w) as int) <= v.value < SignedLimit(w) ==> r == v.value
    ensures v.None? || !(-(SignedLimit(w) as int) <= v.value < SignedLimit(w)) ==> r == 0
  {
    match v
    case Some(n) => if -(SignedLimit(w) as int) <= n < SignedLimit(w) then n else 0
    case None => 0
  }

  datatype Option<+T> = None | Some(value: T)
}
