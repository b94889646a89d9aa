/**
 * The SFV manifest reader of HashProject::openFile: each line is a comment,
 * an algorithm metadata line, a size comment or a data line, and the files
 * come out in the order their names first appear.
 */
module Manifest {
  import opened Strings
  import opened Project
  import Lines

  /**
   * The two choices where the program as written misbehaves: the width of
   * the integer the size field is parsed into, and whether a line without
   * any token is skipped (otherwise the reader takes the first element of an
   * empty list, which has no defined outcome).
   */
  datatype Dialect = Dialect(width: IntWidth, skipBlank: bool)

  /** The reader as the program is written: `toInt` and no blank-line check. */
  const AsWritten: Dialect := Dialect(Int32, false)

  /** The reader as evidently intended: 64-bit sizes, blank lines ignored. */
  const Corrected: Dialect := Dialect(Int64, true)

  /** The line holds a `;` and only whitespace precedes the first one. */
  predicate IsComment(line: string) {
    var semicolon := IndexOfChar(line, ';');
    semicolon != -1 && AllSpace(line[..semicolon])
  }

  /** A comment is exactly a line with some `;` preceded by nothing but whitespace. */
  lemma CommentIff(line: string)
    ensures IsComment(line) <==> exists i :: 0 <= i < |line| && line[i] == ';' && AllSpace(line[..i])
  {
    var f := IndexOfChar(line, ';');
    if i :| 0 <= i < |line| && line[i] == ';' && AllSpace(line[..i]) {
      assert HasChar(line, ';');
      assert forall j :: 0 <= j < f ==> line[..f][j] == line[..i][j];
    }
  }

  /** What one line contributes. */
  datatype Parsed =
    | Setting(algorithm: string)
    | Entry(comment: bool, name: string, size: Option<int>, hash: string)
    | NoName

  /** The text after the first `"` up to the last one, when there are two or more. */
  function QuotedName(s: string): (r: Option<string>)
    ensures r.Some? <==> CountChar(s, '"') > 1
    ensures r.Some? ==>
      exists f, l ::
        && 0 <= f < l < |s| && s[f] == '"' && s[l] == '"'
        && !HasChar(s[..f], '"') && !HasChar(s[l + 1..], '"') && r.value == s[f + 1..l]
  {
    if CountChar(s, '"') > 1 then
      TwoOccurrences(s, '"');
      Some(s[IndexOfChar(s, '"') + 1..LastIndexOfChar(s, '"')])
    else None
  }

  /** Two quoted names on one line give the text from the first quote to the last, not the first name. */
  lemma QuotedOutermost()
    ensures QuotedName("\"a\" \"b\"") == Some("a\" \"b")
  {
    var s := "\"a\" \"b\"";
    assert s == "\"a" + "\" \"b\"";
    assert CountChar("\"a", '"') == 1 by { assert "\"a"[1..] == "a"; assert "a"[1..] == ""; }
    CountCharAppend("\"a", "\" \"b\"", '"');
    assert IndexOfChar(s, '"') == 0;
    assert LastIndexOfChar(s, '"') == 6;
    assert s[1..6] == "a\" \"b";
  }

  /** The line with the quoted text cut out, its two quotes kept. */
  function Unquoted(s: string): (r: string)
    ensures CountChar(s, '"') <= 1 ==> r == s
  {
    if CountChar(s, '"') > 1 then
      TwoOccurrences(s, '"');
      s[..IndexOfChar(s, '"') + 1] + s[LastIndexOfChar(s, '"')..]
    else s
  }

  /**
   * One line of the reading loop: metadata sets the algorithm; otherwise a
   * comment longer than 36 characters yields a size from characters 1-13 and
   * is cut to its part from column 36, and the rest is read for a name.
   */
  function ParseLine(width: IntWidth, line: string): Parsed
  {
    var comment := IsComment(line);
    var keyAt := IndexOf(line, AlgorithmKey);
    if comment && keyAt != -1 then Setting(line[keyAt + |AlgorithmKey|..])
    else if comment && |line| > NameColumn then Named(true, Some(ParseSigned(Trimmed(line[1..14]), width)), line[NameColumn..])
    else Named(comment, None, line)
  }

  /**
   * The name part of a line: the quoted text or else the first
   * space-separated token of the line with its quoted text cut out, and the
   * last token as the hash when there are two or more.
   */
  function Named(comment: bool, size: Option<int>, rest: string): (p: Parsed)
    ensures p.NoName? || (p.Entry? && p.comment == comment && p.size == size)
  {
    var tokens := SplitSkipEmpty(Unquoted(rest), ' ');
    if |tokens| == 0 then NoName
    else
      var name := match QuotedName(rest) case Some(q) => q case None => tokens[0];
      Entry(comment, name, size, if |tokens| > 1 then tokens[|tokens| - 1] else "")
  }

  /**
   * A line is metadata exactly when it is a comment holding the key; the
   * algorithm is then everything after the key's first occurrence.
   */
  lemma SettingIff(width: IntWidth, line: string)
    ensures var p := ParseLine(width, line);
      && (p.Setting? <==> IsComment(line) && Contains(line, AlgorithmKey))
      && (p.Setting? ==>
        var k := |line| - |p.algorithm| - |AlgorithmKey|;
        OccursAt(line, AlgorithmKey, k) && forall j :: 0 <= j < k ==> !OccursAt(line, AlgorithmKey, j))
  {}

  /** Any other line records whether it is a comment, and has a size exactly when it is a comment longer than 36. */
  lemma EntryShape(width: IntWidth, line: string)
    ensures var p := ParseLine(width, line);
      p.Entry? ==> p.comment == IsComment(line) && (p.size.Some? <==> IsComment(line) && |line| > NameColumn)
  {
    var comment := IsComment(line);
    if !(comment && IndexOf(line, AlgorithmKey) != -1) {
      if comment && |line| > NameColumn {
        var size := Some(ParseSigned(Trimmed(line[1..14]), width));
        assert ParseLine(width, line) == Named(true, size, line[NameColumn..]);
      } else {
        assert ParseLine(width, line) == Named(comment, None, line);
      }
    }
  }

  /** A line made of spaces alone (or nothing) has no token and no name. */
  lemma BlankHasNoName(width: IntWidth, line: string)
    requires forall i :: 0 <= i < |line| ==> line[i] == ' '
    ensures ParseLine(width, line) == NoName
  {
    assert !HasChar(line, ';');
    CountCharAbsent(line, '"');
    SplitSpaces(line, "");
  }

  lemma {:induction false} SplitSpaces(s: string, acc: string)
    requires forall i :: 0 <= i < |s| ==> s[i] == ' '
    requires |acc| == 0
    ensures SplitFrom(s, ' ', acc) == []
  {
    if |s| > 0 {
      SplitSpaces(s[1..], "");
    }
  }

  /** What the reader keeps per name: whether a data line named it, and its fields. */
  datatype Slot = Slot(named: bool, filesize: Option<int>, hash: string, algorithm: string)

  /** The reader's state: the current algorithm, names in first-seen order, their slots. */
  datatype Scan = Scan(algorithm: string, order: seq<string>, slots: map<string, Slot>)

  /** Every name once in `order`, and `order` and the slots' names agree. */
  ghost predicate WellFormed(s: Scan) {
    && (forall i, j :: 0 <= i < j < |s.order| ==> s.order[i] != s.order[j])
    && (forall n :: n in s.slots <==> n in s.order)
  }

  const Start: Scan := Scan(DefaultAlgorithm, [], map[])

  const Fresh: Slot := Slot(false, None, "", "")

  /**
   * One name line: a new name joins the end of the order; a size, when the
   * line has one, replaces the slot's size; a data line (not a comment)
   * sets the name flag, the hash and the current algorithm, keeping the size.
   */
  function Record(s: Scan, comment: bool, name: string, size: Option<int>, hash: string): (r: Scan)
    ensures r.algorithm == s.algorithm
    ensures r.order == if name in s.slots then s.order else s.order + [name]
    ensures name in r.slots
    ensures var prior := if name in s.slots then s.slots[name] else Fresh;
      && r.slots[name].filesize == (if size.Some? then size else prior.filesize)
      && r.slots[name].named == (prior.named || !comment)
      && (comment ==> r.slots[name].hash == prior.hash && r.slots[name].algorithm == prior.algorithm)
      && (!comment ==> r.slots[name].hash == hash && r.slots[name].algorithm == s.algorithm)
  {
    var prior := if name in s.slots then s.slots[name] else Fresh;
    var sized := if size.Some? then prior.(filesize := size) else prior;
    var filled := if comment then sized else sized.(named := true, hash := hash, algorithm := s.algorithm);
    Scan(s.algorithm, if name in s.slots then s.order else s.order + [name], s.slots[name := filled])
  }

  /** Recording a line leaves every other name's slot alone and keeps the scan well formed. */
  lemma RecordKeeps(s: Scan, comment: bool, name: string, size: Option<int>, hash: string)
    requires WellFormed(s)
    ensures var r := Record(s, comment, name, size, hash);
      && WellFormed(r)
      && forall n :: n != name && n in s.slots ==> n in r.slots && r.slots[n] == s.slots[n]
  {}

  datatype Result<T> = Failure(line: nat) | Success(value: T)

  /** `f` applied to every element. */
  function Map<A, B>(f: A -> B, xs: seq<A>): (ys: seq<B>)
    ensures |ys| == |xs| && forall i :: 0 <= i < |xs| ==> ys[i] == f(xs[i])
  {
    if |xs| == 0 then [] else [f(xs[0])] + Map(f, xs[1..])
  }

  lemma MapAppend<A, B>(f: A -> B, a: seq<A>, b: seq<A>)
    ensures Map(f, a + b) == Map(f, a) + Map(f, b)
  {}

  /** Each line parsed on its own: the loop body does not depend on earlier lines. */
  function ParseAll(width: IntWidth, lines: seq<string>): (ps: seq<Parsed>)
    ensures |ps| == |lines|
  {
    Map((line: string) => ParseLine(width, line), lines)
  }

  /** One parsed line applied to the scan; `None` when the line has no name to record. */
  function Next(skipBlank: bool, p: Parsed, s: Scan): Option<Scan> {
    match p
    case Setting(a) => Some(s.(algorithm := a))
    case NoName => if skipBlank then Some(s) else None
    case Entry(c, n, z, h) => Some(Record(s, c, n, z, h))
  }

  /** The reading loop over parsed lines, the first of which is line `at` of the file. */
  function Apply(skipBlank: bool, ps: seq<Parsed>, s: Scan, at: nat): (r: Result<Scan>)
    ensures r.Failure? ==> !skipBlank && at <= r.line < at + |ps| && ps[r.line - at].NoName?
    decreases |ps|
  {
    if |ps| == 0 then Success(s)
    else
      match Next(skipBlank, ps[0], s)
      case None => Failure(at)
      case Some(t) => Apply(skipBlank, ps[1..], t, at + 1)
  }

  lemma {:induction false} ApplyWellFormed(skipBlank: bool, ps: seq<Parsed>, s: Scan, at: nat)
    requires WellFormed(s)
    ensures var r := Apply(skipBlank, ps, s, at); r.Success? ==> WellFormed(r.value)
    decreases |ps|
  {
    if |ps| > 0 {
      var t := Next(skipBlank, ps[0], s);
      if t.Some? {
        if ps[0].Entry? {
          RecordKeeps(s, ps[0].comment, ps[0].name, ps[0].size, ps[0].hash);
        }
        ApplyWellFormed(skipBlank, ps[1..], t.value, at + 1);
      }
    }
  }

  /** Reading `a + b` is reading `a`, then `b` from where `a` left off. */
  lemma {:induction false} ApplyAppend(skipBlank: bool, a: seq<Parsed>, b: seq<Parsed>, s: Scan, at: nat)
    ensures Apply(skipBlank, a + b, s, at) ==
      match Apply(skipBlank, a, s, at)
      case Failure(k) => Failure(k)
      case Success(t) => Apply(skipBlank, b, t, at + |a|)
    decreases |a|
  {
    if |a| == 0 {
      assert a + b == b;
    } else {
      assert (a + b)[0] == a[0] && (a + b)[1..] == a[1..] + b;
      var t := Next(skipBlank, a[0], s);
      if t.Some? {
        ApplyAppend(skipBlank, a[1..], b, t.value, at + 1);
      }
    }
  }


  lemma ParseAllAppend(width: IntWidth, a: seq<string>, b: seq<string>)
    ensures ParseAll(width, a + b) == ParseAll(width, a) + ParseAll(width, b)
  {
    MapAppend((line: string) => ParseLine(width, line), a, b);
  }

  /** The files of a scan: the named slots, in first-seen order. */
  function Files(order: seq<string>, slots: map<string, Slot>): (fs: seq<File>)
    ensures |fs| <= |order|
  {
    if |order| == 0 then []
    else
      var n := order[|order| - 1];
      var earlier := Files(order[..|order| - 1], slots);
      if n in slots && slots[n].named then
        var slot := slots[n];
        earlier + [File("", n, slot.filesize, slot.hash, slot.algorithm)]
      else earlier
  }

  /** The files are exactly the named slots the order lists. */
  lemma {:induction false} FilesNamed(order: seq<string>, slots: map<string, Slot>)
    ensures forall i :: 0 <= i < |Files(order, slots)| ==>
      Files(order, slots)[i].filename in order && Files(order, slots)[i].filename in slots && slots[Files(order, slots)[i].filename].named
    ensures forall m :: m in order && m in slots && slots[m].named ==>
      exists i :: 0 <= i < |Files(order, slots)| && Files(order, slots)[i].filename == m
  {
    if |order| > 0 {
      var n := order[|order| - 1];
      var front := order[..|order| - 1];
      FilesNamed(front, slots);
      var earlier := Files(front, slots);
      var fs := Files(order, slots);
      assert forall m :: m in order ==> m in front || m == n;
      assert forall m :: m in front ==> m in order;
      if n in slots && slots[n].named {
        assert fs == earlier + [File("", n, slots[n].filesize, slots[n].hash, slots[n].algorithm)];
        assert fs[|earlier|].filename == n;
        assert forall i :: 0 <= i < |earlier| ==> fs[i] == earlier[i];
        forall i | 0 <= i < |fs|
          ensures fs[i].filename in order && fs[i].filename in slots && slots[fs[i].filename].named
        {
          if i < |earlier| {
            assert fs[i] == earlier[i];
            assert earlier[i].filename in front;
          } else {
            assert fs[i].filename == n && n == order[|order| - 1];
          }
        }
        forall m | m in order && m in slots && slots[m].named
          ensures exists i :: 0 <= i < |Files(order, slots)| && Files(order, slots)[i].filename == m
        {
          if m != n {
            var j :| 0 <= j < |earlier| && earlier[j].filename == m;
            assert fs[j].filename == m;
          } else {
            assert fs[|earlier|].filename == m;
          }
        }
      } else {
        assert fs == earlier;
        forall m | m in order && m in slots && slots[m].named
          ensures exists i :: 0 <= i < |Files(order, slots)| && Files(order, slots)[i].filename == m
        {
          assert m in front;
        }
      }
    }
  }

  /** No file name occurs twice. */
  predicate Distinct(fs: seq<File>) {
    forall i, j :: 0 <= i < j < |fs| ==> fs[i].filename != fs[j].filename
  }

  /** Files of a name list without repetitions come out without repetitions. */
  lemma {:induction false} FilesDistinct(order: seq<string>, slots: map<string, Slot>)
    requires forall i, j :: 0 <= i < j < |order| ==> order[i] != order[j]
    ensures Distinct(Files(order, slots))
  {
    if |order| > 0 {
      var n := order[|order| - 1];
      var front := order[..|order| - 1];
      FilesDistinct(front, slots);
      FilesNamed(front, slots);
      var earlier := Files(front, slots);
      var fs := Files(order, slots);
      assert n !in front;
      if n in slots && slots[n].named {
        assert fs == earlier + [File("", n, slots[n].filesize, slots[n].hash, slots[n].algorithm)];
        forall i, j | 0 <= i < j < |fs| ensures fs[i].filename != fs[j].filename {
          assert fs[i] == earlier[i];
          if j < |earlier| {
            assert fs[j] == earlier[j];
          } else {
            assert earlier[i].filename in front;
          }
        }
      } else {
        assert fs == earlier;
      }
    }
  }

  /**
   * `openFile`'s reading: the files, each with the size, hash and algorithm
   * its lines gave it, or the first line whose missing name leaves the
   * outcome undefined.
   */
  function Read(d: Dialect, lines: seq<string>): (r: Result<seq<File>>)
    ensures r.Success? ==> Distinct(r.value)
    ensures r.Failure? ==> !d.skipBlank && r.line < |lines|
  {
    match Apply(d.skipBlank, ParseAll(d.width, lines), Start, 0)
    case Failure(k) => Failure(k)
    case Success(s) =>
      ApplyWellFormed(d.skipBlank, ParseAll(d.width, lines), Start, 0);
      FilesDistinct(s.order, s.slots);
      Success(Files(s.order, s.slots))
  }

  /** `openFile` over the manifest's text: readLine until the stream ends, then the lines in turn. */
  function ReadFile(d: Dialect, text: string): (r: Result<seq<File>>)
    ensures r.Success? ==> Distinct(r.value)
    ensures r.Failure? ==> !d.skipBlank
  {
    Read(d, Lines.ReadLines(text))
  }

  /** The reader fails only at a line that yields no name. */
  lemma FailureHasNoName(d: Dialect, lines: seq<string>)
    ensures var r := Read(d, lines); r.Failure? ==> ParseLine(d.width, lines[r.line]).NoName?
  {
    var r := Read(d, lines);
    if r.Failure? {
      assert ParseAll(d.width, lines)[r.line] == ParseLine(d.width, lines[r.line]);
    }
  }

  /** The dialect that skips blank lines never fails. */
  lemma CorrectedNeverFails(lines: seq<string>)
    ensures Read(Corrected, lines).Success?
  {}

  /** A line of spaces stops the reader as written: the name it asks for does not exist. */
  lemma BlankLineUndefined(lines: seq<string>, blank: string)
    requires forall i :: 0 <= i < |blank| ==> blank[i] == ' '
    ensures Read(AsWritten, lines + [blank]).Failure?
  {
    ParseAllAppend(Int32, lines, [blank]);
    ApplyAppend(false, ParseAll(Int32, lines), ParseAll(Int32, [blank]), Start, 0);
    BlankHasNoName(Int32, blank);
    assert ParseAll(Int32, [blank]) == [NoName];
  }

  /** Without failures the line numbers play no part. */
  lemma {:induction false} SkippingIgnoresNumbers(ps: seq<Parsed>, s: Scan, at1: nat, at2: nat)
    ensures Apply(true, ps, s, at1) == Apply(true, ps, s, at2)
    decreases |ps|
  {
    if |ps| > 0 {
      var t := Next(true, ps[0], s);
      SkippingIgnoresNumbers(ps[1..], t.value, at1 + 1, at2 + 1);
    }
  }

  /** With blank lines skipped, a line without a name changes nothing. */
  lemma SkipNoName(a: seq<Parsed>, b: seq<Parsed>, s: Scan)
    ensures Apply(true, a + [NoName] + b, s, 0) == Apply(true, a + b, s, 0)
  {
    ApplyAppend(true, a + [NoName], b, s, 0);
    ApplyAppend(true, a, [NoName], s, 0);
    ApplyAppend(true, a, b, s, 0);
    var t := Apply(true, a, s, 0).value;
    assert [NoName][1..] == [];
    assert Apply(true, [NoName], t, |a|) == Success(t);
    SkippingIgnoresNumbers(b, t, |a| + 1, |a|);
  }

  /** The corrected reader passes over a line of spaces wherever it stands. */
  lemma BlankLineSkipped(before: seq<string>, blank: string, after: seq<string>)
    requires forall i :: 0 <= i < |blank| ==> blank[i] == ' '
    ensures Read(Corrected, before + [blank] + after) == Read(Corrected, before + after)
  {
    ParseAllAppend(Int64, before + [blank], after);
    ParseAllAppend(Int64, before, [blank]);
    ParseAllAppend(Int64, before, after);
    BlankHasNoName(Int64, blank);
    assert ParseAll(Int64, [blank]) == [NoName];
    SkipNoName(ParseAll(Int64, before), ParseAll(Int64, after), Start);
  }

  /** A metadata line sets the algorithm every later data line is recorded with. */
  lemma SettingApplies(skipBlank: bool, a: string, name: string, size: Option<int>, hash: string, s: Scan, at: nat)
    ensures var r := Apply(skipBlank, [Setting(a), Entry(false, name, size, hash)], s, at);
      r.Success? && name in r.value.slots && r.value.slots[name].algorithm == a
  {
    var ps := [Setting(a), Entry(false, name, size, hash)];
    var t := Record(s.(algorithm := a), false, name, size, hash);
    assert ps[1..] == [Entry(false, name, size, hash)] && ps[1..][1..] == [];
    assert Apply(skipBlank, ps[1..][1..], t, at + 2) == Success(t);
  }

  /**
   * A size comment followed by a data line for the same name: the data line
   * names the file and sets hash and algorithm, the comment's size survives.
   */
  lemma SizeSurvivesData(s: Scan, name: string, size: int, hash: string)
    ensures var r := Record(Record(s, true, name, Some(size), ""), false, name, None, hash);
      r.slots[name] == Slot(true, Some(size), hash, s.algorithm)
  {}

  /** A later data line for a name overwrites its hash and algorithm and keeps its place. */
  lemma LaterDataOverwrites(s: Scan, name: string, h1: string, h2: string, a2: string)
    ensures var r1 := Record(s, false, name, None, h1);
      var r2 := Record(r1.(algorithm := a2), false, name, None, h2);
      r2.order == r1.order && r2.slots[name].hash == h2 && r2.slots[name].algorithm == a2
  {}
}
