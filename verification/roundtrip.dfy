/**
 * Reading back what the writer wrote: with the columns FileList has and the
 * corrected reader, every row comes back as a file with the written path as
 * its name and the row's size, hash and algorithm.
 */
module RoundTrip {
  import opened Strings
  import opened Project
  import opened Manifest
  import opened Writer
  import FileList
  import Lines

  lemma KeyChars()
    ensures |AlgorithmKey| == 28 && !HasChar(AlgorithmKey, ' ') && !HasChar(AlgorithmKey, '"')
  {}

  /** A line that starts with `;` is a comment. */
  lemma CommentAtZero(line: string)
    requires |line| > 0 && line[0] == ';'
    ensures IsComment(line)
  {
    assert IndexOfChar(line, ';') == 0;
  }

  /** The three ways a line parses, each stated for any line. */
  lemma ParseSettingAt(w: IntWidth, line: string, k: int)
    requires IsComment(line) && 0 <= k && IndexOf(line, AlgorithmKey) == k
    ensures ParseLine(w, line) == Setting(line[k + |AlgorithmKey|..])
  {}

  lemma ParseSized(w: IntWidth, line: string)
    requires IsComment(line) && IndexOf(line, AlgorithmKey) == -1 && |line| > NameColumn
    ensures ParseLine(w, line) == Named(true, Some(ParseSigned(Trimmed(line[1..14]), w)), line[NameColumn..])
  {}

  lemma ParsePlain(w: IntWidth, line: string)
    requires IsComment(line) ==> IndexOf(line, AlgorithmKey) == -1 && |line| <= NameColumn
    ensures ParseLine(w, line) == Named(IsComment(line), None, line)
  {}

  /** A line that starts with neither `;` nor whitespace is no comment. */
  lemma NotComment(line: string)
    requires |line| > 0 && line[0] != ';' && !IsSpace(line[0])
    ensures !IsComment(line)
  {
    var f := IndexOfChar(line, ';');
    if f >= 0 {
      assert line[..f][0] == line[0];
    }
  }

  /** A word and a space-free remainder after one space split into the word and the remainder. */
  lemma WordTokens(word: string, tail: string)
    requires |word| > 0 && !HasChar(word, ' ')
    requires tail == "" || (tail[0] == ' ' && !HasChar(tail[1..], ' '))
    ensures SplitSkipEmpty(word + tail, ' ') == [word] + (if |tail| <= 1 then [] else [tail[1..]])
  {
    assert "" + word == word;
    if tail == "" {
      assert word + tail == word;
      SplitWord(word, ' ', "");
    } else {
      assert word + tail == word + [' '] + tail[1..];
      SplitAfterWord(word, tail[1..], ' ', "");
      SplitWord(tail[1..], ' ', "");
      assert "" + tail[1..] == tail[1..];
    }
  }

  /** What may follow a written path on its line: nothing, or one space and a hash. */
  predicate Remainder(tail: string) {
    tail == "" || (tail[0] == ' ' && !HasChar(tail[1..], ' ') && !HasChar(tail[1..], '"'))
  }

  /** The hash a remainder carries. */
  function HashOf(tail: string): string {
    if |tail| <= 1 then "" else tail[1..]
  }

  lemma RemainderHasNoQuote(tail: string)
    requires Remainder(tail)
    ensures !HasChar(tail, '"')
  {
    if tail != "" {
      assert tail == [tail[0]] + tail[1..];
      HasCharAppend([tail[0]], tail[1..], '"');
    }
  }

  /** A path without spaces is its own first token. */
  lemma NamedPlain(comment: bool, size: Option<int>, r: string, tail: string)
    requires |r| > 0 && !HasChar(r, '"') && !HasChar(r, ' ') && Remainder(tail)
    ensures Named(comment, size, r + tail) == Entry(comment, r, size, HashOf(tail))
  {
    RemainderHasNoQuote(tail);
    CountCharAbsent(r, '"');
    CountCharAbsent(tail, '"');
    CountCharAppend(r, tail, '"');
    WordTokens(r, tail);
  }

  /** Between the quotes of a quoted path there is no other quote. */
  lemma QuoteSpan(r: string, tail: string)
    requires !HasChar(r, '"') && !HasChar(tail, '"')
    ensures var rest := "\"" + r + "\"" + tail;
      QuotedName(rest) == Some(r) && Unquoted(rest) == "\"\"" + tail
  {
    var rest := "\"" + r + "\"" + tail;
    CountCharAbsent(r, '"');
    CountCharAbsent(tail, '"');
    CountCharAppend("\"" + r + "\"", tail, '"');
    CountCharAppend("\"" + r, "\"", '"');
    CountCharAppend("\"", r, '"');
    assert CountChar(rest, '"') == 2;
    assert rest[|r| + 2..] == tail;
    LastAt(rest, '"', |r| + 1);
    assert IndexOfChar(rest, '"') == 0;
    assert rest[1..|r| + 1] == r;
    assert rest[..1] + rest[|r| + 1..] == "\"\"" + tail;
  }

  /** A quoted path is the quoted name; its emptied quotes are the first token. */
  lemma NamedQuoted(comment: bool, size: Option<int>, r: string, tail: string)
    requires !HasChar(r, '"') && Remainder(tail)
    ensures Named(comment, size, "\"" + r + "\"" + tail) == Entry(comment, r, size, HashOf(tail))
  {
    RemainderHasNoQuote(tail);
    QuoteSpan(r, tail);
    assert !HasChar("\"\"", ' ');
    WordTokens("\"\"", tail);
  }

  /** The name and the hash the reader takes from a written path and what follows it. */
  lemma NamedPath(comment: bool, size: Option<int>, r: string, tail: string)
    requires |r| > 0 && !HasChar(r, '"') && Remainder(tail)
    ensures Named(comment, size, Quote(r) + tail) == Entry(comment, r, size, HashOf(tail))
  {
    if HasChar(r, ' ') {
      NamedQuoted(comment, size, r, tail);
    } else {
      NamedPlain(comment, size, r, tail);
    }
  }

  /** A quoted path holds the key only where the path itself does. */
  lemma NoKeyInQuote(r: string)
    requires !Contains(r, AlgorithmKey)
    ensures !Contains(Quote(r), AlgorithmKey)
  {
    if HasChar(r, ' ') {
      var q := Quote(r);
      KeyChars();
      ContainsAround(q, 0, AlgorithmKey);
      TooShort(q[..0], AlgorithmKey);
      assert q[1..][..|r|] == r;
      ContainsAround(q[1..], |r|, AlgorithmKey);
      TooShort(q[1..][|r| + 1..], AlgorithmKey);
    }
  }

  /** The spaces of the size field keep the key out of a size comment for a key-free path. */
  lemma NoKeyInSizeLine(line: string, size: string, r: string)
    requires |size| <= 12 && !Contains(r, AlgorithmKey) && SizeShaped(line, size, Quote(r))
    ensures !Contains(line, AlgorithmKey)
  {
    KeyChars();
    ContainsAround(line, 35, AlgorithmKey);
    ContainsAround(line[..35], 14, AlgorithmKey);
    TooShort(line[..35][..14], AlgorithmKey);
    TooShort(line[..35][15..], AlgorithmKey);
    NoKeyInQuote(r);
  }

  /** A rule line is a comment naming ";". */
  lemma ReadRule(w: IntWidth)
    ensures ParseLine(w, Rule) == Entry(true, ";", None, "---------------")
  {
    var tail := " ---------------";
    assert Rule == ";" + tail;
    assert forall i :: 0 <= i < 15 ==> tail[1..][i] == '-';
    ReadShortComment(w, tail);
  }

  /** A comment line `;` plus a short remainder names ";" with the remainder's hash. */
  lemma ReadShortComment(w: IntWidth, tail: string)
    requires Remainder(tail) && |tail| < 27
    ensures ParseLine(w, ";" + tail) == Entry(true, ";", None, HashOf(tail))
  {
    var line := ";" + tail;
    CommentAtZero(line);
    KeyChars();
    TooShort(line, AlgorithmKey);
    ParsePlain(w, line);
    NamedPlain(true, None, ";", tail);
  }

  /** An algorithm line sets exactly the algorithm written into it. */
  lemma ReadSetting(w: IntWidth, a: string)
    ensures ParseLine(w, SettingLine(a)) == Setting(a)
  {
    var line := SettingLine(a);
    CommentAtZero(line);
    SettingKeyAt(a);
    ParseSettingAt(w, line, 2);
    assert line[30..] == a;
  }

  /** The key first occurs in an algorithm line right after "; ". */
  lemma SettingKeyAt(a: string)
    ensures IndexOf(SettingLine(a), AlgorithmKey) == 2
  {
    var line := SettingLine(a);
    KeyChars();
    assert line[2..30] == AlgorithmKey;
    assert OccursAt(line, AlgorithmKey, 2);
    assert line[0..28][0] == ';' && line[1..29][0] == ' ';
  }

  /** A size comment of a fitting size yields the path's name and the parsed size. */
  lemma ReadSize(w: IntWidth, size: string, r: string)
    requires 0 < |size| <= 12 && !IsSpace(size[0]) && !IsSpace(size[|size| - 1])
    requires |r| > 0 && !HasChar(r, '"') && !Contains(r, AlgorithmKey)
    ensures ParseLine(w, SizeLine(size, Quote(r))) == Entry(true, r, Some(ParseSigned(size, w)), "")
  {
    ReadShaped(w, SizeLine(size, Quote(r)), size, r);
  }

  /** The layout SizeLine promises for a size of at most 12 characters. */
  predicate SizeShaped(line: string, size: string, path: string) {
    && |size| <= 12 && |line| == NameColumn + |path| && line[0] == ';' && line[NameColumn..] == path
    && line[1..14] == Repeat(' ', 13 - |size|) + size
    && forall i :: 14 <= i < NameColumn ==> line[i] == ' '
  }

  /** A size field, the size right-justified with spaces, trims to the size. */
  lemma FieldTrims(field: string, size: string, pad: nat)
    requires |size| > 0 && !IsSpace(size[0]) && !IsSpace(size[|size| - 1])
    requires field == Repeat(' ', pad) + size
    ensures Trimmed(field) == size
  {
    TrimPadding(pad, size);
  }

  lemma ReadShaped(w: IntWidth, line: string, size: string, r: string)
    requires 0 < |size| <= 12 && !IsSpace(size[0]) && !IsSpace(size[|size| - 1])
    requires |r| > 0 && !HasChar(r, '"') && !Contains(r, AlgorithmKey)
    requires SizeShaped(line, size, Quote(r))
    ensures ParseLine(w, line) == Entry(true, r, Some(ParseSigned(size, w)), "")
  {
    FieldTrims(line[1..14], size, 13 - |size|);
    CommentAtZero(line);
    NoKeyInSizeLine(line, size, r);
    assert IndexOf(line, AlgorithmKey) == -1;
    ParseSized(w, line);
    NamedPath(true, Some(ParseSigned(size, w)), r, "");
    assert Quote(r) + "" == Quote(r);
  }

  /** A data line yields the path's name and the hash after it. */
  lemma ReadData(w: IntWidth, r: string, hash: string)
    requires |r| > 0 && !HasChar(r, '"') && !IsSpace(r[0]) && r[0] != ';'
    requires !HasChar(hash, ' ') && !HasChar(hash, '"')
    ensures ParseLine(w, Quote(r) + " " + hash) == Entry(false, r, None, hash)
  {
    var tail := " " + hash;
    var line := Quote(r) + tail;
    assert line == Quote(r) + " " + hash;
    assert line[0] == (if HasChar(r, ' ') then '"' else r[0]);
    NotComment(line);
    assert tail[1..] == hash;
    NamedPath(false, None, r, tail);
  }

  /** Applying a line that names something moves on with the scan that line makes. */
  lemma ApplyCons(skipBlank: bool, p: Parsed, ps: seq<Parsed>, s: Scan, at: nat)
    requires !p.NoName?
    ensures Apply(skipBlank, [p] + ps, s, at) == Apply(skipBlank, ps, Next(skipBlank, p, s).value, at + 1)
  {
    assert ([p] + ps)[0] == p && ([p] + ps)[1..] == ps;
  }

  lemma ApplySingle(skipBlank: bool, p: Parsed, s: Scan, at: nat)
    requires !p.NoName?
    ensures Apply(skipBlank, [p], s, at) == Success(Next(skipBlank, p, s).value)
  {
    ApplyCons(skipBlank, p, [], s, at);
    assert [p] + [] == [p];
  }

  /** Reading `a + b` after `a` has been read to `t` is reading `b` from `t`. */
  lemma ApplyThen(skipBlank: bool, a: seq<Parsed>, b: seq<Parsed>, s: Scan, t: Scan, at: nat)
    requires Apply(skipBlank, a, s, at) == Success(t)
    ensures Apply(skipBlank, a + b, s, at) == Apply(skipBlank, b, t, at + |a|)
  {
    ApplyAppend(skipBlank, a, b, s, at);
  }

  /** The parsed header: two rules naming ";" around the algorithm line. */
  function HeaderParsed(algorithm: string): seq<Parsed> {
    [Entry(true, ";", None, "---------------"), Setting(algorithm), Entry(true, ";", None, "---------------")]
  }

  lemma ParseHeader(width: IntWidth, algorithm: string)
    ensures ParseAll(width, Header(algorithm)) == HeaderParsed(algorithm)
  {
    ParseThree(width, Rule, SettingLine(algorithm), Rule);
    ReadRule(width);
    ReadSetting(width, algorithm);
  }

  /** Three lines parse one by one. */
  lemma ParseThree(width: IntWidth, a: string, b: string, c: string)
    ensures ParseAll(width, [a, b, c]) == [ParseLine(width, a), ParseLine(width, b), ParseLine(width, c)]
  {
    var ps := ParseAll(width, [a, b, c]);
    assert ps[0] == ParseLine(width, a) && ps[1] == ParseLine(width, b) && ps[2] == ParseLine(width, c);
  }

  /** The scan the header leaves: its algorithm, and ";" known but never named. */
  function HeaderScan(algorithm: string): Scan {
    Scan(algorithm, [";"], map[";" := Fresh])
  }

  lemma ApplyHeader(skipBlank: bool, algorithm: string)
    ensures Apply(skipBlank, HeaderParsed(algorithm), Start, 0) == Success(HeaderScan(algorithm))
  {
    var rule := Entry(true, ";", None, "---------------");
    assert HeaderParsed(algorithm) == [rule] + ([Setting(algorithm)] + [rule]);
    var s1 := Record(Start, true, ";", None, "---------------");
    assert s1 == Scan(DefaultAlgorithm, [";"], map[";" := Fresh]);
    ApplyCons(skipBlank, rule, [Setting(algorithm)] + [rule], Start, 0);
    ApplyCons(skipBlank, Setting(algorithm), [rule], s1, 1);
    ApplySingle(skipBlank, rule, s1.(algorithm := algorithm), 2);
    assert Record(s1.(algorithm := algorithm), true, ";", None, "---------------") == HeaderScan(algorithm);
  }

  /**
   * What the writer needs of a row and its written path to read them back:
   * a path without quotes that does not start like a comment or with
   * whitespace and does not hold the metadata key, a size of at most 12
   * digits (the width of the size field) or none, and a hash without spaces
   * or quotes; and no line break or carriage return in the path, the size,
   * the hash or the algorithm, which would split the written line in two.
   */
  predicate Savable(path: string, row: FileList.Row) {
    && |path| > 0 && !HasChar(path, '"') && !IsSpace(path[0]) && path[0] != ';'
    && !Contains(path, AlgorithmKey)
    && SizeField(row.size)
    && !HasChar(row.hash, ' ') && !HasChar(row.hash, '"')
    && Lines.OneLine(path) && Lines.OneLine(row.size) && Lines.OneLine(row.hash) && Lines.OneLine(row.algorithm)
  }

  /** No size, or a size text that fits the 12 columns of the size field and is not padded. */
  predicate SizeField(size: string) {
    size == "" || (0 < |size| <= 12 && !IsSpace(size[0]) && !IsSpace(size[|size| - 1]))
  }

  /** The path a row is written under, before quoting. */
  function PathOf(base: string, outpath: string, row: FileList.Row): string {
    Relative(outpath, base + row.name)
  }

  /** The written paths of the rows, in row order. */
  function Paths(base: string, outpath: string, rows: seq<FileList.Row>): (paths: seq<string>)
    ensures |paths| == |rows|
    decreases |rows|
  {
    if |rows| == 0 then [] else [PathOf(base, outpath, rows[0])] + Paths(base, outpath, rows[1..])
  }

  lemma {:induction false} PathsAt(base: string, outpath: string, rows: seq<FileList.Row>, i: int)
    requires 0 <= i < |rows|
    ensures Paths(base, outpath, rows)[i] == PathOf(base, outpath, rows[i])
    decreases |rows|
  {
    if i > 0 {
      PathsAt(base, outpath, rows[1..], i - 1);
    }
  }

  predicate Unique(paths: seq<string>) {
    forall i, j :: 0 <= i < j < |paths| ==> paths[i] != paths[j]
  }

  lemma UniqueTail(paths: seq<string>)
    requires |paths| > 0 && Unique(paths)
    ensures Unique(paths[1..])
    ensures forall i :: 0 <= i < |paths[1..]| ==> paths[1..][i] == paths[i + 1] && paths[i + 1] != paths[0]
  {}

  /** Every row savable under its written path, and no two rows written under the same path. */
  predicate AllSavable(base: string, outpath: string, rows: seq<FileList.Row>) {
    var paths := Paths(base, outpath, rows);
    (forall i :: 0 <= i < |rows| ==> Savable(paths[i], rows[i])) && Unique(paths)
  }

  /** The parsed lines of one row: algorithm line, size comment, data line. */
  function RowParsed(width: IntWidth, path: string, row: FileList.Row, current: string): seq<Parsed> {
    AlgorithmParsed(row.algorithm, current) + SizeParsed(width, row.size, path) + [Entry(false, path, None, row.hash)]
  }

  function AlgorithmLines(algorithm: string, current: string): seq<string> {
    if algorithm != current then [SettingLine(algorithm)] else []
  }

  function AlgorithmParsed(algorithm: string, current: string): seq<Parsed> {
    if algorithm != current then [Setting(algorithm)] else []
  }

  function SizeLines(size: string, path: string): seq<string> {
    if size != "" then [SizeLine(size, Quote(path))] else []
  }

  function SizeParsed(width: IntWidth, size: string, path: string): seq<Parsed> {
    if size != "" then [Entry(true, path, Some(ParseSigned(size, width)), "")] else []
  }

  lemma ParseAlgorithmPart(width: IntWidth, algorithm: string, current: string)
    ensures ParseAll(width, AlgorithmLines(algorithm, current)) == AlgorithmParsed(algorithm, current)
  {
    if algorithm != current {
      ReadSetting(width, algorithm);
    }
  }

  lemma ParseSizePart(width: IntWidth, size: string, path: string)
    requires SizeField(size)
    requires |path| > 0 && !HasChar(path, '"') && !Contains(path, AlgorithmKey)
    ensures ParseAll(width, SizeLines(size, path)) == SizeParsed(width, size, path)
  {
    if size != "" {
      ReadSize(width, size, path);
    }
  }

  lemma ParseDataPart(width: IntWidth, path: string, hash: string)
    requires |path| > 0 && !HasChar(path, '"') && !IsSpace(path[0]) && path[0] != ';'
    requires !HasChar(hash, ' ') && !HasChar(hash, '"')
    ensures ParseAll(width, [Quote(path) + " " + hash]) == [Entry(false, path, None, hash)]
  {
    ReadData(width, path, hash);
  }

  /** A row's lines in the columns FileList has: the three parts, the row's algorithm current after them. */
  lemma RowLinesListed(base: string, outpath: string, row: FileList.Row, current: string)
    ensures var path := PathOf(base, outpath, row);
      RowLines(Listed, base, outpath, row, current) == (RowText(path, row, current), row.algorithm)
  {
    assert Text(row, Listed.name) == row.name;
    assert FileList.Cell(row, Listed.algorithm) == Some(row.algorithm);
    assert FileList.Cell(row, Listed.size) == Some(row.size);
    assert FileList.Cell(row, Listed.hash) == Some(row.hash);
    var path := PathOf(base, outpath, row);
    assert Quote(path) + (" " + row.hash) == Quote(path) + " " + row.hash;
  }

  /** The lines one row is saved as, under its written path. */
  function RowText(path: string, row: FileList.Row, current: string): seq<string> {
    AlgorithmLines(row.algorithm, current) + SizeLines(row.size, path) + [Quote(path) + " " + row.hash]
  }

  /** The concatenation of chunks, in order. */
  function Join<T>(chunks: seq<seq<T>>): seq<T>
    decreases |chunks|
  {
    if |chunks| == 0 then [] else chunks[0] + Join(chunks[1..])
  }

  lemma JoinCons<T>(chunk: seq<T>, chunks: seq<seq<T>>)
    ensures Join([chunk] + chunks) == chunk + Join(chunks)
  {
    assert ([chunk] + chunks)[0] == chunk && ([chunk] + chunks)[1..] == chunks;
  }

  /** Parsing line by line parses each chunk of lines on its own. */
  lemma {:induction false} ParseJoin(width: IntWidth, texts: seq<seq<string>>, parsed: seq<seq<Parsed>>)
    requires |texts| == |parsed| && forall i :: 0 <= i < |texts| ==> ParseAll(width, texts[i]) == parsed[i]
    ensures ParseAll(width, Join(texts)) == Join(parsed)
    decreases |texts|
  {
    if |texts| > 0 {
      assert forall i :: 0 <= i < |texts| - 1 ==> texts[1..][i] == texts[i + 1] && parsed[1..][i] == parsed[i + 1];
      ParseJoin(width, texts[1..], parsed[1..]);
      ParseAllAppend(width, texts[0], Join(texts[1..]));
    }
  }

  /** The algorithm current before row `i`: the one before the rows, then the previous row's. */
  function CurrentAt(rows: seq<FileList.Row>, current: string, i: nat): string
    requires i < |rows|
  {
    if i == 0 then current else rows[i - 1].algorithm
  }

  /** One chunk per row, each made from the row, its written path and the algorithm current before it. */
  function Chunks<T>(chunk: (string, FileList.Row, string) -> seq<T>, paths: seq<string>, rows: seq<FileList.Row>, current: string): (chunks: seq<seq<T>>)
    requires |paths| == |rows|
    ensures |chunks| == |rows|
    decreases |rows|
  {
    if |rows| == 0 then [] else [chunk(paths[0], rows[0], current)] + Chunks(chunk, paths[1..], rows[1..], rows[0].algorithm)
  }

  lemma {:induction false} ChunksAt<T>(chunk: (string, FileList.Row, string) -> seq<T>, paths: seq<string>, rows: seq<FileList.Row>, current: string, i: nat)
    requires |paths| == |rows| && i < |rows|
    ensures Chunks(chunk, paths, rows, current)[i] == chunk(paths[i], rows[i], CurrentAt(rows, current, i))
    decreases |rows|
  {
    if i > 0 {
      ChunksAt(chunk, paths[1..], rows[1..], rows[0].algorithm, i - 1);
    }
  }

  /** The saved rows, given their written paths. */
  function BodyText(paths: seq<string>, rows: seq<FileList.Row>, current: string): seq<string>
    requires |paths| == |rows|
  {
    Join(Chunks(RowText, paths, rows, current))
  }

  /** With FileList's columns the writer saves each row's three parts under its written path. */
  lemma {:induction false} BodyListed(base: string, outpath: string, rows: seq<FileList.Row>, current: string)
    ensures Body(Listed, base, outpath, rows, current) == BodyText(Paths(base, outpath, rows), rows, current)
    decreases |rows|
  {
    if |rows| > 0 {
      var paths := Paths(base, outpath, rows);
      assert paths[0] == PathOf(base, outpath, rows[0]) && paths[1..] == Paths(base, outpath, rows[1..]);
      RowLinesListed(base, outpath, rows[0], current);
      BodyListed(base, outpath, rows[1..], rows[0].algorithm);
      JoinCons(RowText(paths[0], rows[0], current), Chunks(RowText, paths[1..], rows[1..], rows[0].algorithm));
    }
  }

  lemma ParseRow(width: IntWidth, path: string, row: FileList.Row, current: string)
    requires Savable(path, row)
    ensures ParseAll(width, RowText(path, row, current)) == RowParsed(width, path, row, current)
  {
    var a := AlgorithmLines(row.algorithm, current);
    var z := SizeLines(row.size, path);
    ParseAllAppend(width, a + z, [Quote(path) + " " + row.hash]);
    ParseAllAppend(width, a, z);
    ParseAlgorithmPart(width, row.algorithm, current);
    ParseSizePart(width, row.size, path);
    ParseDataPart(width, path, row.hash);
  }

  /** The parsed lines of one row, as a chunk maker. */
  function ParsedChunk(width: IntWidth): (string, FileList.Row, string) -> seq<Parsed> {
    (path, row, before) => RowParsed(width, path, row, before)
  }

  /** The parsed lines of all rows, each under its path. */
  function BodyParsed(width: IntWidth, paths: seq<string>, rows: seq<FileList.Row>, current: string): seq<Parsed>
    requires |paths| == |rows|
  {
    Join(Chunks(ParsedChunk(width), paths, rows, current))
  }

  lemma ParseBody(width: IntWidth, paths: seq<string>, rows: seq<FileList.Row>, current: string)
    requires |paths| == |rows| && forall i :: 0 <= i < |rows| ==> Savable(paths[i], rows[i])
    ensures ParseAll(width, BodyText(paths, rows, current)) == BodyParsed(width, paths, rows, current)
  {
    var texts := Chunks(RowText, paths, rows, current);
    var parse := ParsedChunk(width);
    var parsed := Chunks(parse, paths, rows, current);
    assert BodyParsed(width, paths, rows, current) == Join(parsed);
    forall i | 0 <= i < |rows|
      ensures ParseAll(width, texts[i]) == parsed[i]
    {
      ChunksAt(RowText, paths, rows, current, i);
      ChunksAt(parse, paths, rows, current, i);
      ParseRow(width, paths[i], rows[i], CurrentAt(rows, current, i));
    }
    ParseJoin(width, texts, parsed);
  }

  /** The size a size comment gives back, None for a row without one. */
  function SizeOf(width: IntWidth, size: string): Option<int> {
    if size == "" then None else Some(ParseSigned(size, width))
  }

  /** The file a saved row reads back as. */
  function RowFile(width: IntWidth, path: string, row: FileList.Row): File {
    File("", path, SizeOf(width, row.size), row.hash, row.algorithm)
  }

  /** A file read into a scan: a named slot at the end of the order, its algorithm current. */
  function Enter(s: Scan, f: File): Scan {
    Scan(f.algorithm, s.order + [f.filename], s.slots[f.filename := Slot(true, f.filesize, f.hash, f.algorithm)])
  }

  lemma ApplyAlgorithmPart(skipBlank: bool, algorithm: string, current: string, s: Scan, at: nat)
    requires s.algorithm == current
    ensures Apply(skipBlank, AlgorithmParsed(algorithm, current), s, at) == Success(s.(algorithm := algorithm))
  {
    if algorithm != current {
      ApplySingle(skipBlank, Setting(algorithm), s, at);
    }
  }

  lemma ApplySizePart(skipBlank: bool, width: IntWidth, size: string, path: string, s: Scan, at: nat)
    ensures Apply(skipBlank, SizeParsed(width, size, path), s, at)
      == Success(if size != "" then Record(s, true, path, Some(ParseSigned(size, width)), "") else s)
  {
    if size != "" {
      ApplySingle(skipBlank, Entry(true, path, Some(ParseSigned(size, width)), ""), s, at);
    }
  }

  /** A size comment and then the data line for a new name enter the file. */
  lemma EnterSized(s: Scan, f: File)
    requires f.filename !in s.slots && f.filesize.Some?
    ensures Record(Record(s.(algorithm := f.algorithm), true, f.filename, f.filesize, ""), false, f.filename, None, f.hash) == Enter(s, f)
  {
    var n := f.filename;
    var sized := Slot(false, f.filesize, "", "");
    var slot := Slot(true, f.filesize, f.hash, f.algorithm);
    var s2 := Record(s.(algorithm := f.algorithm), true, n, f.filesize, "");
    assert s2 == Scan(f.algorithm, s.order + [n], s.slots[n := sized]);
    assert Record(s2, false, n, None, f.hash) == Scan(f.algorithm, s.order + [n], s.slots[n := sized][n := slot]);
    assert s.slots[n := sized][n := slot] == s.slots[n := slot];
  }

  /** The data line alone for a new name enters a file without a size. */
  lemma EnterUnsized(s: Scan, f: File)
    requires f.filename !in s.slots && f.filesize.None?
    ensures Record(s.(algorithm := f.algorithm), false, f.filename, None, f.hash) == Enter(s, f)
  {
    var n := f.filename;
    assert Record(s.(algorithm := f.algorithm), false, n, None, f.hash)
      == Scan(f.algorithm, s.order + [n], s.slots[n := Slot(true, None, f.hash, f.algorithm)]);
  }

  /** One row's lines, read after the rows before it, enter the row's file. */
  lemma ApplyRow(skipBlank: bool, width: IntWidth, path: string, row: FileList.Row, current: string, s: Scan, at: nat)
    requires s.algorithm == current && path !in s.slots
    ensures Apply(skipBlank, RowParsed(width, path, row, current), s, at) == Success(Enter(s, RowFile(width, path, row)))
  {
    var a := AlgorithmParsed(row.algorithm, current);
    var z := SizeParsed(width, row.size, path);
    var data := Entry(false, path, None, row.hash);
    var s1 := s.(algorithm := row.algorithm);
    var s2 := if row.size != "" then Record(s1, true, path, Some(ParseSigned(row.size, width)), "") else s1;
    ApplyAlgorithmPart(skipBlank, row.algorithm, current, s, at);
    ApplySizePart(skipBlank, width, row.size, path, s1, at + |a|);
    ApplyThen(skipBlank, a, z, s, s1, at);
    ApplySingle(skipBlank, data, s2, at + |a| + |z|);
    ApplyThen(skipBlank, a + z, [data], s, s2, at);
    if row.size != "" {
      EnterSized(s, RowFile(width, path, row));
    } else {
      EnterUnsized(s, RowFile(width, path, row));
    }
  }

  /** The scan after entering the files in order. */
  function Loaded(s: Scan, fs: seq<File>): Scan
    decreases |fs|
  {
    if |fs| == 0 then s else Loaded(Enter(s, fs[0]), fs[1..])
  }

  lemma LoadedCons(s: Scan, f: File, fs: seq<File>)
    ensures Loaded(s, [f] + fs) == Loaded(Enter(s, f), fs)
  {
    assert ([f] + fs)[0] == f && ([f] + fs)[1..] == fs;
  }

  /** One file per row, in row order, as the reader lists them. */
  function Reloaded(width: IntWidth, paths: seq<string>, rows: seq<FileList.Row>): (fs: seq<File>)
    requires |paths| == |rows|
    ensures |fs| == |rows|
    decreases |rows|
  {
    if |rows| == 0 then [] else [RowFile(width, paths[0], rows[0])] + Reloaded(width, paths[1..], rows[1..])
  }

  lemma {:induction false} ReloadedAt(width: IntWidth, paths: seq<string>, rows: seq<FileList.Row>, i: int)
    requires |paths| == |rows| && 0 <= i < |rows|
    ensures Reloaded(width, paths, rows)[i] == RowFile(width, paths[i], rows[i])
    decreases |rows|
  {
    if i > 0 {
      ReloadedAt(width, paths[1..], rows[1..], i - 1);
    }
  }

  lemma {:induction false} ApplyBody(skipBlank: bool, width: IntWidth, paths: seq<string>, rows: seq<FileList.Row>, current: string, s: Scan, at: nat)
    requires |paths| == |rows| && Unique(paths) && s.algorithm == current
    requires forall i :: 0 <= i < |paths| ==> paths[i] !in s.slots
    ensures Apply(skipBlank, BodyParsed(width, paths, rows, current), s, at) == Success(Loaded(s, Reloaded(width, paths, rows)))
    decreases |rows|
  {
    if |rows| == 0 {
      assert Chunks(ParsedChunk(width), paths, rows, current) == [];
      assert Apply(skipBlank, [], s, at) == Success(s);
    } else {
      var first := RowParsed(width, paths[0], rows[0], current);
      var rest := BodyParsed(width, paths[1..], rows[1..], rows[0].algorithm);
      var f := RowFile(width, paths[0], rows[0]);
      var t := Enter(s, f);
      var later := Reloaded(width, paths[1..], rows[1..]);
      calc {
        Apply(skipBlank, BodyParsed(width, paths, rows, current), s, at);
        { JoinCons(first, Chunks(ParsedChunk(width), paths[1..], rows[1..], rows[0].algorithm)); }
        Apply(skipBlank, first + rest, s, at);
        { ApplyRow(skipBlank, width, paths[0], rows[0], current, s, at);
          ApplyThen(skipBlank, first, rest, s, t, at); }
        Apply(skipBlank, rest, t, at + |first|);
        { UniqueTail(paths);
          ApplyBody(skipBlank, width, paths[1..], rows[1..], rows[0].algorithm, t, at + |first|); }
        Success(Loaded(t, later));
        { LoadedCons(s, f, later); }
        Success(Loaded(s, [f] + later));
        { assert Reloaded(width, paths, rows) == [f] + later; }
        Success(Loaded(s, Reloaded(width, paths, rows)));
      }
    }
  }

  /** A slot for a name the order does not hold leaves the files alone. */
  lemma {:induction false} FilesFrame(order: seq<string>, slots: map<string, Slot>, n: string, x: Slot)
    requires n !in order
    ensures Files(order, slots[n := x]) == Files(order, slots)
    decreases |order|
  {
    if |order| > 0 {
      assert order[|order| - 1] != n;
      FilesFrame(order[..|order| - 1], slots, n, x);
    }
  }

  /** Entering a file of a new name appends it to the files. */
  lemma FilesEnter(s: Scan, f: File)
    requires f.filename !in s.order && f.basepath == ""
    ensures var t := Enter(s, f);
      Files(t.order, t.slots) == Files(s.order, s.slots) + [f]
  {
    var t := Enter(s, f);
    assert t.order[..|t.order| - 1] == s.order;
    FilesFrame(s.order, s.slots, f.filename, t.slots[f.filename]);
  }

  lemma SplitFirst<T>(a: seq<T>, b: seq<T>)
    requires |b| > 0
    ensures (a + [b[0]]) + b[1..] == a + b
  {
    assert b == [b[0]] + b[1..];
  }

  /** Files of new, distinct names without a base path come back after the files already read, in order. */
  lemma {:induction false} LoadedFiles(s: Scan, fs: seq<File>)
    requires Distinct(fs)
    requires forall i :: 0 <= i < |fs| ==> fs[i].basepath == "" && fs[i].filename !in s.order
    ensures var t := Loaded(s, fs);
      Files(t.order, t.slots) == Files(s.order, s.slots) + fs
    decreases |fs|
  {
    if |fs| == 0 {
      assert Files(s.order, s.slots) + [] == Files(s.order, s.slots);
    } else {
      var t := Enter(s, fs[0]);
      var u := Loaded(t, fs[1..]);
      var before := Files(s.order, s.slots);
      assert Loaded(s, fs) == u;
      FilesEnter(s, fs[0]);
      assert forall i :: 0 <= i < |fs| - 1 ==> fs[1..][i] == fs[i + 1];
      LoadedFiles(t, fs[1..]);
      assert Files(u.order, u.slots) == (before + [fs[0]]) + fs[1..];
      SplitFirst(before, fs);
    }
  }

  /** The files the rows read back as carry the rows' distinct paths and no base path. */
  lemma ReloadedNames(width: IntWidth, paths: seq<string>, rows: seq<FileList.Row>)
    requires |paths| == |rows| && Unique(paths)
    ensures var fs := Reloaded(width, paths, rows);
      Distinct(fs) && forall i :: 0 <= i < |fs| ==> fs[i].basepath == "" && fs[i].filename == paths[i]
  {
    var fs := Reloaded(width, paths, rows);
    forall i | 0 <= i < |fs|
      ensures fs[i].basepath == "" && fs[i].filename == paths[i]
    {
      ReloadedAt(width, paths, rows, i);
    }
  }

  /** The header and the rows' lines, parsed. */
  lemma SavedParsed(width: IntWidth, base: string, outpath: string, rows: seq<FileList.Row>, algorithm: string)
    requires AllSavable(base, outpath, rows)
    ensures ParseAll(width, Header(algorithm) + Body(Listed, base, outpath, rows, algorithm))
      == HeaderParsed(algorithm) + BodyParsed(width, Paths(base, outpath, rows), rows, algorithm)
  {
    var paths := Paths(base, outpath, rows);
    BodyListed(base, outpath, rows, algorithm);
    ParseAllAppend(width, Header(algorithm), BodyText(paths, rows, algorithm));
    ParseHeader(width, algorithm);
    ParseBody(width, paths, rows, algorithm);
  }

  /** The parsed header and rows, applied from the start, enter the rows' files after the header's rule entry. */
  lemma SavedApplied(skipBlank: bool, width: IntWidth, paths: seq<string>, rows: seq<FileList.Row>, algorithm: string)
    requires |paths| == |rows| && Unique(paths)
    requires forall i :: 0 <= i < |paths| ==> paths[i] != ";"
    ensures Apply(skipBlank, HeaderParsed(algorithm) + BodyParsed(width, paths, rows, algorithm), Start, 0)
      == Success(Loaded(HeaderScan(algorithm), Reloaded(width, paths, rows)))
  {
    var h := HeaderScan(algorithm);
    var header := HeaderParsed(algorithm);
    var body := BodyParsed(width, paths, rows, algorithm);
    calc {
      Apply(skipBlank, header + body, Start, 0);
    == { ApplyHeader(skipBlank, algorithm); ApplyThen(skipBlank, header, body, Start, h, 0); HeaderLeavesRoom(algorithm, paths); }
      Apply(skipBlank, body, h, 3);
    == { HeaderLeavesRoom(algorithm, paths); ApplyBody(skipBlank, width, paths, rows, algorithm, h, 3); }
      Success(Loaded(h, Reloaded(width, paths, rows)));
    }
  }

  /** The header's scan knows only ";", so every written path is new to it. */
  lemma HeaderLeavesRoom(algorithm: string, paths: seq<string>)
    requires forall i :: 0 <= i < |paths| ==> paths[i] != ";"
    ensures |HeaderParsed(algorithm)| == 3 && HeaderScan(algorithm).algorithm == algorithm
    ensures forall i :: 0 <= i < |paths| ==> paths[i] !in HeaderScan(algorithm).slots
  {}

  /** After the header, the rows' files are all the files there are. */
  lemma LoadedAfterHeader(width: IntWidth, paths: seq<string>, rows: seq<FileList.Row>, algorithm: string)
    requires |paths| == |rows| && Unique(paths)
    requires forall i :: 0 <= i < |paths| ==> paths[i] != ";"
    ensures var t := Loaded(HeaderScan(algorithm), Reloaded(width, paths, rows));
      Files(t.order, t.slots) == Reloaded(width, paths, rows)
  {
    var h := HeaderScan(algorithm);
    var fs := Reloaded(width, paths, rows);
    ReloadedNames(width, paths, rows);
    LoadedFiles(h, fs);
    assert Files(h.order, h.slots) == [];
    assert [] + fs == fs;
  }

  /** A metadata line for an algorithm without a line break has none either. */
  lemma SettingOneLine(algorithm: string)
    requires Lines.OneLine(algorithm)
    ensures Lines.OneLine(SettingLine(algorithm))
  {
    assert Lines.OneLine("; " + AlgorithmKey);
    Lines.OneLineAppend("; " + AlgorithmKey, algorithm);
  }

  lemma QuoteOneLine(path: string)
    requires Lines.OneLine(path)
    ensures Lines.OneLine(Quote(path))
  {
    Lines.OneLineAppend("\"", path);
    Lines.OneLineAppend("\"" + path, "\"");
  }

  /** A size comment is one line when the size and the quoted path are. */
  lemma SizeLineOneLine(size: string, quoted: string)
    requires Lines.OneLine(size) && Lines.OneLine(quoted)
    ensures Lines.OneLine(SizeLine(size, quoted))
  {
    var field := RightJustified(size, 12, ' ');
    FieldOneLine(size);
    var head := "; " + field;
    assert Lines.OneLine(head) by {
      Lines.OneLineAppend("; ", field);
    }
    var spaced := head + Repeat(' ', 22);
    assert Lines.OneLine(spaced) by {
      Lines.OneLineAppend(head, Repeat(' ', 22));
    }
    Lines.OneLineAppend(spaced, quoted);
    assert SizeLine(size, quoted) == spaced + quoted;
  }

  lemma FieldOneLine(size: string)
    requires Lines.OneLine(size)
    ensures Lines.OneLine(RightJustified(size, 12, ' '))
  {
    var field := RightJustified(size, 12, ' ');
    var pad := |field| - |size|;
    assert field == Repeat(' ', pad) + size by {
      assert field == field[..pad] + field[pad..];
    }
    Lines.OneLineAppend(Repeat(' ', pad), size);
  }

  /** Every line a savable row is written as is one line. */
  lemma RowOneLine(path: string, row: FileList.Row, current: string)
    requires Savable(path, row)
    ensures Lines.AllOneLine(RowText(path, row, current))
  {
    QuoteOneLine(path);
    if row.algorithm != current {
      SettingOneLine(row.algorithm);
    }
    if row.size != "" {
      SizeLineOneLine(row.size, Quote(path));
    }
    Lines.OneLineAppend(Quote(path), " ");
    Lines.OneLineAppend(Quote(path) + " ", row.hash);
  }

  lemma {:induction false} BodyOneLine(paths: seq<string>, rows: seq<FileList.Row>, current: string)
    requires |paths| == |rows| && forall i :: 0 <= i < |rows| ==> Savable(paths[i], rows[i])
    ensures Lines.AllOneLine(BodyText(paths, rows, current))
    decreases |rows|
  {
    if |rows| > 0 {
      RowOneLine(paths[0], rows[0], current);
      assert forall i :: 0 <= i < |rows| - 1 ==> paths[1..][i] == paths[i + 1] && rows[1..][i] == rows[i + 1];
      BodyOneLine(paths[1..], rows[1..], rows[0].algorithm);
      JoinCons(RowText(paths[0], rows[0], current), Chunks(RowText, paths[1..], rows[1..], rows[0].algorithm));
    }
  }

  /** Saving savable rows under an algorithm without a line break writes no line with one inside. */
  lemma SavedOneLine(base: string, outpath: string, rows: seq<FileList.Row>, algorithm: string)
    requires AllSavable(base, outpath, rows) && Lines.OneLine(algorithm)
    ensures Lines.AllOneLine(Header(algorithm) + Body(Listed, base, outpath, rows, algorithm))
  {
    BodyListed(base, outpath, rows, algorithm);
    BodyOneLine(Paths(base, outpath, rows), rows, algorithm);
    HeaderOneLine(algorithm);
    AllOneLineAppend(Header(algorithm), Body(Listed, base, outpath, rows, algorithm));
  }

  lemma AllOneLineAppend(a: seq<string>, b: seq<string>)
    requires Lines.AllOneLine(a) && Lines.AllOneLine(b)
    ensures Lines.AllOneLine(a + b)
  {
    assert forall i :: |a| <= i < |a + b| ==> (a + b)[i] == b[i - |a|];
  }

  lemma HeaderOneLine(algorithm: string)
    requires Lines.OneLine(algorithm)
    ensures Lines.AllOneLine(Header(algorithm))
  {
    SettingOneLine(algorithm);
    RuleOneLine();
  }

  lemma RuleOneLine()
    ensures Lines.OneLine(Rule)
  {
    assert forall i :: 0 <= i < |Rule| ==> Rule[i] == ';' || Rule[i] == ' ' || Rule[i] == '-';
  }

  /**
   * Saving with FileList's columns and reading the manifest's lines back,
   * with either reader, lists one file per row in row order: the written
   * path, the size the size comment gives, the row's hash and algorithm.
   */
  lemma SaveReadLines(d: Dialect, base: string, outpath: string, rows: seq<FileList.Row>, algorithm: string)
    requires |rows| > 0 && AllSavable(base, outpath, rows)
    ensures var saved := Save(Listed, base, rows, outpath, algorithm, true);
      saved.Some? && Read(d, saved.value) == Success(Reloaded(d.width, Paths(base, outpath, rows), rows))
  {
    var paths := Paths(base, outpath, rows);
    var lines := Header(algorithm) + Body(Listed, base, outpath, rows, algorithm);
    assert Save(Listed, base, rows, outpath, algorithm, true) == Some(lines);
    forall i | 0 <= i < |paths|
      ensures paths[i] != ";"
    {
      assert paths[i][0] != ';';
    }
    SavedParsed(d.width, base, outpath, rows, algorithm);
    SavedApplied(d.skipBlank, d.width, paths, rows, algorithm);
    LoadedAfterHeader(d.width, paths, rows, algorithm);
  }

  /**
   * Saving with FileList's columns writes a file which, read back with
   * either reader and either line break, lists one file per row in row
   * order: the written path, the size the size comment gives, the row's
   * hash and algorithm.
   */
  lemma SaveRead(d: Dialect, crlf: bool, base: string, outpath: string, rows: seq<FileList.Row>, algorithm: string)
    requires |rows| > 0 && AllSavable(base, outpath, rows) && Lines.OneLine(algorithm)
    ensures var saved := SaveFile(Listed, base, rows, outpath, algorithm, true, crlf);
      saved.Some? && ReadFile(d, saved.value) == Success(Reloaded(d.width, Paths(base, outpath, rows), rows))
  {
    var lines := Header(algorithm) + Body(Listed, base, outpath, rows, algorithm);
    SaveReadLines(d, base, outpath, rows, algorithm);
    SavedOneLine(base, outpath, rows, algorithm);
    Lines.LinesRoundTrip(lines, crlf);
  }

  lemma {:induction false} Pow10Grows(a: nat, b: nat)
    requires a <= b
    ensures Pow10(a) <= Pow10(b)
    decreases b
  {
    if a < b {
      Pow10Grows(a, b - 1);
    }
  }

  /** A size field of at most 12 digits is below 10^12, well inside the 64-bit range. */
  lemma WideSize(size: string)
    requires AllDigits(size) && 0 < |size| <= 12
    ensures ParseSigned(size, Int64) == DigitsValue(size)
  {
    DigitsBound(size);
    Pow10Grows(|size|, 12);
    assert Pow10(12) == 1_000_000_000_000;
  }

  /**
   * With the corrected reader and sizes written as decimal digits, saving
   * and reading back gives, row by row, the written path, the exact size,
   * the hash and the algorithm.
   */
  lemma SaveThenRead(crlf: bool, base: string, outpath: string, rows: seq<FileList.Row>, algorithm: string)
    requires |rows| > 0 && AllSavable(base, outpath, rows) && Lines.OneLine(algorithm)
    requires forall i :: 0 <= i < |rows| ==> AllDigits(rows[i].size)
    ensures var saved := SaveFile(Listed, base, rows, outpath, algorithm, true, crlf);
      && saved.Some? && ReadFile(Corrected, saved.value).Success?
      && var files := ReadFile(Corrected, saved.value).value;
      && |files| == |rows|
      && forall i :: 0 <= i < |rows| ==>
        files[i] == File("", PathOf(base, outpath, rows[i]),
          if rows[i].size == "" then None else Some(DigitsValue(rows[i].size)), rows[i].hash, rows[i].algorithm)
  {
    var paths := Paths(base, outpath, rows);
    SaveRead(Corrected, crlf, base, outpath, rows, algorithm);
    var files := Reloaded(Int64, paths, rows);
    forall i | 0 <= i < |rows|
      ensures files[i] == File("", PathOf(base, outpath, rows[i]),
        if rows[i].size == "" then None else Some(DigitsValue(rows[i].size)), rows[i].hash, rows[i].algorithm)
    {
      ReloadedAt(Int64, paths, rows, i);
      PathsAt(base, outpath, rows, i);
      if rows[i].size != "" {
        assert Savable(paths[i], rows[i]);
        WideSize(rows[i].size);
      }
    }
  }

  /**
   * The reader as written converts sizes with a 32-bit conversion: a row
   * whose size is 2^31 or more reads back with size 0.
   */
  lemma LargeSizeReadAsZero(crlf: bool, base: string, outpath: string, rows: seq<FileList.Row>, algorithm: string, i: int)
    requires |rows| > 0 && AllSavable(base, outpath, rows) && Lines.OneLine(algorithm) && 0 <= i < |rows|
    requires AllDigits(rows[i].size) && |rows[i].size| > 0 && DigitsValue(rows[i].size) >= 0x8000_0000
    ensures var saved := SaveFile(Listed, base, rows, outpath, algorithm, true, crlf);
      && saved.Some? && ReadFile(AsWritten, saved.value).Success?
      && |ReadFile(AsWritten, saved.value).value| == |rows|
      && ReadFile(AsWritten, saved.value).value[i].filesize == Some(0)
  {
    SaveRead(AsWritten, crlf, base, outpath, rows, algorithm);
    ReloadedAt(Int32, Paths(base, outpath, rows), rows, i);
  }

  /** The size of a 3,000,000,000-byte file converts to 0 as written and to itself when corrected. */
  lemma LargeSizeExample()
    ensures ParseSigned("3000000000", Int32) == 0
    ensures ParseSigned("3000000000", Int64) == 3_000_000_000
  {
    ThreeBillion();
    WideSize("3000000000");
  }
}
