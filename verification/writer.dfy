/**
 * The SFV manifest writer of HashProject::saveFile: a header naming the
 * project's algorithm, then per table row an algorithm line when the row's
 * algorithm differs from the current one, a size comment when the row has
 * a size, and the data line with the path and the hash.
 */
module Writer {
  import opened Strings
  import opened Project
  import FileList
  import Lines

  /**
   * Which table column holds which field.  `base` is the column holding the
   * directory the name is relative to, or None when that directory is the
   * project's source directory instead of a column.
   */
  datatype Layout = Layout(base: Option<nat>, name: nat, size: nat, hash: nat, algorithm: nat)

  /** The columns the writer as written reads: directory 0, name 1, size 2, hash 3, algorithm 6. */
  const Indexed: Layout := Layout(Some(0), 1, 2, 3, 6)

  /** The columns FileList actually has: name 0, size 1, hash 2, algorithm 5. */
  const Listed: Layout := Layout(None, 0, 1, 2, 5)

  const Rule: string := "; ---------------"

  function SettingLine(algorithm: string): string {
    "; " + AlgorithmKey + algorithm
  }

  /** The header after the banner line: the project's algorithm between two rules. */
  function Header(algorithm: string): seq<string> {
    [Rule, SettingLine(algorithm), Rule]
  }

  /** QString::indexOf finds a text at position 0 exactly when the text is a prefix. */
  lemma PrefixAtZero(s: string, prefix: string)
    ensures IndexOf(s, prefix) == 0 <==> StartsWith(s, prefix)
  {
    if StartsWith(s, prefix) {
      assert OccursAt(s, prefix, 0);
    }
  }

  /**
   * A path below the manifest's directory loses that directory and the
   * separator after it (QString::remove stops at the end of the text).
   */
  function Relative(outpath: string, full: string): (r: string)
    ensures |r| <= |full| && r == full[|full| - |r|..]
    ensures !StartsWith(full, outpath) ==> r == full
    ensures StartsWith(full, outpath) && |outpath| < |full| ==> full == outpath + [full[|outpath|]] + r
  {
    PrefixAtZero(full, outpath);
    if IndexOf(full, outpath) == 0 then
      var cut := if |outpath| + 1 <= |full| then |outpath| + 1 else |full|;
      assert StartsWith(full, outpath) && |outpath| < |full| ==> full == full[..|outpath|] + [full[|outpath|]] + full[cut..];
      full[cut..]
    else full
  }

  /** A path holding a space is written between double quotes. */
  function Quote(path: string): string {
    if HasChar(path, ' ') then "\"" + path + "\"" else path
  }

  /**
   * A size comment: the size right-aligned in 12 columns, then 22 spaces,
   * so that the path starts at column 36 when the size fits its field
   * (a longer size is not cut and pushes the path to the right).
   */
  function SizeLine(size: string, path: string): (line: string)
    ensures |line| > NameColumn - 1 && line[0] == ';'
    ensures |size| <= 12 ==>
      && |line| == NameColumn + |path| && line[NameColumn..] == path
      && line[1..14] == Repeat(' ', 13 - |size|) + size
      && forall i :: 14 <= i < NameColumn ==> line[i] == ' '
    ensures |size| > 12 ==> |line| > NameColumn + |path|
  {
    var line := "; " + RightJustified(size, 12, ' ') + Repeat(' ', 22) + path;
    assert |size| <= 12 ==> RightJustified(size, 12, ' ') == Repeat(' ', 12 - |size|) + size;
    assert line[1..14] == [' '] + RightJustified(size, 12, ' ')[..12];
    line
  }

  /** The text of a cell, "" for a cell the row does not have. */
  function Text(row: FileList.Row, k: nat): string {
    match FileList.Cell(row, k)
    case Some(t) => t
    case None => ""
  }

  /**
   * The lines of one row and the algorithm current after it.  The full path
   * is the directory joined to the name; it is made relative to `outpath`
   * and quoted; the hash follows the path after a space when the row has a
   * hash cell.
   */
  function RowLines(layout: Layout, base: string, outpath: string, row: FileList.Row, current: string): (r: (seq<string>, string))
    ensures |r.0| >= 1 && |r.0| <= 3
    ensures var p := Quote(Relative(outpath, (match layout.base case Some(k) => Text(row, k) case None => base) + Text(row, layout.name)));
      StartsWith(r.0[|r.0| - 1], p)
    ensures FileList.Cell(row, layout.algorithm).None? ==> r.1 == current
    ensures r.1 != current ==> r.0[0] == SettingLine(r.1)
  {
    var algorithm := FileList.Cell(row, layout.algorithm);
    var switch := algorithm.Some? && algorithm.value != current;
    var full := (match layout.base case Some(k) => Text(row, k) case None => base) + Text(row, layout.name);
    var path := Quote(Relative(outpath, full));
    var size := FileList.Cell(row, layout.size);
    var hash := FileList.Cell(row, layout.hash);
    var data := path + (match hash case Some(h) => " " + h case None => "");
    assert StartsWith(data, path);
    var head: seq<string> := if switch then [SettingLine(algorithm.value)] else [];
    var sized: seq<string> := if size.Some? && size.value != "" then [SizeLine(size.value, path)] else [];
    var lines := head + sized + [data];
    assert lines[|lines| - 1] == data;
    assert switch ==> lines[0] == head[0];
    (lines, if switch then algorithm.value else current)
  }

  /** The lines of all rows, the algorithm carried from row to row. */
  function Body(layout: Layout, base: string, outpath: string, rows: seq<FileList.Row>, current: string): (lines: seq<string>)
    ensures |rows| <= |lines| <= 3 * |rows|
  {
    if |rows| == 0 then []
    else
      var r := RowLines(layout, base, outpath, rows[0], current);
      r.0 + Body(layout, base, outpath, rows[1..], r.1)
  }

  /**
   * saveFile: nothing for an empty table or a file that cannot be opened for
   * writing, otherwise the header with the project's algorithm and the rows'
   * lines.  The banner line with the build stamp and the clock time is not
   * part of this model.
   */
  function Save(layout: Layout, base: string, rows: seq<FileList.Row>, outpath: string, algorithm: string, writable: bool): (r: Option<seq<string>>)
    ensures r.None? <==> |rows| == 0 || !writable
    ensures r.Some? ==> |r.value| >= 3 + |rows| && r.value[..3] == Header(algorithm)
  {
    if |rows| == 0 || !writable then None
    else Some(Header(algorithm) + Body(layout, base, outpath, rows, algorithm))
  }

  /** The file saveFile writes: the saved lines, each ended by the line break of the file's text mode. */
  function SaveFile(layout: Layout, base: string, rows: seq<FileList.Row>, outpath: string, algorithm: string, writable: bool, crlf: bool): (r: Option<string>)
    ensures r.None? <==> |rows| == 0 || !writable
    ensures r.Some? ==> |r.value| > 0 && r.value[|r.value| - 1] == '\n'
  {
    match Save(layout, base, rows, outpath, algorithm, writable)
    case None => None
    case Some(lines) => Some(Lines.JoinLines(lines, crlf))
  }
}
