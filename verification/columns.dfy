/**
 * The column numbers of saveFile against the columns FileList builds.  The
 * writer reads directory 0, name 1, size 2, hash 3 and algorithm 6; FileList
 * has name 0, size 1, hash 2, verify 3, verdict 4 and algorithm 5 and no
 * seventh column.  Saving FileList's rows through the writer's numbers is
 * the same as saving other rows through the right ones: the name with the
 * size appended, the hash where the size belongs, the verify cell where the
 * hash belongs, and never an algorithm line.
 */
module Columns {
  import opened Strings
  import opened Project
  import opened Manifest
  import opened Writer
  import opened RoundTrip
  import FileList
  import Lines

  /** The row the writer as written in effect saves in place of `row`. */
  function Misread(row: FileList.Row, algorithm: string): FileList.Row {
    FileList.Row(row.name + row.size, row.hash, row.verify, "", "", algorithm)
  }

  function MisreadAll(rows: seq<FileList.Row>, algorithm: string): (r: seq<FileList.Row>)
    ensures |r| == |rows|
    decreases |rows|
  {
    if |rows| == 0 then [] else [Misread(rows[0], algorithm)] + MisreadAll(rows[1..], algorithm)
  }

  lemma {:induction false} MisreadAt(rows: seq<FileList.Row>, algorithm: string, i: int)
    requires 0 <= i < |rows|
    ensures MisreadAll(rows, algorithm)[i] == Misread(rows[i], algorithm)
    decreases |rows|
  {
    if i > 0 {
      MisreadAt(rows[1..], algorithm, i - 1);
    }
  }

  /** One row through the writer's column numbers is the misread row through FileList's, and the algorithm stays put. */
  lemma RowIndexed(base: string, outpath: string, row: FileList.Row, current: string)
    ensures RowLines(Indexed, base, outpath, row, current) == RowLines(Listed, "", outpath, Misread(row, current), current)
    ensures RowLines(Indexed, base, outpath, row, current).1 == current
  {
    var m := Misread(row, current);
    assert FileList.Cell(row, 0) == Some(row.name) && FileList.Cell(row, 1) == Some(row.size);
    assert FileList.Cell(row, 2) == Some(row.hash) && FileList.Cell(row, 3) == Some(row.verify);
    assert FileList.Cell(row, 6) == None;
    assert FileList.Cell(m, 0) == Some(row.name + row.size) && FileList.Cell(m, 1) == Some(row.hash);
    assert FileList.Cell(m, 2) == Some(row.verify) && FileList.Cell(m, 5) == Some(current);
    assert "" + (row.name + row.size) == row.name + row.size;
  }

  lemma {:induction false} BodyIndexed(base: string, outpath: string, rows: seq<FileList.Row>, current: string)
    ensures Body(Indexed, base, outpath, rows, current) == Body(Listed, "", outpath, MisreadAll(rows, current), current)
    decreases |rows|
  {
    if |rows| > 0 {
      RowIndexed(base, outpath, rows[0], current);
      BodyIndexed(base, outpath, rows[1..], current);
      var m := MisreadAll(rows, current);
      assert m[0] == Misread(rows[0], current) && m[1..] == MisreadAll(rows[1..], current);
    }
  }

  /** saveFile as written over FileList's rows writes exactly the manifest of the misread rows. */
  lemma SaveIndexed(base: string, rows: seq<FileList.Row>, outpath: string, algorithm: string, writable: bool)
    ensures Save(Indexed, base, rows, outpath, algorithm, writable)
      == Save(Listed, "", MisreadAll(rows, algorithm), outpath, algorithm, writable)
  {
    BodyIndexed(base, outpath, rows, algorithm);
  }

  /**
   * Reading back what saveFile as written saves from FileList's rows gives,
   * per row, the name with the size text appended, the hash text converted
   * as a size, the verify cell as the hash, and the header's algorithm.
   */
  lemma IndexedRead(d: Dialect, crlf: bool, base: string, outpath: string, rows: seq<FileList.Row>, algorithm: string)
    requires |rows| > 0 && AllSavable("", outpath, MisreadAll(rows, algorithm)) && Lines.OneLine(algorithm)
    ensures var saved := SaveFile(Indexed, base, rows, outpath, algorithm, true, crlf);
      && saved.Some? && ReadFile(d, saved.value).Success?
      && var files := ReadFile(d, saved.value).value;
      && |files| == |rows|
      && forall i :: 0 <= i < |rows| ==>
        files[i] == File("", Relative(outpath, rows[i].name + rows[i].size), SizeOf(d.width, rows[i].hash), rows[i].verify, algorithm)
  {
    var m := MisreadAll(rows, algorithm);
    var paths := Paths("", outpath, m);
    SaveIndexed(base, rows, outpath, algorithm, true);
    SaveRead(d, crlf, "", outpath, m, algorithm);
    var files := Reloaded(d.width, paths, m);
    forall i | 0 <= i < |rows|
      ensures files[i] == File("", Relative(outpath, rows[i].name + rows[i].size), SizeOf(d.width, rows[i].hash), rows[i].verify, algorithm)
    {
      ReloadedAt(d.width, paths, m, i);
      PathsAt("", outpath, m, i);
      MisreadAt(rows, algorithm, i);
      assert "" + (rows[i].name + rows[i].size) == rows[i].name + rows[i].size;
    }
  }

  /**
   * A row that is hashed but not yet verified (verify cell empty), saved as
   * written and read back, comes back without its hash and under its name
   * with the size text appended.
   */
  lemma IndexedLosesHash(d: Dialect, crlf: bool, base: string, outpath: string, rows: seq<FileList.Row>, algorithm: string, i: int)
    requires |rows| > 0 && AllSavable("", outpath, MisreadAll(rows, algorithm)) && Lines.OneLine(algorithm) && 0 <= i < |rows|
    requires rows[i].hash != "" && rows[i].verify == ""
    ensures var saved := SaveFile(Indexed, base, rows, outpath, algorithm, true, crlf);
      && saved.Some? && ReadFile(d, saved.value).Success? && |ReadFile(d, saved.value).value| == |rows|
      && var file := ReadFile(d, saved.value).value[i];
      && file.hash == "" && file.hash != rows[i].hash
      && file.filename == Relative(outpath, rows[i].name + rows[i].size)
  {
    IndexedRead(d, crlf, base, outpath, rows, algorithm);
  }

  /** The hash of the example row, read where a size belongs, converts to 0. */
  lemma HashAsSize(w: IntWidth)
    ensures ParseSigned("CBF43926", w) == 0
  {
    var hash := "CBF43926";
    assert hash[0] == 'C' && hash[|hash| - 1] == '6' && !AllDigits(hash);
    NotNumberIsZero(hash, w);
  }
}
