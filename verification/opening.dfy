/**
 * HashProject::openFile as the file list sees it: the write lock is taken
 * first, then the manifest is looked up and opened, its text is read line
 * by line, and the rows are replaced by the manifest's files.  The text
 * stream decodes the file's bytes with the locale's codec, which is a
 * parameter here.
 */
module Opening {
  import opened Project
  import opened Files
  import FileList
  import Hex
  import Lines
  import Manifest

  /** The locale codec `QTextStream` decodes the manifest's bytes with. */
  type Codec = seq<Hex.byte> -> string

  /**
   * The outcome of openFile: the list and the boolean it returns, or, for a
   * manifest with a line that yields no name, the line where the reader
   * takes the first element of an empty list, which has no defined outcome.
   */
  datatype Opened =
    | Opened(list: FileList.State, ok: bool)
    | Undefined(line: nat)

  /**
   * The success path on a list that is already locked.  The contents are
   * cleared, each file is added singly (so batches of 100 flush on the way),
   * and fileAdditionFinished flushes the rest.
   */
  function Loaded(locked: FileList.State, files: seq<File>, env: FileList.Env): FileList.State {
    var cleared := FileList.ClearContents(locked).state;
    FileList.FileAdditionFinished(FileList.AddEach(cleared, files, env), env).state
  }

  /** Reading a readable manifest's text in a dialect, then loading its files. */
  function ReadAndLoad(d: Manifest.Dialect, locked: FileList.State, text: string, env: FileList.Env): (r: Opened)
    ensures r.Undefined? <==> Manifest.ReadFile(d, text).Failure?
    ensures r.Opened? ==> r.ok
  {
    match Manifest.ReadFile(d, text)
    case Failure(k) => Undefined(k)
    case Success(files) => Opened(Loaded(locked, files, env), true)
  }

  /**
   * openFile as written.  A list that is already locked refuses the call
   * and is left alone.  A manifest that does not exist returns false while
   * the lock taken a moment before is still held.  A manifest that cannot
   * be opened releases the lock and returns false.  A readable one is read
   * with 32-bit sizes and no blank-line check.
   */
  function OpenAsWritten(s: FileList.State, file: FileState, codec: Codec, env: FileList.Env): (r: Opened)
    ensures r.Undefined? <==>
      !s.locked && file.Readable? && Manifest.ReadFile(Manifest.AsWritten, codec(file.content)).Failure?
    ensures r.Opened? ==> (r.ok <==> !s.locked && file.Readable?)
    ensures s.locked ==> r == Opened(s, false)
    ensures !s.locked && file.Missing? ==> r.Opened? && r.list.locked
  {
    var lock := FileList.WriteLock(s, true);
    if !lock.1 then Opened(s, false)
    else if file.Missing? then Opened(lock.0, false)
    else if file.Unopenable? then Opened(FileList.WriteLock(lock.0, false).0, false)
    else ReadAndLoad(Manifest.AsWritten, lock.0, codec(file.content), env)
  }

  /**
   * openFile with the lock released on every failure after it was taken: a
   * missing manifest is handled like one that cannot be opened.  The
   * manifest is read in the given dialect.
   */
  function Open(d: Manifest.Dialect, s: FileList.State, file: FileState, codec: Codec, env: FileList.Env): (r: Opened)
    ensures r.Undefined? <==> !s.locked && file.Readable? && Manifest.ReadFile(d, codec(file.content)).Failure?
    ensures d.skipBlank ==> r.Opened?
    ensures r.Opened? ==> (r.ok <==> !s.locked && file.Readable?)
    ensures r.Opened? && !r.ok ==> r.list.locked == s.locked
  {
    var lock := FileList.WriteLock(s, true);
    if !lock.1 then Opened(s, false)
    else if !file.Readable? then Opened(FileList.WriteLock(lock.0, false).0, false)
    else ReadAndLoad(d, lock.0, codec(file.content), env)
  }

  /**
   * As written, one open of a missing manifest on an idle list leaves it
   * locked, and every later open is then refused, whatever the manifest.
   */
  lemma MissingLocksOut(s: FileList.State, codec: Codec, env: FileList.Env, later: FileState)
    requires !s.locked
    ensures var first := OpenAsWritten(s, Missing, codec, env);
      && first.Opened? && !first.ok && first.list.locked
      && OpenAsWritten(first.list, later, codec, env) == Opened(first.list, false)
  {}

  /**
   * As written, a manifest whose text ends with a line of spaces reaches
   * the first element of an empty token list: openFile has no defined
   * outcome, whatever the lines before it hold.
   */
  lemma BlankManifestUndefined(s: FileList.State, codec: Codec, env: FileList.Env, content: seq<Hex.byte>,
                               lines: seq<string>, blank: string, crlf: bool)
    requires !s.locked
    requires Lines.AllOneLine(lines)
    requires forall i :: 0 <= i < |blank| ==> blank[i] == ' '
    requires codec(content) == Lines.JoinLines(lines + [blank], crlf)
    ensures OpenAsWritten(s, Readable(content), codec, env).Undefined?
  {
    assert Lines.AllOneLine(lines + [blank]) by {
      forall i | 0 <= i < |lines + [blank]|
        ensures Lines.OneLine((lines + [blank])[i])
      {
        if i < |lines| { assert (lines + [blank])[i] == lines[i]; }
      }
    }
    Lines.LinesRoundTrip(lines + [blank], crlf);
    Manifest.BlankLineUndefined(lines, blank);
  }

  /** With the corrected lock release, open agrees with the one as written except for a missing manifest. */
  lemma OpenAgrees(s: FileList.State, file: FileState, codec: Codec, env: FileList.Env)
    requires !file.Missing? || s.locked
    ensures Open(Manifest.AsWritten, s, file, codec, env) == OpenAsWritten(s, file, codec, env)
  {}

  /**
   * A failed open leaves an idle list idle with an empty buffer, so the
   * next open of any readable manifest succeeds.
   */
  lemma FailedOpenRecovers(s: FileList.State, file: FileState, codec: Codec, env: FileList.Env, content: seq<Hex.byte>)
    requires !s.locked && !file.Readable?
    ensures var first := Open(Manifest.Corrected, s, file, codec, env);
      && first.Opened? && !first.ok && first.list == s.(buffer := [])
      && var again := Open(Manifest.Corrected, first.list, Readable(content), codec, env);
        again.Opened? && again.ok
  {}

  /**
   * A successful open replaces the rows by one row per file the manifest's
   * text names, in the manifest's order, with nothing left waiting in the
   * buffer and the list still locked until the processing it started is
   * done.
   */
  lemma OpenLoads(s: FileList.State, content: seq<Hex.byte>, codec: Codec, env: FileList.Env)
    requires !s.locked
    ensures var r := Open(Manifest.Corrected, s, Readable(content), codec, env);
      && r.Opened? && r.ok && r.list.locked && r.list.buffer == []
      && r.list.rows == FileList.Entries(Manifest.ReadFile(Manifest.Corrected, codec(content)).value)
  {
    var files := Manifest.ReadFile(Manifest.Corrected, codec(content)).value;
    var locked := FileList.WriteLock(s, true).0;
    var cleared := FileList.ClearContents(locked).state;
    assert cleared.locked && cleared.rows == [] && cleared.buffer == [];
    FileList.BatchingInvisible(cleared, files, env);
    FileList.AddFilesFlushes(cleared, files, env);
    assert [] + files == files;
    assert [] + FileList.Entries(files) == FileList.Entries(files);
  }
}
