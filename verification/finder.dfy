/**
 * The FileFinder worker: it walks the project's source directory and
 * reports every file (not directory) it meets, named relative to the
 * directory, hashing it on the spot when the settings ask for blocking
 * hashing.  The directory walk is an input sequence of entries, and an
 * abort raised from another thread is the index of the first poll that
 * sees it.
 */
module Finder {
  import opened Strings
  import opened Project
  import opened Files
  import Crc32
  import Hashing
  import Source

  /**
   * The worker: the abort flag and the CRC engine of the Hasher it owns.
   * That Hasher is never aborted (the finder's abort does not reach it),
   * so only its engine is state.
   */
  datatype FileFinder = FileFinder(aborted: bool, crc: Crc32.Engine)

  /** The signals the worker emits. */
  datatype Signal = FileFound(file: File, forceUpdate: bool) | ScanFinished

  /** What a scan reads from the project: its source directory and settings. */
  datatype Scanned = Scanned(source: Source.SourceDirectory, settings: Settings)

  /** abort: raises the flag. */
  function Abort(f: FileFinder): (r: FileFinder)
    ensures r.aborted && r.crc == f.crc
  {
    f.(aborted := true)
  }

  /** The entry's path with as many leading characters removed as the directory path has. */
  function StripBase(basepath: string, path: string): (name: string)
    ensures |name| == if |path| < |basepath| then 0 else |path| - |basepath|
    ensures |path| >= |basepath| ==> path == path[..|basepath|] + name
  {
    if |path| < |basepath| then "" else path[|basepath|..]
  }

  /** Hashing during the scan happens only when both blocking and immediate hashing are set. */
  predicate Blocking(settings: Settings) {
    settings.blockingHashCalc && settings.scanImmediately
  }

  /** The file reported for a non-directory entry, hashed through the oracle when blocking. */
  function FoundFile(entry: DirEntry, basepath: string, settings: Settings, o: Hashing.Oracle): File {
    var name := StripBase(basepath, entry.path);
    if Blocking(settings) then File("", name, Some(entry.size), o(basepath + name, settings.algorithm), settings.algorithm)
    else File("", name, Some(entry.size), "", "")
  }

  /**
   * One file of the walk: named relative to the directory and, when
   * blocking, hashed at once by the owned Hasher with the project's tag
   * (a direct call, so no result signal).
   */
  function Visit(crc: Crc32.Engine, entry: DirEntry, basepath: string, settings: Settings, w: Hashing.World): (r: (Crc32.Engine, File))
    requires Crc32.Valid(crc)
    ensures Crc32.Valid(r.0)
    ensures r.1 == FoundFile(entry, basepath, settings, Hashing.Engines(w))
    ensures !Blocking(settings) ==> r.0 == crc
  {
    var file := File("", StripBase(basepath, entry.path), Some(entry.size), "", "");
    if Blocking(settings) then
      var h := Hashing.HashFile(Hashing.Hasher(crc, false), -1, basepath, file, settings.algorithm, false, w);
      (h.0.crc, file.(hash := h.1, algorithm := settings.algorithm))
    else (crc, file)
  }

  /** The fileFound signals for some entries, in their order. */
  function Listed(entries: seq<DirEntry>, basepath: string, settings: Settings, o: Hashing.Oracle): seq<Signal>
    decreases |entries|
  {
    if |entries| == 0 then []
    else
      var last := entries[|entries| - 1];
      Listed(entries[..|entries| - 1], basepath, settings, o)
        + (if last.isDir then [] else [FileFound(FoundFile(last, basepath, settings, o), false)])
  }

  /**
   * scanProject: the flag is lowered on entry, so an abort raised before
   * the scan is discarded.  Without a project or with a directory that was
   * not valid when last set, only scanFinished.  Otherwise every entry is
   * visited in order until the poll before entry `abortAt` sees the flag,
   * and scanFinished ends the scan on either path.
   */
  method ScanProject(f: FileFinder, project: Option<Scanned>, entries: seq<DirEntry>, w: Hashing.World, abortAt: Option<nat>)
    returns (next: FileFinder, signals: seq<Signal>)
    requires Crc32.Valid(f.crc)
    ensures Crc32.Valid(next.crc) && next.aborted == abortAt.Some?
    ensures project.None? || !project.value.source.valid ==> signals == [ScanFinished]
    ensures project.Some? && project.value.source.valid ==>
      signals == Listed(entries[..Hashing.Stop(|entries|, abortAt)], WithSeparator(project.value.source.path), project.value.settings, Hashing.Engines(w))
        + [ScanFinished]
  {
    var crc := f.crc;
    if project.None? || !project.value.source.valid {
      return FileFinder(abortAt.Some?, crc), [ScanFinished];
    }
    var settings := project.value.settings;
    var basepath := WithSeparator(project.value.source.path);
    var n := Hashing.Stop(|entries|, abortAt);
    signals := [];
    var i := 0;
    while i < |entries|
      invariant i <= n
      invariant Crc32.Valid(crc)
      invariant signals == Listed(entries[..i], basepath, settings, Hashing.Engines(w))
    {
      if abortAt.Some? && abortAt.value <= i {
        break;
      }
      var entry := entries[i];
      if !entry.isDir {
        var visited := Visit(crc, entry, basepath, settings, w);
        crc := visited.0;
        signals := signals + [FileFound(visited.1, false)];
      }
      assert entries[..i + 1][..i] == entries[..i];
      i := i + 1;
    }
    signals := signals + [ScanFinished];
    next := FileFinder(abortAt.Some?, crc);
  }

  /** The non-directory entries, in order. */
  function NonDirs(entries: seq<DirEntry>): (r: seq<DirEntry>)
    ensures |r| <= |entries|
    decreases |entries|
  {
    if |entries| == 0 then []
    else
      var last := entries[|entries| - 1];
      NonDirs(entries[..|entries| - 1]) + (if last.isDir then [] else [last])
  }

  lemma {:induction false} NonDirsMembers(entries: seq<DirEntry>)
    ensures forall e :: e in NonDirs(entries) <==> e in entries && !e.isDir
    decreases |entries|
  {
    if |entries| > 0 {
      var front := entries[..|entries| - 1];
      NonDirsMembers(front);
      assert entries == front + [entries[|entries| - 1]];
    }
  }

  /**
   * The signals of a scan are exactly one fileFound per non-directory
   * entry, in the entries' order, each with forceUpdate false, and
   * nothing for directories.
   */
  lemma {:induction false} ListedInOrder(entries: seq<DirEntry>, basepath: string, settings: Settings, o: Hashing.Oracle)
    ensures var found := NonDirs(entries);
      var signals := Listed(entries, basepath, settings, o);
      && |signals| == |found|
      && forall k :: 0 <= k < |found| ==> signals[k] == FileFound(FoundFile(found[k], basepath, settings, o), false)
    decreases |entries|
  {
    if |entries| > 0 {
      ListedInOrder(entries[..|entries| - 1], basepath, settings, o);
    }
  }

  /** Every signal of a scan is a fileFound for a non-directory entry; no scanFinished comes before the end. */
  lemma ListedSound(entries: seq<DirEntry>, basepath: string, settings: Settings, o: Hashing.Oracle)
    ensures forall s :: s in Listed(entries, basepath, settings, o) ==>
      && s.FileFound? && !s.forceUpdate
      && exists e :: e in entries && !e.isDir && s.file == FoundFile(e, basepath, settings, o)
  {
    ListedInOrder(entries, basepath, settings, o);
    NonDirsMembers(entries);
    var found := NonDirs(entries);
    var signals := Listed(entries, basepath, settings, o);
    forall s | s in signals
      ensures s.FileFound? && !s.forceUpdate
      ensures exists e :: e in entries && !e.isDir && s.file == FoundFile(e, basepath, settings, o)
    {
      var k :| 0 <= k < |signals| && signals[k] == s;
      assert found[k] in found;
    }
  }

  /**
   * A file found under the directory is named by its path inside it, is
   * hashed at its own path, and carries a hash and the project's tag
   * exactly when hashing is blocking (the hash non-empty when the engines
   * never give an empty text).
   */
  lemma FoundFileFacts(entry: DirEntry, basepath: string, rest: string, settings: Settings, o: Hashing.Oracle)
    requires entry.path == basepath + rest && Hashing.NonEmpty(o)
    ensures var f := FoundFile(entry, basepath, settings, o);
      && f.filename == rest && f.filesize == Some(entry.size) && f.basepath == ""
      && (f.hash != "" <==> Blocking(settings))
      && (f.algorithm == (if Blocking(settings) then settings.algorithm else ""))
      && (Blocking(settings) ==> f.hash == o(entry.path, settings.algorithm))
  {
    assert entry.path[|basepath|..] == rest;
  }
}
