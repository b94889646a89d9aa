/**
 * SourceDirectory: the directory a project scans, and whether it existed
 * when the path was last set.  Whether a path names an existing directory
 * is a question to the file system, so it enters as a predicate parameter.
 */
module Source {
  /** The path and the validity flag. */
  datatype SourceDirectory = SourceDirectory(path: string, valid: bool)

  /** The two signals the class declares. */
  datatype DirSignal = PathStatusChanged(status: bool) | PathChanged(path: string)

  /**
   * setPath: the path is taken as given; the validity flag follows the
   * directory's existence, and pathStatusChanged carries the new value
   * exactly when the flag flips.  pathChanged is never emitted.
   */
  function SetPath(d: SourceDirectory, path: string, isDir: string -> bool): (r: (SourceDirectory, seq<DirSignal>))
    ensures r.0.path == path && r.0.valid == isDir(path)
    ensures |r.1| > 0 <==> isDir(path) != d.valid
    ensures forall k :: 0 <= k < |r.1| ==> r.1[k] == PathStatusChanged(r.0.valid)
  {
    if isDir(path) != d.valid then (SourceDirectory(path, !d.valid), [PathStatusChanged(!d.valid)])
    else (SourceDirectory(path, d.valid), [])
  }

  /** The constructor: an empty path is replaced by the home directory, and the flag starts cleared before the path is set. */
  function New(dir: string, home: string, isDir: string -> bool): (r: (SourceDirectory, seq<DirSignal>))
    ensures r.0.path == (if dir == "" then home else dir)
    ensures r.0.valid == isDir(r.0.path)
    ensures r.1 == if r.0.valid then [PathStatusChanged(true)] else []
  {
    SetPath(SourceDirectory("", false), if dir == "" then home else dir, isDir)
  }

  /** getPath. */
  function GetPath(d: SourceDirectory): string {
    d.path
  }

  /** isValid. */
  function IsValid(d: SourceDirectory): bool {
    d.valid
  }

  /** The getters report what the last setPath stored: the path as given, and whether it named a directory then. */
  lemma GettersAfterSetPath(d: SourceDirectory, path: string, isDir: string -> bool)
    ensures var e := SetPath(d, path, isDir).0;
      GetPath(e) == path && IsValid(e) == isDir(path)
  {}

  /** Setting the same path again, the directory unchanged, changes nothing and emits nothing. */
  lemma SetPathIdempotent(d: SourceDirectory, path: string, isDir: string -> bool)
    ensures var once := SetPath(d, path, isDir).0;
      SetPath(once, path, isDir) == (once, [])
  {}

  /** The signals of setting each path in turn. */
  function SetEach(d: SourceDirectory, paths: seq<string>, isDir: string -> bool): (r: (SourceDirectory, seq<DirSignal>))
    decreases |paths|
  {
    if |paths| == 0 then (d, [])
    else
      var before := SetEach(d, paths[..|paths| - 1], isDir);
      var after := SetPath(before.0, paths[|paths| - 1], isDir);
      (after.0, before.1 + after.1)
  }

  /**
   * Over any run of paths the statuses reported alternate, starting with
   * the opposite of the initial flag and ending with the final one; so a
   * listener that follows the signals always knows the flag.
   */
  lemma {:induction false} StatusesAlternate(d: SourceDirectory, paths: seq<string>, isDir: string -> bool)
    ensures var r := SetEach(d, paths, isDir);
      && (forall k :: 0 <= k < |r.1| ==> r.1[k] == PathStatusChanged(if k % 2 == 0 then !d.valid else d.valid))
      && (|paths| > 0 ==> r.0.valid == isDir(paths[|paths| - 1]) && r.0.path == paths[|paths| - 1])
      && (|r.1| > 0 ==> r.1[|r.1| - 1] == PathStatusChanged(r.0.valid))
      && (|r.1| % 2 == 0 <==> r.0.valid == d.valid)
    decreases |paths|
  {
    if |paths| > 0 {
      var front := paths[..|paths| - 1];
      StatusesAlternate(d, front, isDir);
      var before := SetEach(d, front, isDir);
      var after := SetPath(before.0, paths[|paths| - 1], isDir);
      var all := before.1 + after.1;
      forall k | 0 <= k < |all|
        ensures all[k] == PathStatusChanged(if k % 2 == 0 then !d.valid else d.valid)
      {
        if k >= |before.1| {
          assert all[k] == after.1[k - |before.1|];
        }
      }
    }
  }
}
