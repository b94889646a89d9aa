/**
 * The Hasher worker: it hashes the rows of a project's table that still
 * need a hash (or a verification), one at a time, with the CRC-32 engine
 * for the tag "CRC32" and the digest library for every other tag; it polls
 * an abort flag before each row, reports progress after each, and always
 * ends with scanFinished.  Files are read from a `Disk`, the digests come
 * from a function parameter, and an abort raised from another thread is
 * the index of the first poll that sees it.
 */
module Hashing {
  import opened Strings
  import opened Project
  import opened Files
  import Crc32
  import Crypto
  import FileList

  /** Everything outside the program a hash depends on: the files and the digest library. */
  datatype World = World(disk: Disk, digest: Crypto.DigestFunction)

  /** The worker: the CRC engine it owns (with its lazily built table) and the abort flag. */
  datatype Hasher = Hasher(crc: Crc32.Engine, aborted: bool)

  ghost predicate Valid(h: Hasher) {
    Crc32.Valid(h.crc)
  }

  /** The constructor: no table yet, not aborted. */
  const Fresh: Hasher := Hasher(Crc32.Engine(None), false)

  /** The signals the worker emits. */
  datatype Signal =
    | Progress(done: int)
    | ScanFinished
    | Calculated(id: int, algorithm: string, hash: string, verify: bool)

  /** The hash text of the file at `path` under `algorithm`, as a freshly built engine computes it. */
  function Text(w: World, path: string, algorithm: string): string {
    if algorithm == "CRC32" then Crc32.HashFile(Crc32.Engine(None), Lookup(w.disk, path)).text
    else Crypto.HashFile(Lookup(w.disk, path), algorithm, w.digest)
  }

  /** With a digest library of standard sizes, no hash text is empty. */
  lemma TextNotEmpty(w: World, path: string, algorithm: string)
    requires Crypto.StandardSizes(w.digest)
    ensures Text(w, path, algorithm) != ""
  {
    var file := Lookup(w.disk, path);
    if algorithm != "CRC32" && file.Readable? {
      Crypto.HashLength(file, algorithm, w.digest);
    }
  }

  /**
   * One file through the engine the tag selects: "CRC32" exactly selects
   * the CRC engine, which builds its table on the first readable file; any
   * other tag selects the digest library and leaves the CRC engine alone.
   * The text never depends on whether the table existed before.
   */
  function Compute(crc: Crc32.Engine, w: World, path: string, algorithm: string): (r: (Crc32.Engine, string))
    requires Crc32.Valid(crc)
    ensures Crc32.Valid(r.0)
    ensures r.1 == Text(w, path, algorithm)
    ensures algorithm != "CRC32" ==> r.0 == crc
    ensures algorithm == "CRC32" && Lookup(w.disk, path).Readable? ==> r.0.table == Some(Crc32.Table())
  {
    if algorithm == "CRC32" then
      var o := Crc32.HashFile(crc, Lookup(w.disk, path));
      Crc32.LazyTableInvisible(crc, Crc32.Engine(None), Lookup(w.disk, path));
      (o.engine, o.text)
    else (crc, Crypto.HashFile(Lookup(w.disk, path), algorithm, w.digest))
  }

  /** abort: raises the flag. */
  function Abort(h: Hasher): (r: Hasher)
    ensures r.aborted && r.crc == h.crc
  {
    h.(aborted := true)
  }

  /** startProcessWork: lowers the flag. */
  function StartProcessWork(h: Hasher): (r: Hasher)
    ensures !r.aborted && r.crc == h.crc
  {
    h.(aborted := false)
  }

  /** noMoreFiles: scanFinished at once. */
  function NoMoreFiles(): (r: seq<Signal>)
    ensures r == [ScanFinished]
  {
    [ScanFinished]
  }

  /**
   * hashFile: while aborted, the empty text and no signal.  Otherwise the
   * file at the directory path followed by the file name is hashed with
   * the engine the tag selects, and the result is signalled only for a
   * row index, not for the -1 of a direct call.
   */
  function HashFile(h: Hasher, id: int, basepath: string, file: File, algorithm: string, verify: bool, w: World): (r: (Hasher, string, seq<Signal>))
    requires Valid(h)
    ensures Valid(r.0) && r.0.aborted == h.aborted
    ensures h.aborted ==> r == (h, "", [])
    ensures !h.aborted ==> r.1 == Text(w, basepath + file.filename, algorithm)
    ensures r.2 == if !h.aborted && id > -1 then [Calculated(id, algorithm, r.1, verify)] else []
  {
    if h.aborted then (h, "", [])
    else
      var out := Compute(h.crc, w, basepath + file.filename, algorithm);
      (h.(crc := out.0), out.1, if id > -1 then [Calculated(id, algorithm, out.1, verify)] else [])
  }

  // ---------------------------------------------------------------------
  // hashProject

  /** A row is hashed when verifying a hashed, unverified row, or when hashing a row without a hash. */
  predicate Selected(row: FileList.Row, verify: bool) {
    (verify && row.hash != "" && row.verify == "") || (!verify && row.hash == "")
  }

  /** Verification uses the row's own algorithm; hashing uses the project's. */
  function AlgorithmFor(row: FileList.Row, verify: bool, settings: Settings): string {
    if verify then row.algorithm else settings.algorithm
  }

  /** A name starting with the separator is already a full path; any other is taken inside the directory. */
  predicate Absolute(name: string) {
    |name| > 0 && name[0] == Separator
  }

  /** The path of a row's file: the name itself when absolute, else the directory with a trailing separator and the name. */
  function PathFor(basepath: string, name: string): (path: string)
    ensures Absolute(name) ==> path == name
    ensures !Absolute(name) && |basepath| > 0 && basepath[|basepath| - 1] == Separator ==> path == basepath + name
    ensures !Absolute(name) && (|basepath| == 0 || basepath[|basepath| - 1] != Separator) ==> path == basepath + [Separator] + name
  {
    if Absolute(name) then name else WithSeparator(basepath) + name
  }

  /** A hash text for each path and algorithm tag: what the engines compute, abstracted. */
  type Oracle = (string, string) -> string

  /** The engines of the model as an oracle. */
  function Engines(w: World): Oracle {
    (path, algorithm) => Text(w, path, algorithm)
  }

  ghost predicate NonEmpty(o: Oracle) {
    forall path, algorithm :: o(path, algorithm) != ""
  }

  /** With a digest library of standard sizes the engines never give an empty text. */
  lemma EnginesNonEmpty(w: World)
    requires Crypto.StandardSizes(w.digest)
    ensures NonEmpty(Engines(w))
  {
    forall path, algorithm
      ensures Engines(w)(path, algorithm) != ""
    {
      TextNotEmpty(w, path, algorithm);
    }
  }

  /** The signals for row `i`: the result when the row is selected, then progress i+1. */
  function RowSignals(rows: seq<FileList.Row>, i: int, verify: bool, basepath: string, settings: Settings, o: Oracle): seq<Signal>
    requires 0 <= i < |rows|
  {
    var row := rows[i];
    var algorithm := AlgorithmFor(row, verify, settings);
    (if Selected(row, verify) then [Calculated(i, algorithm, o(PathFor(basepath, row.name), algorithm), verify)] else [])
      + [Progress(i + 1)]
  }

  /** The signals for the first `n` rows, in row order. */
  function Planned(rows: seq<FileList.Row>, verify: bool, basepath: string, settings: Settings, o: Oracle, n: nat): seq<Signal>
    requires n <= |rows|
  {
    if n == 0 then []
    else Planned(rows, verify, basepath, settings, o, n - 1) + RowSignals(rows, n - 1, verify, basepath, settings, o)
  }

  /** The number of rows processed: all of them, or those before the poll that first sees the abort. */
  function Stop(n: nat, abortAt: Option<nat>): (k: nat)
    ensures k <= n
    ensures abortAt.None? ==> k == n
  {
    match abortAt
    case None => n
    case Some(a) => if a < n then a else n
  }

  /**
   * hashProject over the table's rows.  The abort flag is first seen set
   * by the poll before row `abortAt` (never, for None; a value past the
   * last row means the flag is raised after the last poll).  The CRC
   * engine is carried from file to file.
   */
  method HashProject(h: Hasher, rows: seq<FileList.Row>, verify: bool, basepath: string, settings: Settings, w: World, abortAt: Option<nat>)
    returns (next: Hasher, signals: seq<Signal>)
    requires Valid(h)
    ensures Valid(next) && next.aborted == abortAt.Some?
    ensures signals == Planned(rows, verify, basepath, settings, Engines(w), Stop(|rows|, abortAt)) + [ScanFinished]
    ensures |signals| > 0 && ScanFinished !in signals[..|signals| - 1]
  {
    var crc := StartProcessWork(h).crc;
    var n := Stop(|rows|, abortAt);
    signals := [];
    var i := 0;
    while i < |rows|
      invariant i <= n
      invariant Crc32.Valid(crc)
      invariant signals == Planned(rows, verify, basepath, settings, Engines(w), i)
    {
      if abortAt.Some? && abortAt.value <= i {
        break;
      }
      var row := rows[i];
      var step: seq<Signal> := [];
      if Selected(row, verify) {
        var algorithm := AlgorithmFor(row, verify, settings);
        var out := Compute(crc, w, PathFor(basepath, row.name), algorithm);
        crc := out.0;
        step := [Calculated(i, algorithm, out.1, verify)];
      }
      step := step + [Progress(i + 1)];
      assert step == RowSignals(rows, i, verify, basepath, settings, Engines(w));
      signals := signals + step;
      i := i + 1;
    }
    PlannedSound(rows, verify, basepath, settings, Engines(w), n);
    signals := signals + [ScanFinished];
    assert signals[..|signals| - 1] == Planned(rows, verify, basepath, settings, Engines(w), n);
    next := Hasher(crc, abortAt.Some?);
  }

  /**
   * Every planned signal is progress 1..n or the result for a selected row
   * below `n`, with that row's algorithm and the hash of its file.
   */
  lemma {:induction false} PlannedSound(rows: seq<FileList.Row>, verify: bool, basepath: string, settings: Settings, o: Oracle, n: nat)
    requires n <= |rows|
    ensures forall e :: e in Planned(rows, verify, basepath, settings, o, n) ==>
      match e
      case Progress(k) => 1 <= k <= n
      case ScanFinished => false
      case Calculated(id, algorithm, hash, v) =>
        && 0 <= id < n && Selected(rows[id], verify) && v == verify
        && algorithm == AlgorithmFor(rows[id], verify, settings)
        && hash == o(PathFor(basepath, rows[id].name), algorithm)
    decreases n
  {
    if n > 0 {
      PlannedSound(rows, verify, basepath, settings, o, n - 1);
    }
  }

  /** Every row below `n` has its progress signal, and its result when selected. */
  lemma {:induction false} PlannedComplete(rows: seq<FileList.Row>, verify: bool, basepath: string, settings: Settings, o: Oracle, n: nat, i: int)
    requires 0 <= i < n <= |rows|
    ensures Progress(i + 1) in Planned(rows, verify, basepath, settings, o, n)
    ensures Selected(rows[i], verify) ==>
      var algorithm := AlgorithmFor(rows[i], verify, settings);
      Calculated(i, algorithm, o(PathFor(basepath, rows[i].name), algorithm), verify) in Planned(rows, verify, basepath, settings, o, n)
    decreases n
  {
    if i < n - 1 {
      PlannedComplete(rows, verify, basepath, settings, o, n - 1, i);
    }
  }

  /** The progress values among some signals, in order. */
  function Progresses(signals: seq<Signal>): seq<int>
    decreases |signals|
  {
    if |signals| == 0 then []
    else
      var last := signals[|signals| - 1];
      Progresses(signals[..|signals| - 1]) + (if last.Progress? then [last.done] else [])
  }

  lemma {:induction false} ProgressesAppend(a: seq<Signal>, b: seq<Signal>)
    ensures Progresses(a + b) == Progresses(a) + Progresses(b)
    decreases |b|
  {
    if |b| == 0 {
      assert a + b == a;
    } else {
      assert (a + b)[..|a + b| - 1] == a + b[..|b| - 1];
      ProgressesAppend(a, b[..|b| - 1]);
    }
  }

  /** Progress counts up by one from 1 to the number of rows processed: strictly increasing, reaching the row count without an abort. */
  lemma {:induction false} ProgressCounts(rows: seq<FileList.Row>, verify: bool, basepath: string, settings: Settings, o: Oracle, n: nat)
    requires n <= |rows|
    ensures var p := Progresses(Planned(rows, verify, basepath, settings, o, n));
      |p| == n && forall k :: 0 <= k < n ==> p[k] == k + 1
    decreases n
  {
    if n > 0 {
      ProgressCounts(rows, verify, basepath, settings, o, n - 1);
      ProgressesAppend(Planned(rows, verify, basepath, settings, o, n - 1), RowSignals(rows, n - 1, verify, basepath, settings, o));
      RowProgress(rows, n - 1, verify, basepath, settings, o);
    }
  }

  /** One row reports exactly one progress value, its own number plus one. */
  lemma RowProgress(rows: seq<FileList.Row>, i: int, verify: bool, basepath: string, settings: Settings, o: Oracle)
    requires 0 <= i < |rows|
    ensures Progresses(RowSignals(rows, i, verify, basepath, settings, o)) == [i + 1]
  {
    var rs := RowSignals(rows, i, verify, basepath, settings, o);
    var p := Progress(i + 1);
    if Selected(rows[i], verify) {
      assert |rs| == 2 && rs[1] == p && rs[..1][..0] == [];
      assert Progresses(rs[..1]) == [];
    } else {
      assert rs == [p] && rs[..0] == [];
    }
  }

  // ---------------------------------------------------------------------
  // Results delivered to the table

  /** fileHashCalculated for every result among the signals, in order; other signals do not reach the table. */
  function Deliver(s: FileList.State, signals: seq<Signal>): (t: FileList.State)
    ensures |t.rows| == |s.rows| && t.buffer == s.buffer && t.locked == s.locked
    decreases |signals|
  {
    if |signals| == 0 then s
    else
      var t := Deliver(s, signals[..|signals| - 1]);
      var e := signals[|signals| - 1];
      if e.Calculated? then FileList.FileHashCalculated(t, e.id, e.algorithm, e.hash, e.verify).state else t
  }

  lemma {:induction false} DeliverAppend(s: FileList.State, a: seq<Signal>, b: seq<Signal>)
    ensures Deliver(s, a + b) == Deliver(Deliver(s, a), b)
    decreases |b|
  {
    if |b| == 0 {
      assert a + b == a;
    } else {
      assert (a + b)[..|a + b| - 1] == a + b[..|b| - 1];
      DeliverAppend(s, a, b[..|b| - 1]);
    }
  }

  /** A row's result, if it is selected, applied to the table. */
  function Apply(t: FileList.State, rows: seq<FileList.Row>, i: int, verify: bool, basepath: string, settings: Settings, o: Oracle): (u: FileList.State)
    requires 0 <= i < |rows|
    ensures |u.rows| == |t.rows|
  {
    var row := rows[i];
    var algorithm := AlgorithmFor(row, verify, settings);
    if Selected(row, verify) then FileList.FileHashCalculated(t, i, algorithm, o(PathFor(basepath, row.name), algorithm), verify).state
    else t
  }

  /** The results for the first `n` rows of the table applied in row order. */
  function Applied(s: FileList.State, verify: bool, basepath: string, settings: Settings, o: Oracle, n: nat): (t: FileList.State)
    requires n <= |s.rows|
    ensures |t.rows| == |s.rows|
    decreases n
  {
    if n == 0 then s else Apply(Applied(s, verify, basepath, settings, o, n - 1), s.rows, n - 1, verify, basepath, settings, o)
  }

  /** The signals of one row reach only that row: the result, if any, then progress. */
  lemma DeliverRow(t: FileList.State, rows: seq<FileList.Row>, i: int, verify: bool, basepath: string, settings: Settings, o: Oracle)
    requires 0 <= i < |rows|
    ensures Deliver(t, RowSignals(rows, i, verify, basepath, settings, o)) == Apply(t, rows, i, verify, basepath, settings, o)
  {
    var row := rows[i];
    var algorithm := AlgorithmFor(row, verify, settings);
    var e := Calculated(i, algorithm, o(PathFor(basepath, row.name), algorithm), verify);
    var rs := RowSignals(rows, i, verify, basepath, settings, o);
    if Selected(row, verify) {
      assert rs == [e, Progress(i + 1)];
      assert rs[..1] == [e] && rs[..1][..0] == [];
      assert Deliver(t, rs) == Deliver(t, rs[..1]);
      assert Deliver(t, rs[..1]) == FileList.FileHashCalculated(Deliver(t, []), i, e.algorithm, e.hash, verify).state;
    } else {
      assert rs == [Progress(i + 1)] && rs[..0] == [];
      assert Deliver(t, rs) == Deliver(t, []);
    }
  }

  /** Delivering the planned signals is applying the rows' results in order. */
  lemma {:induction false} DeliverApplied(s: FileList.State, verify: bool, basepath: string, settings: Settings, o: Oracle, n: nat)
    requires n <= |s.rows|
    ensures Deliver(s, Planned(s.rows, verify, basepath, settings, o, n)) == Applied(s, verify, basepath, settings, o, n)
    decreases n
  {
    if n > 0 {
      var earlier := Planned(s.rows, verify, basepath, settings, o, n - 1);
      var last := RowSignals(s.rows, n - 1, verify, basepath, settings, o);
      var before := Applied(s, verify, basepath, settings, o, n - 1);
      calc {
        Deliver(s, Planned(s.rows, verify, basepath, settings, o, n));
        Deliver(s, earlier + last);
      == { DeliverAppend(s, earlier, last); }
        Deliver(Deliver(s, earlier), last);
      == { DeliverApplied(s, verify, basepath, settings, o, n - 1); }
        Deliver(before, last);
      == { DeliverRow(before, s.rows, n - 1, verify, basepath, settings, o); }
        Apply(before, s.rows, n - 1, verify, basepath, settings, o);
        Applied(s, verify, basepath, settings, o, n);
      }
    }
  }

  /** A primary result for a row without a hash gives it a hash. */
  lemma FillEmpty(t: FileList.State, id: int, algorithm: string, hash: string)
    requires 0 <= id < |t.rows| && t.rows[id].hash == "" && hash != ""
    ensures FileList.FileHashCalculated(t, id, algorithm, hash, false).state.rows[id].hash != ""
  {
    assert |ToUpper(hash)| == |hash|;
  }

  /** One row's result changes that row only, and only when the row is selected. */
  lemma ApplyFrame(t: FileList.State, rows: seq<FileList.Row>, i: int, verify: bool, basepath: string, settings: Settings, o: Oracle)
    requires 0 <= i < |rows|
    ensures var u := Apply(t, rows, i, verify, basepath, settings, o);
      && |u.rows| == |t.rows|
      && (forall j :: 0 <= j < |t.rows| && j != i ==> u.rows[j] == t.rows[j])
      && (!Selected(rows[i], verify) ==> u == t)
  {}

  /** One row's result, applied while that row is as the worker read it, keeps the counters consistent. */
  lemma ApplyConsistent(t: FileList.State, rows: seq<FileList.Row>, i: int, verify: bool, basepath: string, settings: Settings, o: Oracle)
    requires 0 <= i < |rows| && i < |t.rows| && t.rows[i] == rows[i] && NonEmpty(o) && FileList.Consistent(t)
    ensures FileList.Consistent(Apply(t, rows, i, verify, basepath, settings, o))
  {
    var row := rows[i];
    var algorithm := AlgorithmFor(row, verify, settings);
    if Selected(row, verify) {
      FileList.ResultConsistent(t, i, algorithm, o(PathFor(basepath, row.name), algorithm), verify);
    }
  }

  /** One row's result, applied while that row is as the worker read it: a hashed row gets a hash, a verified row its verdict. */
  lemma ApplyResult(t: FileList.State, rows: seq<FileList.Row>, i: int, verify: bool, basepath: string, settings: Settings, o: Oracle)
    requires 0 <= i < |rows| && i < |t.rows| && t.rows[i] == rows[i] && NonEmpty(o) && Selected(rows[i], verify)
    ensures var u := Apply(t, rows, i, verify, basepath, settings, o);
      && (!verify ==> u.rows[i].hash != "")
      && (verify ==>
          var text := ToUpper(o(PathFor(basepath, rows[i].name), rows[i].algorithm));
          && u.rows[i].hash == rows[i].hash && u.rows[i].verify == text
          && (u.rows[i].verdict == "MATCH" <==> rows[i].hash == text))
  {
    var row := rows[i];
    var algorithm := AlgorithmFor(row, verify, settings);
    var text := o(PathFor(basepath, row.name), algorithm);
    if verify {
      FileList.VerifyVerdict(t, i, algorithm, text);
    } else {
      FillEmpty(t, i, algorithm, text);
    }
  }

  /** Applying the first `n` rows' results leaves every other row, and every unselected row, as it was. */
  lemma {:induction false} AppliedFrame(s: FileList.State, verify: bool, basepath: string, settings: Settings, o: Oracle, n: nat)
    requires n <= |s.rows|
    ensures var t := Applied(s, verify, basepath, settings, o, n);
      && |t.rows| == |s.rows|
      && forall i :: 0 <= i < |s.rows| && (n <= i || !Selected(s.rows[i], verify)) ==> t.rows[i] == s.rows[i]
    decreases n
  {
    if n > 0 {
      AppliedFrame(s, verify, basepath, settings, o, n - 1);
      ApplyFrame(Applied(s, verify, basepath, settings, o, n - 1), s.rows, n - 1, verify, basepath, settings, o);
    }
  }

  /** Applying the first `n` rows' results keeps the counters consistent. */
  lemma {:induction false} AppliedConsistent(s: FileList.State, verify: bool, basepath: string, settings: Settings, o: Oracle, n: nat)
    requires n <= |s.rows| && NonEmpty(o) && FileList.Consistent(s)
    ensures FileList.Consistent(Applied(s, verify, basepath, settings, o, n))
    decreases n
  {
    if n > 0 {
      AppliedConsistent(s, verify, basepath, settings, o, n - 1);
      AppliedFrame(s, verify, basepath, settings, o, n - 1);
      ApplyConsistent(Applied(s, verify, basepath, settings, o, n - 1), s.rows, n - 1, verify, basepath, settings, o);
    }
  }

  /** After the first `n` rows' results, each selected row among them carries its result. */
  lemma {:induction false} AppliedResults(s: FileList.State, verify: bool, basepath: string, settings: Settings, o: Oracle, n: nat)
    requires n <= |s.rows| && NonEmpty(o)
    ensures var t := Applied(s, verify, basepath, settings, o, n);
      forall i :: 0 <= i < n && Selected(s.rows[i], verify) ==>
        && (!verify ==> t.rows[i].hash != "")
        && (verify ==>
            var text := ToUpper(o(PathFor(basepath, s.rows[i].name), s.rows[i].algorithm));
            && t.rows[i].hash == s.rows[i].hash && t.rows[i].verify == text
            && (t.rows[i].verdict == "MATCH" <==> s.rows[i].hash == text))
    decreases n
  {
    if n > 0 {
      var t := Applied(s, verify, basepath, settings, o, n - 1);
      AppliedResults(s, verify, basepath, settings, o, n - 1);
      AppliedFrame(s, verify, basepath, settings, o, n - 1);
      ApplyFrame(t, s.rows, n - 1, verify, basepath, settings, o);
      if Selected(s.rows[n - 1], verify) {
        ApplyResult(t, s.rows, n - 1, verify, basepath, settings, o);
      }
    }
  }

  /**
   * Hashing the first `n` rows of the table itself and delivering the
   * results gives each of those rows a hash (rows that had one keep it)
   * and leaves the others as they were; the counters stay consistent.
   */
  lemma HashingFills(s: FileList.State, basepath: string, settings: Settings, o: Oracle, n: nat)
    requires n <= |s.rows| && NonEmpty(o) && FileList.Consistent(s)
    ensures var t := Deliver(s, Planned(s.rows, false, basepath, settings, o, n));
      && FileList.Consistent(t)
      && (forall i :: 0 <= i < n ==> t.rows[i].hash != "" && (s.rows[i].hash != "" ==> t.rows[i] == s.rows[i]))
      && (forall i :: n <= i < |s.rows| ==> t.rows[i] == s.rows[i])
  {
    DeliverApplied(s, false, basepath, settings, o, n);
    AppliedFrame(s, false, basepath, settings, o, n);
    AppliedConsistent(s, false, basepath, settings, o, n);
    AppliedResults(s, false, basepath, settings, o, n);
  }

  /**
   * A hashing run that is not aborted, delivered to a non-empty table,
   * completes hashing: every row has a hash and the counters say so.
   */
  lemma HashingCompletes(s: FileList.State, basepath: string, settings: Settings, o: Oracle)
    requires |s.rows| > 0 && NonEmpty(o) && FileList.Consistent(s)
    ensures var t := Deliver(s, Planned(s.rows, false, basepath, settings, o, Stop(|s.rows|, None)) + [ScanFinished]);
      FileList.Consistent(t) && FileList.IsHashCompleted(t)
  {
    var planned := Planned(s.rows, false, basepath, settings, o, |s.rows|);
    HashingFills(s, basepath, settings, o, |s.rows|);
    DeliverAppend(s, planned, [ScanFinished]);
    assert [ScanFinished][..0] == [];
    var t := Deliver(s, planned);
    FileList.Completion(t);
  }

  /**
   * Verifying the first `n` rows of the table itself and delivering the
   * results gives each hashed, unverified row among them the recomputed
   * hash as its verification, MATCH exactly when the stored hash equals
   * it, and touches no other row; the counters stay consistent.
   */
  lemma VerifyingChecks(s: FileList.State, basepath: string, o: Oracle, settings: Settings, n: nat)
    requires n <= |s.rows| && NonEmpty(o) && FileList.Consistent(s)
    ensures var t := Deliver(s, Planned(s.rows, true, basepath, settings, o, n));
      && FileList.Consistent(t)
      && (forall i :: 0 <= i < n && Selected(s.rows[i], true) ==>
          var text := ToUpper(o(PathFor(basepath, s.rows[i].name), s.rows[i].algorithm));
          && t.rows[i].hash == s.rows[i].hash && t.rows[i].verify == text
          && (t.rows[i].verdict == "MATCH" <==> s.rows[i].hash == text))
      && (forall i :: 0 <= i < |s.rows| && (n <= i || !Selected(s.rows[i], true)) ==> t.rows[i] == s.rows[i])
  {
    DeliverApplied(s, true, basepath, settings, o, n);
    AppliedFrame(s, true, basepath, settings, o, n);
    AppliedConsistent(s, true, basepath, settings, o, n);
    AppliedResults(s, true, basepath, settings, o, n);
  }

  /**
   * A hashFile job from a flush of the table names a new row without a
   * hash, under the file's name and with the directory path ending in a
   * separator; whatever text the worker computes for it, delivering the
   * result stores that text upper-cased in the row's Hash cell and the
   * job's tag in its Alg. cell.
   */
  lemma FlushJobFills(s: FileList.State, force: bool, env: FileList.Env, e: FileList.Event, text: string)
    requires FileList.Flushes(s, force)
    requires e in FileList.ProcessBuffer(s, force, env).events && e.HashFile?
    ensures var t := FileList.ProcessBuffer(s, force, env).state;
      && 0 <= e.id < |t.rows| && t.rows[e.id].name == e.file.filename && t.rows[e.id].hash == ""
      && e.basepath == WithSeparator(env.basepath)
      && var u := FileList.FileHashCalculated(t, e.id, e.algorithm, text, false).state;
      && u.rows[e.id].hash == ToUpper(text) && u.rows[e.id].algorithm == e.algorithm
  {
    FileList.FlushJobsSound(s, force, env);
    FileList.FlushAppends(s, force, env);
    var t := FileList.ProcessBuffer(s, force, env).state;
    assert t.rows[e.id] == FileList.Entry(s.buffer[e.id - |s.rows|]);
    FillRow(t, e.id, e.algorithm, text);
  }

  /** A primary result for a row without a hash fills its hash (upper-cased) and its algorithm. */
  lemma FillRow(t: FileList.State, id: int, algorithm: string, text: string)
    requires 0 <= id < |t.rows| && t.rows[id].hash == ""
    ensures var u := FileList.FileHashCalculated(t, id, algorithm, text, false).state;
      u.rows[id].hash == ToUpper(text) && u.rows[id].algorithm == algorithm
  {}
}
