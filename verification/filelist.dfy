/**
 * FileList, the table of a project's files: six text columns per row, a
 * buffer of files waiting to be added, a write lock held while a scan or a
 * hashing run is going on, and the counters the status bar shows.  Every
 * slot runs to completion, so each is a step from one state to the next
 * together with the signals it emits, in order.
 */
module FileList {
  import opened Strings
  import opened Project

  /** The columns Name, Filesize, Hash, Verification, Match and Alg. */
  datatype Row = Row(name: string, size: string, hash: string, verify: string, verdict: string, algorithm: string)

  const ColumnCount: nat := 6

  /** The text of column `k` of a row; the table has no cell beyond its six columns. */
  function Cell(row: Row, k: nat): (r: Option<string>)
    ensures r.Some? <==> k < ColumnCount
  {
    if k == 0 then Some(row.name)
    else if k == 1 then Some(row.size)
    else if k == 2 then Some(row.hash)
    else if k == 3 then Some(row.verify)
    else if k == 4 then Some(row.verdict)
    else if k == 5 then Some(row.algorithm)
    else None
  }

  /** The number of buffered files that makes an unforced addition flush the buffer. */
  const Threshold: nat := 100

  /**
   * The table's rows, the files waiting to be added, the write lock, and
   * the counters of hashes, verifications and failed verifications.
   */
  datatype State = State(rows: seq<Row>, buffer: seq<File>, locked: bool, hashed: int, verified: int, invalid: int)

  /** The signals FileList emits. */
  datatype Event =
    | SizeChanged(rows: int, hashed: int, verified: int, invalid: int)
    | DisplayFile(name: string, hash: string)
    | HashFile(id: int, basepath: string, file: File, algorithm: string)
    | NoMoreFileJobs
    | ProcessingDone

  /** The state after a slot and the signals it emitted. */
  datatype Step = Step(state: State, events: seq<Event>)

  /** What a slot reads from the owning project: the source directory's path and the settings. */
  datatype Env = Env(basepath: string, settings: Settings)

  /** The freshly constructed list: no rows, unlocked, every counter zero. */
  const Initial: State := State([], [], false, 0, 0, 0)

  /** fileListSizeChanged with the current row count and counters. */
  function Report(s: State): Event {
    SizeChanged(|s.rows|, s.hashed, s.verified, s.invalid)
  }

  // ---------------------------------------------------------------------
  // Counting rows

  predicate Hashed(row: Row) {
    row.hash != ""
  }

  predicate Verified(row: Row) {
    row.verify != ""
  }

  predicate Invalid(row: Row) {
    row.verdict == "INVALID"
  }

  /** The number of rows satisfying `p`. */
  function Count(rows: seq<Row>, p: Row -> bool): (n: nat)
    ensures n <= |rows|
    decreases |rows|
  {
    if |rows| == 0 then 0
    else Count(rows[..|rows| - 1], p) + (if p(rows[|rows| - 1]) then 1 else 0)
  }

  lemma {:induction false} CountAppend(a: seq<Row>, b: seq<Row>, p: Row -> bool)
    ensures Count(a + b, p) == Count(a, p) + Count(b, p)
    decreases |b|
  {
    if |b| == 0 {
      assert a + b == a;
    } else {
      assert (a + b)[..|a + b| - 1] == a + b[..|b| - 1];
      CountAppend(a, b[..|b| - 1], p);
    }
  }

  /** No row satisfies `p` exactly when the count is zero. */
  lemma {:induction false} CountZero(rows: seq<Row>, p: Row -> bool)
    ensures Count(rows, p) == 0 <==> forall i :: 0 <= i < |rows| ==> !p(rows[i])
    decreases |rows|
  {
    if |rows| > 0 {
      var front := rows[..|rows| - 1];
      CountZero(front, p);
      assert forall i :: 0 <= i < |front| ==> front[i] == rows[i];
    }
  }

  /** Every row satisfies `p` exactly when the count is the number of rows. */
  lemma {:induction false} CountFull(rows: seq<Row>, p: Row -> bool)
    ensures Count(rows, p) == |rows| <==> forall i :: 0 <= i < |rows| ==> p(rows[i])
    decreases |rows|
  {
    if |rows| > 0 {
      var front := rows[..|rows| - 1];
      CountFull(front, p);
      assert forall i :: 0 <= i < |front| ==> front[i] == rows[i];
    }
  }

  /** Replacing one row changes the count by that row alone. */
  lemma {:induction false} CountUpdate(rows: seq<Row>, i: int, row: Row, p: Row -> bool)
    requires 0 <= i < |rows|
    ensures Count(rows[i := row], p) + (if p(rows[i]) then 1 else 0) == Count(rows, p) + (if p(row) then 1 else 0)
    decreases |rows|
  {
    var n := |rows| - 1;
    if i < n {
      assert rows[i := row][..n] == rows[..n][i := row];
      CountUpdate(rows[..n], i, row, p);
    } else {
      assert rows[i := row][..n] == rows[..n];
    }
  }

  /** Rows that agree on `p` row by row have the same count. */
  lemma {:induction false} CountSame(a: seq<Row>, b: seq<Row>, p: Row -> bool)
    requires |a| == |b| && forall i :: 0 <= i < |a| ==> p(a[i]) == p(b[i])
    ensures Count(a, p) == Count(b, p)
    decreases |a|
  {
    if |a| > 0 {
      CountSame(a[..|a| - 1], b[..|b| - 1], p);
    }
  }

  /**
   * The counters match the cells: one hash per hashed row, one
   * verification per verified row, one failure per INVALID row; and a row
   * has a verdict exactly when it has a verification.
   */
  predicate Consistent(s: State) {
    && s.hashed == Count(s.rows, Hashed)
    && s.verified == Count(s.rows, Verified)
    && s.invalid == Count(s.rows, Invalid)
    && forall i :: 0 <= i < |s.rows| ==> (s.rows[i].verify == "" <==> s.rows[i].verdict == "")
  }

  lemma InitialConsistent()
    ensures Consistent(Initial)
  {}

  // ---------------------------------------------------------------------
  // Completion predicates

  predicate IsEmpty(s: State) {
    |s.rows| == 0
  }

  predicate IsHashCompleted(s: State) {
    s.hashed > 0 && s.hashed == |s.rows|
  }

  predicate IsHashPartiallyCompleted(s: State) {
    s.hashed > 0
  }

  predicate IsVerificationCompleted(s: State) {
    s.hashed == s.verified
  }

  predicate IsVerificationPartiallyCompleted(s: State) {
    s.verified > 0
  }

  /**
   * With consistent counters the predicates speak about the rows: hashing
   * is complete when there are rows and every one has a hash, partially
   * complete when some row has one; verification is partially complete
   * when some row is verified, and complete in particular when nothing is
   * hashed and nothing is verified.
   */
  lemma Completion(s: State)
    requires Consistent(s)
    ensures IsHashCompleted(s) <==> |s.rows| > 0 && forall i :: 0 <= i < |s.rows| ==> s.rows[i].hash != ""
    ensures IsHashPartiallyCompleted(s) <==> exists i :: 0 <= i < |s.rows| && s.rows[i].hash != ""
    ensures IsVerificationPartiallyCompleted(s) <==> exists i :: 0 <= i < |s.rows| && s.rows[i].verify != ""
    ensures (forall i :: 0 <= i < |s.rows| ==> s.rows[i].hash == "" && s.rows[i].verify == "") ==> IsVerificationCompleted(s)
  {
    CountFull(s.rows, Hashed);
    CountZero(s.rows, Hashed);
    CountZero(s.rows, Verified);
  }

  // ---------------------------------------------------------------------
  // Slots

  /**
   * writeLock: acquiring fails, changing nothing, while the lock is held;
   * otherwise acquiring takes the lock and empties the buffer, and
   * releasing always succeeds and keeps the buffer.
   */
  function WriteLock(s: State, enable: bool): (r: (State, bool))
    ensures !r.1 <==> enable && s.locked
    ensures !r.1 ==> r.0 == s
    ensures r.1 ==> r.0 == s.(locked := enable, buffer := if enable then [] else s.buffer)
  {
    if enable && s.locked then (s, false)
    else (s.(locked := enable, buffer := if enable then [] else s.buffer), true)
  }

  /** Locking is exclusive: a second acquisition fails until a release, after which it succeeds again. */
  lemma LockExclusive(s: State)
    ensures var a := WriteLock(s, true);
      a.1 ==> !WriteLock(a.0, true).1 && WriteLock(WriteLock(a.0, false).0, true).1
    ensures WriteLock(s, false).1 && !WriteLock(s, false).0.locked
  {}

  /** clearContents: no rows and all counters zero; the buffer and the lock are kept. */
  function ClearContents(s: State): (r: Step)
    ensures r.state.rows == [] && r.state.hashed == 0 && r.state.verified == 0 && r.state.invalid == 0
    ensures r.state.buffer == s.buffer && r.state.locked == s.locked
    ensures r.events == [SizeChanged(0, 0, 0, 0), DisplayFile("", "")]
  {
    var t := s.(rows := [], hashed := 0, verified := 0, invalid := 0);
    Step(t, [Report(t), DisplayFile("", "")])
  }

  lemma ClearConsistent(s: State)
    ensures Consistent(ClearContents(s).state) && IsEmpty(ClearContents(s).state)
  {}

  function ClearVerification(rows: seq<Row>): (r: seq<Row>)
    ensures |r| == |rows|
    ensures forall i :: 0 <= i < |rows| ==> r[i] == rows[i].(verify := "", verdict := "")
  {
    seq(|rows|, i requires 0 <= i < |rows| => rows[i].(verify := "", verdict := ""))
  }

  function ClearHash(rows: seq<Row>): (r: seq<Row>)
    ensures |r| == |rows|
    ensures forall i :: 0 <= i < |rows| ==> r[i] == rows[i].(hash := "", algorithm := "")
  {
    seq(|rows|, i requires 0 <= i < |rows| => rows[i].(hash := "", algorithm := ""))
  }

  /**
   * removeVerifications: when a verification or a failure is counted, the
   * Verification and Match cells are emptied and both counters zeroed;
   * the counters are reported in any case.
   */
  function RemoveVerifications(s: State): (r: Step)
    ensures r.events == [Report(r.state)]
  {
    var t :=
      if s.verified != 0 || s.invalid != 0 then s.(rows := ClearVerification(s.rows), verified := 0, invalid := 0)
      else s;
    Step(t, [Report(t)])
  }

  /** removeHashes: nothing when no hash is counted; otherwise every hash and algorithm cell is emptied and the verifications go too. */
  function RemoveHashes(s: State): (r: Step)
    ensures s.hashed == 0 ==> r == Step(s, [])
  {
    if s.hashed == 0 then Step(s, [])
    else RemoveVerifications(s.(rows := ClearHash(s.rows), hashed := 0))
  }

  /**
   * On consistent counters, removing verifications leaves every row's name,
   * size, hash and algorithm and no verification; removing hashes also
   * leaves no hash, and no algorithm and no verification when a hash was
   * counted (with none counted it changes nothing).  Both keep the counters
   * consistent.
   */
  lemma RemoveVerificationsKeeps(s: State)
    requires Consistent(s)
    ensures var t := RemoveVerifications(s).state;
      && Consistent(t) && t.verified == 0 && t.invalid == 0 && t.hashed == s.hashed && |t.rows| == |s.rows|
      && forall i :: 0 <= i < |s.rows| ==>
        && t.rows[i].name == s.rows[i].name && t.rows[i].size == s.rows[i].size && t.rows[i].hash == s.rows[i].hash
        && t.rows[i].verify == "" && t.rows[i].verdict == "" && t.rows[i].algorithm == s.rows[i].algorithm
  {
    if s.verified != 0 || s.invalid != 0 {
      var rows := ClearVerification(s.rows);
      CountSame(rows, s.rows, Hashed);
      CountZero(rows, Verified);
      CountZero(rows, Invalid);
    } else {
      CountZero(s.rows, Verified);
      CountZero(s.rows, Invalid);
    }
  }

  lemma RemoveHashesKeeps(s: State)
    requires Consistent(s)
    ensures var t := RemoveHashes(s).state;
      && Consistent(t) && t.hashed == 0 && |t.rows| == |s.rows|
      && forall i :: 0 <= i < |s.rows| ==> t.rows[i].name == s.rows[i].name && t.rows[i].size == s.rows[i].size && t.rows[i].hash == ""
    ensures s.hashed != 0 ==>
      var t := RemoveHashes(s).state;
      && t.verified == 0 && t.invalid == 0
      && forall i :: 0 <= i < |s.rows| ==> t.rows[i].verify == "" && t.rows[i].verdict == "" && t.rows[i].algorithm == ""
  {
    if s.hashed == 0 {
      CountZero(s.rows, Hashed);
    } else {
      var u := s.(rows := ClearHash(s.rows), hashed := 0);
      CountZero(u.rows, Hashed);
      CountSame(u.rows, s.rows, Verified);
      CountSame(u.rows, s.rows, Invalid);
      RemoveVerificationsKeeps(u);
    }
  }

  /** The size cell: the size in decimal when there is one and it is not negative, else empty. */
  function SizeText(size: Option<int>): string {
    match size
    case Some(n) => if n >= 0 then Decimal(n) else ""
    case None => ""
  }

  /** The row a buffered file becomes: hash and algorithm upper-cased, no verification. */
  function Entry(f: File): (row: Row)
    ensures row.verify == "" && row.verdict == ""
    ensures Hashed(row) <==> f.hash != ""
  {
    Row(f.filename, SizeText(f.filesize), ToUpper(f.hash), "", "", ToUpper(f.algorithm))
  }

  function Entries(files: seq<File>): (rows: seq<Row>)
    ensures |rows| == |files|
    ensures forall i :: 0 <= i < |files| ==> rows[i] == Entry(files[i])
  {
    seq(|files|, i requires 0 <= i < |files| => Entry(files[i]))
  }

  /** The hashFile signals of a flush: one per file without a hash, when hashing follows scanning at once. */
  function Jobs(files: seq<File>, id: int, basepath: string, settings: Settings): seq<Event>
    decreases |files|
  {
    if |files| == 0 then []
    else
      (if files[0].hash == "" && settings.scanImmediately then [HashFile(id, basepath, files[0], settings.algorithm)] else [])
      + Jobs(files[1..], id + 1, basepath, settings)
  }

  /**
   * The flush itself: the buffered files appended as rows in buffer order,
   * their hashes counted, hashFile emitted for each unhashed one with its
   * new row index, and the counters reported.
   */
  function Flush(s: State, env: Env): Step {
    var added := Entries(s.buffer);
    var t := s.(rows := s.rows + added, buffer := [], hashed := s.hashed + Count(added, Hashed));
    Step(t, Jobs(s.buffer, |s.rows|, WithSeparator(env.basepath), env.settings) + [Report(t)])
  }

  /**
   * processBuffer: nothing while unlocked; locked with an empty buffer,
   * only noMoreFileJobs; fewer than 100 buffered files and no force,
   * nothing; otherwise a flush.  The in-loop rollback for a lock released
   * mid-flush cannot happen here: nothing in the flush releases the lock.
   */
  function ProcessBuffer(s: State, force: bool, env: Env): (r: Step)
    ensures !s.locked ==> r == Step(s, [])
    ensures s.locked && |s.buffer| == 0 ==> r == Step(s, [NoMoreFileJobs])
    ensures s.locked && 0 < |s.buffer| < Threshold && !force ==> r == Step(s, [])
  {
    if !s.locked then Step(s, [])
    else if |s.buffer| == 0 then Step(s, [NoMoreFileJobs])
    else if !force && |s.buffer| < Threshold then Step(s, [])
    else Flush(s, env)
  }

  /** The buffer is flushed when the list is locked, holds files, and the flush is forced or the threshold is reached. */
  predicate Flushes(s: State, force: bool) {
    s.locked && |s.buffer| > 0 && (force || |s.buffer| >= Threshold)
  }

  /**
   * A flush keeps the old rows, appends one row per buffered file in
   * buffer order (the file's name, its size, its hash and algorithm
   * upper-cased, no verification), empties the buffer, keeps the lock,
   * and ends by reporting the new counters.
   */
  lemma FlushAppends(s: State, force: bool, env: Env)
    requires Flushes(s, force)
    ensures var t := ProcessBuffer(s, force, env);
      && |t.state.rows| == |s.rows| + |s.buffer|
      && t.state.rows[..|s.rows|] == s.rows
      && (forall j :: 0 <= j < |s.buffer| ==> t.state.rows[|s.rows| + j] == Entry(s.buffer[j]))
      && t.state.buffer == [] && t.state.locked
      && |t.events| > 0 && t.events[|t.events| - 1] == Report(t.state)
  {
    var t := Flush(s, env);
    assert ProcessBuffer(s, force, env) == t;
    var added := Entries(s.buffer);
    assert t.state.rows == s.rows + added;
    assert (s.rows + added)[..|s.rows|] == s.rows;
    forall j | 0 <= j < |s.buffer|
      ensures t.state.rows[|s.rows| + j] == Entry(s.buffer[j])
    {
      assert (s.rows + added)[|s.rows| + j] == added[j];
    }
  }

  /** Every hashFile signal of a flush names a buffered file without a hash, by its new row index. */
  lemma {:induction false} JobsSound(files: seq<File>, id: int, basepath: string, settings: Settings)
    ensures forall e :: e in Jobs(files, id, basepath, settings) ==>
      && e.HashFile? && id <= e.id < id + |files| && e.file == files[e.id - id] && e.file.hash == ""
      && settings.scanImmediately && e.basepath == basepath && e.algorithm == settings.algorithm
    decreases |files|
  {
    if |files| > 0 {
      var rest := Jobs(files[1..], id + 1, basepath, settings);
      JobsSound(files[1..], id + 1, basepath, settings);
      forall e | e in rest
        ensures e.HashFile? && id < e.id < id + |files| && e.file == files[e.id - id]
      {
        assert files[1..][e.id - (id + 1)] == files[e.id - id];
      }
    }
  }

  /** Every buffered file without a hash gets its hashFile signal when hashing follows scanning at once. */
  lemma {:induction false} JobsComplete(files: seq<File>, id: int, basepath: string, settings: Settings, j: int)
    requires 0 <= j < |files| && files[j].hash == "" && settings.scanImmediately
    ensures HashFile(id + j, basepath, files[j], settings.algorithm) in Jobs(files, id, basepath, settings)
    decreases |files|
  {
    if j > 0 {
      assert files[1..][j - 1] == files[j];
      JobsComplete(files[1..], id + 1, basepath, settings, j - 1);
    }
  }

  /** The events of a flush are its hashFile signals followed by the report. */
  lemma FlushEvents(s: State, force: bool, env: Env)
    requires Flushes(s, force)
    ensures var t := ProcessBuffer(s, force, env);
      && t.events == Jobs(s.buffer, |s.rows|, WithSeparator(env.basepath), env.settings) + [Report(t.state)]
      && |t.state.rows| == |s.rows| + |s.buffer|
  {
    assert ProcessBuffer(s, force, env) == Flush(s, env);
  }

  /**
   * The hashFile signals of a flush name only appended rows whose file has
   * no hash, by their new row index, with the source directory's path
   * ending in a separator, and only when hashing follows scanning at once.
   */
  lemma FlushJobsSound(s: State, force: bool, env: Env)
    requires Flushes(s, force)
    ensures var t := ProcessBuffer(s, force, env);
      forall e :: e in t.events && e.HashFile? ==>
        && |s.rows| <= e.id < |t.state.rows| && e.file == s.buffer[e.id - |s.rows|]
        && e.file.hash == "" && env.settings.scanImmediately && e.basepath == WithSeparator(env.basepath)
  {
    var t := ProcessBuffer(s, force, env);
    var jobs := Jobs(s.buffer, |s.rows|, WithSeparator(env.basepath), env.settings);
    FlushEvents(s, force, env);
    JobsSound(s.buffer, |s.rows|, WithSeparator(env.basepath), env.settings);
    forall e | e in t.events && e.HashFile?
      ensures |s.rows| <= e.id < |t.state.rows| && e.file == s.buffer[e.id - |s.rows|]
      ensures e.file.hash == "" && env.settings.scanImmediately && e.basepath == WithSeparator(env.basepath)
    {
      assert e in jobs + [Report(t.state)];
      assert e in jobs;
    }
  }

  /** Every buffered file without a hash gets a hashFile signal with its new row index when hashing follows scanning at once. */
  lemma FlushJobsComplete(s: State, force: bool, env: Env, j: int)
    requires Flushes(s, force) && 0 <= j < |s.buffer| && s.buffer[j].hash == "" && env.settings.scanImmediately
    ensures HashFile(|s.rows| + j, WithSeparator(env.basepath), s.buffer[j], env.settings.algorithm) in ProcessBuffer(s, force, env).events
  {
    var t := ProcessBuffer(s, force, env);
    var jobs := Jobs(s.buffer, |s.rows|, WithSeparator(env.basepath), env.settings);
    FlushEvents(s, force, env);
    JobsComplete(s.buffer, |s.rows|, WithSeparator(env.basepath), env.settings, j);
    InFront(jobs, [Report(t.state)], HashFile(|s.rows| + j, WithSeparator(env.basepath), s.buffer[j], env.settings.algorithm));
  }

  lemma InFront<T>(a: seq<T>, b: seq<T>, x: T)
    requires x in a
    ensures x in a + b
  {}

  /** A flush keeps the counters consistent. */
  lemma FlushConsistent(s: State, force: bool, env: Env)
    requires Consistent(s) && Flushes(s, force)
    ensures Consistent(ProcessBuffer(s, force, env).state)
  {
    var added := Entries(s.buffer);
    assert ProcessBuffer(s, force, env).state == s.(rows := s.rows + added, buffer := [], hashed := s.hashed + Count(added, Hashed));
    AppendCounts(s.rows, added);
    AppendPaired(s.rows, added);
  }

  /** Rows without verifications add hashes to the count but no verifications or failures. */
  lemma AppendCounts(rows: seq<Row>, added: seq<Row>)
    requires forall i :: 0 <= i < |added| ==> added[i].verify == "" && added[i].verdict == ""
    ensures Count(rows + added, Hashed) == Count(rows, Hashed) + Count(added, Hashed)
    ensures Count(rows + added, Verified) == Count(rows, Verified)
    ensures Count(rows + added, Invalid) == Count(rows, Invalid)
  {
    CountAppend(rows, added, Hashed);
    CountAppend(rows, added, Verified);
    CountZero(added, Verified);
    CountAppend(rows, added, Invalid);
    CountZero(added, Invalid);
  }

  /** Verification and verdict stay paired when rows without either are appended. */
  lemma AppendPaired(rows: seq<Row>, added: seq<Row>)
    requires forall i :: 0 <= i < |rows| ==> (rows[i].verify == "" <==> rows[i].verdict == "")
    requires forall i :: 0 <= i < |added| ==> added[i].verify == "" && added[i].verdict == ""
    ensures forall i :: 0 <= i < |rows + added| ==> ((rows + added)[i].verify == "" <==> (rows + added)[i].verdict == "")
  {
    forall i | 0 <= i < |rows + added|
      ensures (rows + added)[i].verify == "" <==> (rows + added)[i].verdict == ""
    {
      if i >= |rows| {
        assert (rows + added)[i] == added[i - |rows|];
      }
    }
  }

  /** addFile: the file joins the buffer, which is then processed without force unless asked. */
  function AddFile(s: State, f: File, force: bool, env: Env): Step {
    ProcessBuffer(s.(buffer := s.buffer + [f]), force, env)
  }

  /**
   * Single additions are batched: while the list is locked, the first 99
   * buffered files only wait, and the one that makes 100 flushes them all.
   */
  lemma Batching(s: State, f: File, env: Env)
    requires s.locked
    ensures |s.buffer| + 1 < Threshold ==> AddFile(s, f, false, env) == Step(s.(buffer := s.buffer + [f]), [])
    ensures |s.buffer| + 1 >= Threshold ==>
      var t := AddFile(s, f, false, env).state;
      t.buffer == [] && |t.rows| == |s.rows| + |s.buffer| + 1
  {}

  /** addFiles: the files join the buffer, which is flushed, then noMoreFileJobs. */
  function AddFiles(s: State, files: seq<File>, env: Env): (r: Step)
    ensures |r.events| > 0 && r.events[|r.events| - 1] == NoMoreFileJobs
    ensures s.locked ==> r.state.buffer == []
  {
    var t := ProcessBuffer(s.(buffer := s.buffer + files), true, env);
    Step(t.state, t.events + [NoMoreFileJobs])
  }

  /** fileAdditionFinished: the buffer is flushed whatever its size, then noMoreFileJobs. */
  function FileAdditionFinished(s: State, env: Env): (r: Step)
    ensures |r.events| > 0 && r.events[|r.events| - 1] == NoMoreFileJobs
    ensures s.locked ==> r.state.buffer == []
  {
    var t := ProcessBuffer(s, true, env);
    Step(t.state, t.events + [NoMoreFileJobs])
  }

  /** On a locked list with nothing buffered, fileAdditionFinished emits noMoreFileJobs twice. */
  lemma FinishedTwice(s: State, env: Env)
    requires s.locked && |s.buffer| == 0
    ensures FileAdditionFinished(s, env) == Step(s, [NoMoreFileJobs, NoMoreFileJobs])
  {}

  /** The rows the table will have once its buffer is flushed. */
  function Pending(s: State): seq<Row> {
    s.rows + Entries(s.buffer)
  }

  lemma EntriesAppend(a: seq<File>, b: seq<File>)
    ensures Entries(a + b) == Entries(a) + Entries(b)
  {
    assert forall i :: 0 <= i < |a + b| ==> Entries(a + b)[i] == (Entries(a) + Entries(b))[i];
  }

  /** On a locked list one addFile, batched or not, extends the pending rows by the file's row. */
  lemma AddFilePending(s: State, f: File, force: bool, env: Env)
    requires s.locked
    ensures var t := AddFile(s, f, force, env).state;
      t.locked && Pending(t) == Pending(s) + [Entry(f)]
  {
    var u := s.(buffer := s.buffer + [f]);
    EntriesAppend(s.buffer, [f]);
    assert Entries([f]) == [Entry(f)];
    if Flushes(u, force) {
      assert ProcessBuffer(u, force, env) == Flush(u, env);
      assert Entries([]) == [];
    }
  }

  /** fileFound delivered to addFile for each file in turn, without forcing. */
  function AddEach(s: State, files: seq<File>, env: Env): State
    decreases |files|
  {
    if |files| == 0 then s
    else AddFile(AddEach(s, files[..|files| - 1], env), files[|files| - 1], false, env).state
  }

  /**
   * Batching is invisible in the end: files added one at a time to a
   * locked list and then finished leave the same rows, with an empty
   * buffer, as all of them added at once.
   */
  lemma {:induction false} AddEachPending(s: State, files: seq<File>, env: Env)
    requires s.locked
    ensures var t := AddEach(s, files, env);
      t.locked && Pending(t) == Pending(s) + Entries(files)
    decreases |files|
  {
    if |files| == 0 {
      assert Entries([]) == [];
    } else {
      var front := files[..|files| - 1];
      AddEachPending(s, front, env);
      AddFilePending(AddEach(s, front, env), files[|files| - 1], false, env);
      EntriesAppend(front, [files[|files| - 1]]);
      assert Entries([files[|files| - 1]]) == [Entry(files[|files| - 1])];
      assert front + [files[|files| - 1]] == files;
    }
  }

  lemma BatchingInvisible(s: State, files: seq<File>, env: Env)
    requires s.locked
    ensures var t := FileAdditionFinished(AddEach(s, files, env), env).state;
      t.buffer == [] && t.rows == AddFiles(s, files, env).state.rows
  {
    AddEachPending(s, files, env);
    FinishMatches(AddEach(s, files, env), s, files, env);
  }

  /** Finishing any locked list whose pending rows are those of `s` plus `files` gives the rows addFiles would. */
  lemma FinishMatches(u: State, s: State, files: seq<File>, env: Env)
    requires s.locked && u.locked && Pending(u) == Pending(s) + Entries(files)
    ensures var t := FileAdditionFinished(u, env).state;
      t.buffer == [] && t.rows == AddFiles(s, files, env).state.rows
  {
    FinishFlushes(u, env);
    EntriesAppend(s.buffer, files);
    AddFilesFlushes(s, files, env);
  }

  /** Flushing with force on a locked list moves every pending row into the table. */
  lemma ForcedFlush(s: State, env: Env)
    requires s.locked
    ensures var t := ProcessBuffer(s, true, env).state;
      t.buffer == [] && t.locked && t.rows == Pending(s)
  {
    if |s.buffer| == 0 {
      assert Entries([]) == [];
      assert s.rows + [] == s.rows;
    } else {
      assert ProcessBuffer(s, true, env) == Flush(s, env);
    }
  }

  /** fileAdditionFinished on a locked list leaves exactly the pending rows and an empty buffer. */
  lemma FinishFlushes(s: State, env: Env)
    requires s.locked
    ensures var t := FileAdditionFinished(s, env).state;
      t.buffer == [] && t.locked && t.rows == Pending(s)
  {
    ForcedFlush(s, env);
  }

  /** addFiles on a locked list appends a row for every buffered and every new file and empties the buffer. */
  lemma AddFilesFlushes(s: State, files: seq<File>, env: Env)
    requires s.locked
    ensures var t := AddFiles(s, files, env).state;
      t.buffer == [] && t.locked && t.rows == s.rows + Entries(s.buffer + files)
  {
    ForcedFlush(s.(buffer := s.buffer + files), env);
  }

  /** hashingFinished: processingDone and nothing else. */
  function HashingFinished(s: State): (r: Step)
    ensures r.state == s && r.events == [ProcessingDone]
  {
    Step(s, [ProcessingDone])
  }

  /**
   * fileHashCalculated: an id outside the table is ignored.  A primary
   * result fills an empty Hash cell (upper-cased) and the Alg. cell (as
   * given) and counts one hash; it is dropped when the row already has a
   * hash.  A verification result always fills the Verification cell
   * (upper-cased), counts one verification, and sets Match to MATCH when
   * it equals the row's hash and to INVALID, counting a failure, when not.
   */
  function FileHashCalculated(s: State, id: int, algorithm: string, hash: string, verify: bool): (r: Step)
    ensures !(0 <= id < |s.rows|) ==> r == Step(s, [])
    ensures 0 <= id < |s.rows| ==> r.events == [Report(r.state)]
    ensures |r.state.rows| == |s.rows| && r.state.buffer == s.buffer && r.state.locked == s.locked
    ensures forall i :: 0 <= i < |s.rows| && i != id ==> r.state.rows[i] == s.rows[i]
  {
    if !(0 <= id < |s.rows|) then Step(s, [])
    else
      var h := ToUpper(hash);
      var row := s.rows[id];
      var t :=
        if !verify && row.hash == "" then
          s.(rows := s.rows[id := row.(hash := h, algorithm := algorithm)], hashed := s.hashed + 1)
        else if verify then
          var matched := row.hash == h;
          s.(rows := s.rows[id := row.(verify := h, verdict := if matched then "MATCH" else "INVALID")],
             verified := s.verified + 1,
             invalid := if matched then s.invalid else s.invalid + 1)
        else s;
      Step(t, [Report(t)])
  }

  /**
   * The first primary result for a row wins: once the row has a hash a
   * later primary result changes nothing but is still reported, so the
   * hash counter rises at most once per row.
   */
  lemma FirstWriteWins(s: State, id: int, a1: string, h1: string, a2: string, h2: string)
    requires 0 <= id < |s.rows| && h1 != ""
    ensures var t := FileHashCalculated(s, id, a1, h1, false).state;
      && t.rows[id] == (if s.rows[id].hash == "" then s.rows[id].(hash := ToUpper(h1), algorithm := a1) else s.rows[id])
      && FileHashCalculated(t, id, a2, h2, false).state == t
      && t.hashed <= s.hashed + 1
  {}

  /** A verification reads MATCH exactly when it equals the stored hash after upper-casing. */
  lemma VerifyVerdict(s: State, id: int, algorithm: string, hash: string)
    requires 0 <= id < |s.rows|
    ensures var t := FileHashCalculated(s, id, algorithm, hash, true).state;
      && t.rows[id].verify == ToUpper(hash)
      && (t.rows[id].verdict == "MATCH" <==> s.rows[id].hash == ToUpper(hash))
      && (t.rows[id].verdict == "INVALID" <==> s.rows[id].hash != ToUpper(hash))
      && t.verified == s.verified + 1
      && t.invalid == s.invalid + (if s.rows[id].hash == ToUpper(hash) then 0 else 1)
      && t.rows[id].hash == s.rows[id].hash
  {}

  /**
   * Results keep the counters consistent when the digest text is not empty
   * and a verification comes for a row not verified yet, which is how the
   * hasher schedules them.
   */
  lemma ResultConsistent(s: State, id: int, algorithm: string, hash: string, verify: bool)
    requires Consistent(s) && hash != ""
    requires verify && 0 <= id < |s.rows| ==> s.rows[id].verify == ""
    ensures Consistent(FileHashCalculated(s, id, algorithm, hash, verify).state)
  {
    if 0 <= id < |s.rows| {
      var t := FileHashCalculated(s, id, algorithm, hash, verify).state;
      var row := t.rows[id];
      assert t.rows == s.rows[id := row];
      CountUpdate(s.rows, id, row, Hashed);
      CountUpdate(s.rows, id, row, Verified);
      CountUpdate(s.rows, id, row, Invalid);
    }
  }

  // ---------------------------------------------------------------------
  // Removing selected rows

  /** The rows whose index is not selected, in their order. */
  function Keep(rows: seq<Row>, selected: set<int>): (kept: seq<Row>)
    ensures |kept| <= |rows|
    decreases |rows|
  {
    if |rows| == 0 then []
    else Keep(rows[..|rows| - 1], selected) + (if |rows| - 1 in selected then [] else [rows[|rows| - 1]])
  }

  /** The selected row indices below `n`, largest first: the selection sorted big to small. */
  function Descending(selected: set<int>, n: nat): (order: seq<int>)
    ensures forall k :: 0 <= k < |order| ==> 0 <= order[k] < n && order[k] in selected
    ensures forall k, l :: 0 <= k < l < |order| ==> order[k] > order[l]
    ensures forall i :: 0 <= i < n && i in selected ==> i in order
    decreases n
  {
    if n == 0 then []
    else (if n - 1 in selected then [n - 1] else []) + Descending(selected, n - 1)
  }

  /** Keep looks only at the selected indices inside the rows. */
  lemma {:induction false} KeepInside(rows: seq<Row>, a: set<int>, b: set<int>)
    requires forall i :: 0 <= i < |rows| ==> (i in a <==> i in b)
    ensures Keep(rows, a) == Keep(rows, b)
    decreases |rows|
  {
    if |rows| > 0 {
      KeepInside(rows[..|rows| - 1], a, b);
    }
  }

  /** Rows after every selected index are all kept. */
  lemma {:induction false} KeepTail(a: seq<Row>, b: seq<Row>, selected: set<int>)
    requires forall i :: i in selected ==> i < |a|
    ensures Keep(a + b, selected) == Keep(a, selected) + b
    decreases |b|
  {
    if |b| == 0 {
      assert a + b == a;
    } else {
      var n := |a + b| - 1;
      assert (a + b)[..n] == a + b[..|b| - 1];
      KeepTail(a, b[..|b| - 1], selected);
      assert n !in selected;
      assert b == b[..|b| - 1] + [b[|b| - 1]];
    }
  }

  /** Deleting the highest selected row and unselecting it keeps the same rows. */
  lemma RemoveHighest(rows: seq<Row>, selected: set<int>, r: int)
    requires 0 <= r < |rows| && r in selected && forall i :: i in selected ==> i <= r
    ensures Keep(rows[..r] + rows[r + 1..], selected - {r}) == Keep(rows, selected)
  {
    var front := rows[..r];
    var back := rows[r + 1..];
    WithoutHighest(front, back, selected, r);
    WithHighest(front, rows[r], back, selected);
    assert rows == front + [rows[r]] + back;
  }

  /** With the highest selection gone, the rows after it are kept whole. */
  lemma WithoutHighest(front: seq<Row>, back: seq<Row>, selected: set<int>, r: int)
    requires r == |front| && forall i :: i in selected ==> i <= r
    ensures Keep(front + back, selected - {r}) == Keep(front, selected) + back
  {
    KeepTail(front, back, selected - {r});
    KeepInside(front, selected, selected - {r});
  }

  /** The highest selected row goes, and the rows after it are kept whole. */
  lemma WithHighest(front: seq<Row>, row: Row, back: seq<Row>, selected: set<int>)
    requires |front| in selected && forall i :: i in selected ==> i <= |front|
    ensures Keep(front + [row] + back, selected) == Keep(front, selected) + back
  {
    var upTo := front + [row];
    KeepTail(upTo, back, selected);
    assert upTo[..|upTo| - 1] == front;
  }

  /**
   * The deletion of removeSelectedRows: the selected rows sorted big to
   * small; a run of them that are the table's last rows is cut by shrinking
   * the row count, the rest are removed one by one from the highest down.
   * The rows left are exactly the unselected ones, in their order.
   */
  method RemoveRows(rows: seq<Row>, selected: set<int>) returns (kept: seq<Row>)
    ensures kept == Keep(rows, selected)
  {
    var order := Descending(selected, |rows|);
    var pending := set k | 0 <= k < |order| :: order[k];
    KeepInside(rows, selected, pending);
    kept := rows;
    var trailing := 0;
    while |order| > 0 && order[0] == |kept| - 1
      invariant forall k :: 0 <= k < |order| ==> 0 <= order[k] < |kept|
      invariant forall k, l :: 0 <= k < l < |order| ==> order[k] > order[l]
      invariant pending == set k | 0 <= k < |order| :: order[k]
      invariant Keep(kept, pending) == Keep(rows, selected)
      decreases |order|
    {
      var r := order[0];
      RemoveHighest(kept, pending, r);
      assert kept[..r] + kept[r + 1..] == kept[..|kept| - 1];
      kept := kept[..|kept| - 1];
      assert pending - {r} == set k | 0 <= k < |order[1..]| :: order[1..][k];
      pending := pending - {r};
      order := order[1..];
      trailing := trailing + 1;
    }
    while |order| > 0
      invariant forall k :: 0 <= k < |order| ==> 0 <= order[k] < |kept|
      invariant forall k, l :: 0 <= k < l < |order| ==> order[k] > order[l]
      invariant pending == set k | 0 <= k < |order| :: order[k]
      invariant Keep(kept, pending) == Keep(rows, selected)
      decreases |order|
    {
      var r := order[0];
      RemoveHighest(kept, pending, r);
      kept := kept[..r] + kept[r + 1..];
      assert pending - {r} == set k | 0 <= k < |order[1..]| :: order[1..][k];
      pending := pending - {r};
      order := order[1..];
    }
    assert pending == {};
    KeepInside(kept, pending, {});
    KeepNone(kept);
  }

  lemma {:induction false} KeepNone(rows: seq<Row>)
    ensures Keep(rows, {}) == rows
    decreases |rows|
  {
    if |rows| > 0 {
      KeepNone(rows[..|rows| - 1]);
    }
  }

  /**
   * removeSelectedRows as written: with a selection, the unselected rows
   * remain, the hash and verification counters are counted afresh from
   * them, the failure counter is left as it was; then the counters,
   * processingDone and an empty info line are emitted.  Without a
   * selection nothing happens.
   */
  function RemoveSelectedRows(s: State, selected: set<int>): (r: Step)
    ensures selected == {} ==> r == Step(s, [])
    ensures selected != {} ==>
      && r.state.rows == Keep(s.rows, selected)
      && r.state.invalid == s.invalid
      && r.events == [Report(r.state), ProcessingDone, DisplayFile("", "")]
  {
    if selected == {} then Step(s, [])
    else
      var rows := Keep(s.rows, selected);
      var t := s.(rows := rows, hashed := Count(rows, Hashed), verified := Count(rows, Verified));
      Step(t, [Report(t), ProcessingDone, DisplayFile("", "")])
  }

  /** removeSelectedRows with the failure counter counted afresh as well. */
  function RemoveSelectedRowsCorrected(s: State, selected: set<int>): (r: Step)
    ensures selected == {} ==> r == Step(s, [])
    ensures selected != {} ==>
      && r.state.rows == Keep(s.rows, selected)
      && r.events == [Report(r.state), ProcessingDone, DisplayFile("", "")]
  {
    if selected == {} then Step(s, [])
    else
      var rows := Keep(s.rows, selected);
      var t := s.(rows := rows, hashed := Count(rows, Hashed), verified := Count(rows, Verified), invalid := Count(rows, Invalid));
      Step(t, [Report(t), ProcessingDone, DisplayFile("", "")])
  }

  /** Every kept row is a row of the table. */
  lemma {:induction false} KeepFrom(rows: seq<Row>, selected: set<int>)
    ensures forall k :: 0 <= k < |Keep(rows, selected)| ==> Keep(rows, selected)[k] in rows
    decreases |rows|
  {
    if |rows| > 0 {
      var front := rows[..|rows| - 1];
      KeepFrom(front, selected);
      assert forall x :: x in front ==> x in rows;
    }
  }

  /** With the failure counter recounted, removal keeps every counter consistent. */
  lemma RemoveCorrectedConsistent(s: State, selected: set<int>)
    requires Consistent(s)
    ensures Consistent(RemoveSelectedRowsCorrected(s, selected).state)
  {
    KeepFrom(s.rows, selected);
  }

  /**
   * As written, removing the only row that failed verification leaves the
   * failure counter at 1 with no INVALID row left.
   */
  lemma StaleFailureCount(good: Row, bad: Row)
    requires good.hash != "" && good.verify == good.hash && good.verdict == "MATCH"
    requires bad.hash != "" && bad.verify != "" && bad.verdict == "INVALID"
    ensures var s := State([good, bad], [], true, 2, 2, 1);
      && Consistent(s)
      && var t := RemoveSelectedRows(s, {1}).state;
      && t.rows == [good] && t.invalid == 1 && Count(t.rows, Invalid) == 0 && !Consistent(t)
  {
    var s := State([good, bad], [], true, 2, 2, 1);
    assert [good, bad][..1] == [good];
    assert Keep([good], {1}) == [good] by {
      assert [good][..0] == [];
    }
    assert Keep([good, bad], {1}) == [good];
  }
}
