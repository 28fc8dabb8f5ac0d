/** Inserting rows in batches under either transaction mode: what is durable after success
    and after a failure at any step. */
module BatchedWrites {
  import opened Prelude
  import opened SemanticStore

  datatype Mode = OneRun | PerBatch

  const MAX_BATCH_BYTES: nat := 256 * 1024 * 1024

  /** Where an exception was raised, relative to the commit of everything. */
  datatype Stage = BeforeLastCommit | AfterLastCommit

  datatype Outcome = Inserted(count: nat) | Failed(stage: Stage)

  type Sizes = Statement -> nat

  function BytesOf(rows: seq<Statement>, sizes: Sizes): nat {
    if rows == [] then 0 else BytesOf(rows[..|rows| - 1], sizes) + sizes(rows[|rows| - 1])
  }

  /** Counting off whole batches from `k` rows leaves none. */
  predicate IsMultiple(k: int, size: nat)
    requires size > 0
    decreases k
  {
    k == 0 || (k >= size && IsMultiple(k - size, size))
  }

  /** Every batch stays within the byte bound. */
  ghost predicate BatchesFit(rows: seq<Statement>, size: nat, sizes: Sizes)
    requires size > 0
  {
    forall lo, hi :: 0 <= lo <= hi <= |rows| && IsMultiple(lo, size) && hi - lo <= size ==>
      BytesOf(rows[lo..hi], sizes) <= 268_435_456
  }

  ghost predicate Faultless(conn: Connection) {
    forall t :: !conn.faults(t)
  }

  /** The rows that are durable form a prefix made of whole batches, or are all of them; in
      one run they are none or all. */
  ghost predicate Landed(base: Store, rows: seq<Statement>, size: nat, mode: Mode, committed: Store)
    requires size > 0
  {
    match mode
    case OneRun => committed == base || ExecuteAll(base, rows) == Some(committed)
    case PerBatch => exists k :: WholeBatches(k, |rows|, size) && ExecuteAll(base, rows[..k]) == Some(committed)
  }

  predicate WholeBatches(k: int, n: nat, size: nat)
    requires size > 0
  {
    0 <= k <= n && (IsMultiple(k, size) || k == n)
  }

  /** What the first batches make of the store. */
  ghost function AfterBatches(base: Store, rows: seq<Statement>, size: nat, batches: nat): Option<Store> {
    ExecuteAll(base, rows[..Min(batches * size, |rows|)])
  }

  lemma {:induction false} MultipleCounts(k: nat, size: nat) returns (batches: nat)
    requires size > 0 && IsMultiple(k, size)
    ensures k == batches * size
    decreases k
  {
    if k == 0 {
      batches := 0;
    } else {
      var fewer := MultipleCounts(k - size, size);
      batches := fewer + 1;
    }
  }

  lemma {:induction false} CountsMultiple(batches: nat, size: nat)
    requires size > 0
    ensures IsMultiple(batches * size, size)
  {
    if batches > 0 {
      CountsMultiple(batches - 1, size);
      assert batches * size == (batches - 1) * size + size;
    }
  }

  lemma AtLeastAsMany(n: nat, size: nat)
    requires size > 0
    ensures n * size >= n
  {
  }

  /** In per-batch mode some number of batches from the front is durable, and nothing else. */
  lemma LandedExactly(base: Store, rows: seq<Statement>, size: nat, committed: Store)
    requires size > 0
    ensures Landed(base, rows, size, PerBatch, committed) <==>
      exists batches: nat :: AfterBatches(base, rows, size, batches) == Some(committed)
  {
    hide ExecuteAll, IsMultiple;
    if Landed(base, rows, size, PerBatch, committed) {
      var k :| WholeBatches(k, |rows|, size) && ExecuteAll(base, rows[..k]) == Some(committed);
      AtLeastAsMany(|rows|, size);
      var batches: nat := |rows|;
      if k < |rows| { batches := MultipleCounts(k, size); }
      assert AfterBatches(base, rows, size, batches) == Some(committed);
    }
    forall batches: nat | AfterBatches(base, rows, size, batches) == Some(committed)
      ensures Landed(base, rows, size, PerBatch, committed)
    {
      CountsMultiple(batches, size);
      assert WholeBatches(Min(batches * size, |rows|), |rows|, size);
    }
  }

  /** The database refuses a row of the batch, which continues the open transaction if any. */
  ghost predicate BatchRefused(pending: Option<Store>, committed: Store, batch: seq<Statement>) {
    ExecuteAll(if pending.Some? then pending.value else committed, batch) == None
  }

  /** The rows are refused: by a key of the database, or by the byte bound of a batch. */
  ghost predicate Refused(base: Store, rows: seq<Statement>, size: nat, sizes: Sizes)
    requires size > 0
  {
    ExecuteAll(base, rows) == None || !BatchesFit(rows, size, sizes)
  }

  /** Rows were written from the front, one after another. */
  ghost predicate Progress(before: seq<Statement>, after: seq<Statement>, rows: seq<Statement>) {
    exists k :: 0 <= k <= |rows| && after == before + rows[..k]
  }

  lemma ProgressAfter(before: seq<Statement>, mid: seq<Statement>, after: seq<Statement>, rows: seq<Statement>,
    done: nat, hi: nat)
    requires done <= hi <= |rows| && mid == before + rows[..done] && Progress(mid, after, rows[done..hi])
    ensures Progress(before, after, rows)
  {
    var k :| 0 <= k <= hi - done && after == mid + rows[done..hi][..k];
    var part := rows[done..hi][..k];
    assert rows[..done + k] == rows[..done] + part;
    Regroup(before, rows[..done], part);
    assert after == before + rows[..done + k];
  }

  lemma AllProgress(before: seq<Statement>, rows: seq<Statement>)
    ensures Progress(before, before, rows) && Progress(before, before + rows, rows)
  {
    assert before + rows[..0] == before && rows[..|rows|] == rows;
  }

  /** How a run ends: without any fault on success; with its last step, and no earlier one,
      failing when that step is the last checkpoint; and otherwise with its last step failing
      or with rows that are refused. */
  ghost predicate RunEnded(r: Outcome, faults: nat -> bool, from: nat, to: nat, refused: bool) {
    match r
    case Inserted(_) => NoFault(faults, from, to) && !refused
    case Failed(AfterLastCommit) => Stopped(faults, from, to)
    case Failed(BeforeLastCommit) => Ended(faults, from, to, refused)
  }

  /** One batch: its own transaction in per-batch mode, part of the open one otherwise. */
  method WriteBatch(conn: Connection, batch: seq<Statement>, mode: Mode) returns (ok: bool)
    requires conn.pending == None <==> mode == PerBatch
    modifies conn`clock, conn`pending, conn`committed, conn`written
    ensures mode == OneRun ==> conn.committed == old(conn.committed)
    ensures mode == OneRun && ok ==> conn.pending.Some? && ExecuteAll(old(conn.pending).value, batch) == conn.pending
    ensures mode == PerBatch && ok ==>
      conn.pending == None && ExecuteAll(old(conn.committed), batch) == Some(conn.committed)
    ensures mode == PerBatch && !ok ==>
      conn.committed == old(conn.committed) || ExecuteAll(old(conn.committed), batch) == Some(conn.committed)
    ensures ok ==> NoFault(conn.faults, old(conn.clock), conn.clock)
    ensures Progress(old(conn.written), conn.written, batch) && (ok ==> conn.written == old(conn.written) + batch)
    ensures conn.clock > old(conn.clock)
    ensures !ok ==>
      Ended(conn.faults, old(conn.clock), conn.clock, BatchRefused(old(conn.pending), old(conn.committed), batch))
  {
    hide ExecuteAll, NoFault, Stopped, Ended;
    ghost var start := conn.clock;
    NoFaultSoFar(conn.faults, start, start);
    AllProgress(conn.written, batch);
    if mode == PerBatch {
      ok := conn.Begin();
      if !ok { return; }
    }
    ghost var begun, refused := conn.clock, ExecuteAll(conn.pending.value, batch) == None;
    ok := conn.ExecuteMany(batch);
    OneRunAfterAnother(conn.faults, start, begun, conn.clock, refused);
    if !ok { return; }
    NoFaultSoFar(conn.faults, start, conn.clock);
    if mode == PerBatch {
      ok := conn.Commit();
      if !ok { return; }
      NoFaultSoFar(conn.faults, start, conn.clock);
    }
    ok := conn.Step();
  }

  /** The first `done` rows are written; in per-batch mode they are durable. */
  ghost predicate Standing(conn: Connection, base: Store, rows: seq<Statement>, done: nat, mode: Mode)
    reads conn
  {
    && done <= |rows|
    && match mode
       case OneRun => conn.committed == base && conn.pending.Some? && ExecuteAll(base, rows[..done]) == conn.pending
       case PerBatch => conn.pending == None && ExecuteAll(base, rows[..done]) == Some(conn.committed)
  }

  lemma StandingLanded(conn: Connection, base: Store, rows: seq<Statement>, done: nat, size: nat, mode: Mode)
    requires size > 0 && Standing(conn, base, rows, done, mode) && WholeBatches(done, |rows|, size)
    ensures Landed(base, rows, size, mode, conn.committed)
  {
  }

  lemma NextBatch(base: Store, rows: seq<Statement>, done: nat, hi: nat)
    requires done <= hi <= |rows|
    ensures ExecuteAll(base, rows[..hi]) ==
      match ExecuteAll(base, rows[..done]) case None => None case Some(t) => ExecuteAll(t, rows[done..hi])
    ensures ExecuteAll(base, rows).Some? ==> ExecuteAll(base, rows[..hi]).Some?
  {
    assert rows[..hi] == rows[..done] + rows[done..hi];
    ExecuteInParts(base, rows[..done], rows[done..hi]);
    assert rows == rows[..hi] + rows[hi..];
    ExecuteInParts(base, rows[..hi], rows[hi..]);
  }

  /** Where a run began: the rows to write, the tables, the rows written before, and the time. */
  datatype Run = Run(rows: seq<Statement>, base: Store, before: seq<Statement>, start: nat)

  /** Nothing has failed so far, and the first `done` rows are written. */
  ghost predicate Underway(conn: Connection, run: Run, done: nat, mode: Mode)
    reads conn
  {
    && Standing(conn, run.base, run.rows, done, mode)
    && run.start <= conn.clock && NoFault(conn.faults, run.start, conn.clock)
    && conn.written == run.before + run.rows[..done]
  }

  /** The run is over before its last commit: a fault just now, or rows that are refused. */
  ghost predicate Broken(conn: Connection, run: Run, size: nat, mode: Mode, refused: bool)
    requires size > 0
    reads conn
  {
    && Landed(run.base, run.rows, size, mode, conn.committed) && (mode == OneRun ==> conn.committed == run.base)
    && run.start <= conn.clock && Ended(conn.faults, run.start, conn.clock, refused)
    && Progress(run.before, conn.written, run.rows)
  }

  lemma Begun(conn: Connection, run: Run, mode: Mode)
    requires Standing(conn, run.base, run.rows, 0, mode)
    requires conn.written == run.before && conn.clock == run.start
    ensures Underway(conn, run, 0, mode)
  {
    assert run.rows[..0] == [];
  }

  lemma BreaksWhenRefused(conn: Connection, run: Run, done: nat, size: nat, mode: Mode)
    requires size > 0 && Underway(conn, run, done, mode) && WholeBatches(done, |run.rows|, size)
    ensures Broken(conn, run, size, mode, true)
  {
    StandingLanded(conn, run.base, run.rows, done, size, mode);
  }

  /** One step without an effect on the tables. */
  method Tick(conn: Connection, ghost run: Run, ghost done: nat, size: nat, mode: Mode, ghost refused: bool)
    returns (ok: bool)
    requires size > 0 && Underway(conn, run, done, mode) && WholeBatches(done, |run.rows|, size)
    modifies conn`clock
    ensures conn.clock > old(conn.clock)
    ensures if ok then Underway(conn, run, done, mode) else Broken(conn, run, size, mode, refused)
  {
    hide ExecuteAll, NoFault, Stopped, Ended, Landed;
    StandingLanded(conn, run.base, run.rows, done, size, mode);
    NoFaultSoFar(conn.faults, run.start, conn.clock);
    ok := conn.Step();
  }

  /** Write the batch `rows[done..hi]` after the first `done` rows. */
  method Flush(conn: Connection, ghost run: Run, batch: seq<Statement>, ghost done: nat, ghost hi: nat, size: nat,
    mode: Mode, ghost refused: bool)
    returns (ok: bool)
    requires size > 0 && done <= hi <= |run.rows| && batch == run.rows[done..hi]
    requires WholeBatches(done, |run.rows|, size) && WholeBatches(hi, |run.rows|, size)
    requires Underway(conn, run, done, mode) && (ExecuteAll(run.base, run.rows) == None ==> refused)
    modifies conn`clock, conn`pending, conn`committed, conn`written
    ensures conn.clock > old(conn.clock)
    ensures if ok then Underway(conn, run, hi, mode) else Broken(conn, run, size, mode, refused)
  {
    hide NoFault, Stopped, Ended, Progress;
    ghost var base, rows, mid, ticks := run.base, run.rows, conn.written, conn.clock;
    NextBatch(base, rows, done, hi);
    StandingLanded(conn, base, rows, done, size, mode);
    ok := WriteBatch(conn, batch, mode);
    OneRunAfterAnother(conn.faults, run.start, ticks, conn.clock, refused);
    ProgressAfter(run.before, mid, conn.written, rows, done, hi);
    assert rows[..hi] == rows[..done] + batch;
  }

  lemma ExtendBatch(rows: seq<Statement>, lo: nat, i: nat, sizes: Sizes)
    requires lo <= i < |rows|
    ensures rows[lo..i] + [rows[i]] == rows[lo..i + 1]
    ensures BytesOf(rows[lo..i + 1], sizes) == BytesOf(rows[lo..i], sizes) + sizes(rows[i])
  {
    var batch := rows[lo..i + 1];
    assert batch[..|batch| - 1] == rows[lo..i] && rows[lo..i] + [rows[i]] == batch;
  }

  lemma {:induction false} StepIsMultiple(k: nat, step: nat)
    requires step > 0 && IsMultiple(k, step)
    ensures IsMultiple(k + step, step)
  {
  }

  lemma {:induction false} MultiplesApart(a: int, b: int, size: nat)
    requires size > 0 && IsMultiple(a, size) && IsMultiple(b, size) && 0 <= a < b
    ensures a + size <= b
    decreases b
  {
    if a > 0 { MultiplesApart(a - size, b - size, size); }
  }

  lemma {:induction false} BytesGrow(rows: seq<Statement>, k: nat, sizes: Sizes)
    requires k <= |rows|
    ensures BytesOf(rows[..k], sizes) <= BytesOf(rows, sizes)
  {
    if k < |rows| {
      var init := rows[..|rows| - 1];
      assert init[..k] == rows[..k];
      BytesGrow(init, k, sizes);
    } else {
      assert rows[..k] == rows;
    }
  }

  /** A further batch within the bound, behind batches within the bound. */
  lemma OneMoreBatchFits(rows: seq<Statement>, done: nat, next: nat, size: nat, sizes: Sizes)
    requires size > 0 && done <= next <= |rows| && next - done <= size && IsMultiple(done, size)
    requires BatchesFit(rows[..done], size, sizes) && BytesOf(rows[done..next], sizes) <= MAX_BATCH_BYTES
    ensures BatchesFit(rows[..next], size, sizes)
  {
    hide IsMultiple, BytesOf;
    var more := rows[..next];
    forall lo, hi | 0 <= lo <= hi <= next && IsMultiple(lo, size) && hi - lo <= size
      ensures BytesOf(more[lo..hi], sizes) <= MAX_BATCH_BYTES
    {
      if lo < done {
        MultiplesApart(lo, done, size);
        assert more[lo..hi] == rows[..done][lo..hi];
      } else if lo == done {
        assert rows[done..next][..hi - lo] == rows[done..hi];
        assert more[lo..hi] == rows[done..hi];
        BytesGrow(rows[done..next], hi - lo, sizes);
      } else {
        MultiplesApart(done, lo, size);
        assert lo == hi && more[lo..hi] == [];
        NoBytes(sizes);
      }
    }
  }

  lemma NoBytes(sizes: Sizes)
    ensures BytesOf([], sizes) == 0
  {
  }

  lemma NoBatches(rows: seq<Statement>, size: nat, sizes: Sizes)
    requires size > 0
    ensures BatchesFit(rows[..0], size, sizes)
  {
    forall lo, hi | 0 <= lo <= hi <= |rows[..0]| ensures BytesOf(rows[..0][lo..hi], sizes) <= MAX_BATCH_BYTES {
      assert rows[..0][lo..hi] == [];
    }
  }

  /** Every batch of fitting rows fits. */
  lemma FittingBatch(rows: seq<Statement>, lo: nat, hi: nat, size: nat, sizes: Sizes)
    requires size > 0 && lo <= hi <= |rows| && hi - lo <= size && IsMultiple(lo, size) && BatchesFit(rows, size, sizes)
    ensures BytesOf(rows[lo..hi], sizes) <= MAX_BATCH_BYTES
  {
  }

  lemma NothingWritten(base: Store, rows: seq<Statement>, size: nat, sizes: Sizes)
    requires size > 0
    ensures ExecuteAll(base, rows[..0]) == Some(base) && BytesOf([], sizes) == 0 && IsMultiple(0, size)
  {
  }

  lemma StandsAtFirst(conn: Connection, rows: seq<Statement>, mode: Mode)
    requires conn.pending == if mode == OneRun then Some(conn.committed) else None
    ensures Standing(conn, conn.committed, rows, 0, mode)
  {
  }

  lemma WholeSoFar(k: nat, n: nat, size: nat)
    requires size > 0 && IsMultiple(k, size) && k <= n
    ensures WholeBatches(k, n, size)
  {
  }

  lemma RefusedExactly(base: Store, rows: seq<Statement>, size: nat, sizes: Sizes)
    requires size > 0
    ensures Refused(base, rows, size, sizes) <==> ExecuteAll(base, rows) == None || !BatchesFit(rows, size, sizes)
  {
  }

  /** How a run stands when it is over. */
  ghost predicate Over(r: Outcome, conn: Connection, run: Run, size: nat, mode: Mode, refused: bool)
    requires size > 0
    reads conn
  {
    && Landed(run.base, run.rows, size, mode, conn.committed)
    && RunEnded(r, conn.faults, run.start, conn.clock, refused)
    && Progress(run.before, conn.written, run.rows)
    && (r == Failed(BeforeLastCommit) ==> mode == OneRun ==> conn.committed == run.base)
    && (r != Failed(BeforeLastCommit) ==>
          && ExecuteAll(run.base, run.rows) == Some(conn.committed) && conn.pending == None
          && conn.written == run.before + run.rows)
    && (r.Inserted? ==> r.count == |run.rows|)
  }

  lemma BrokenIsOver(conn: Connection, run: Run, size: nat, mode: Mode, refused: bool)
    requires size > 0 && Broken(conn, run, size, mode, refused)
    ensures Over(Failed(BeforeLastCommit), conn, run, size, mode, refused)
  {
  }

  /** The body of the protected block, up to the final commit and checkpoint. */
  method WriteRows(conn: Connection, rows: seq<Statement>, size: nat, mode: Mode, sizes: Sizes) returns (r: Outcome)
    requires size > 0 && (conn.pending == if mode == OneRun then Some(conn.committed) else None)
    modifies conn`clock, conn`pending, conn`committed, conn`written
    ensures conn.clock > old(conn.clock)
    ensures Over(r, conn, Run(rows, old(conn.committed), old(conn.written), old(conn.clock)), size, mode,
              Refused(old(conn.committed), rows, size, sizes))
  {
    hide *;
    ghost var run := Run(rows, conn.committed, conn.written, conn.clock);
    ghost var refused := Refused(conn.committed, rows, size, sizes);
    var batch: seq<Statement>, batchBytes: nat, count: nat := [], 0, 0;
    RefusedExactly(conn.committed, rows, size, sizes);
    NothingWritten(conn.committed, rows, size, sizes);
    StandsAtFirst(conn, rows, mode);
    Begun(conn, run, mode);
    NoBatches(rows, size, sizes);
    assert rows[0..0] == [];
    for i := 0 to |rows|
      invariant count <= i && i - count < size
      invariant IsMultiple(count, size)
      invariant Underway(conn, run, count, mode)
      invariant BatchesFit(rows[..count], size, sizes)
      invariant batchBytes <= MAX_BATCH_BYTES
      invariant batch == rows[count..i] && batchBytes == BytesOf(batch, sizes)
      invariant conn.clock >= run.start + i
    {
      WholeSoFar(count, |rows|, size);
      var ok := Tick(conn, run, count, size, mode, refused);
      if !ok {
        BrokenIsOver(conn, run, size, mode, refused);
        return Failed(BeforeLastCommit);
      }
      batch := batch + [rows[i]];
      ExtendBatch(rows, count, i, sizes);
      batchBytes := batchBytes + sizes(rows[i]);
      if BatchesFit(rows, size, sizes) { FittingBatch(rows, count, i + 1, size, sizes); }
      if batchBytes > MAX_BATCH_BYTES {
        BreaksWhenRefused(conn, run, count, size, mode);
        BrokenIsOver(conn, run, size, mode, true);
        return Failed(BeforeLastCommit);
      }
      if |batch| < size { continue; }
      ghost var next := count + size;
      assert |batch| == size && i + 1 == next;
      assert batch == rows[count..next];
      OneMoreBatchFits(rows, count, next, size, sizes);
      StepIsMultiple(count, size);
      WholeSoFar(next, |rows|, size);
      ok := Flush(conn, run, batch, count, next, size, mode, refused);
      if !ok {
        BrokenIsOver(conn, run, size, mode, refused);
        return Failed(BeforeLastCommit);
      }
      count := count + |batch|;
      assert count == next;
      batch, batchBytes := [], 0;
    }
    OneMoreBatchFits(rows, count, |rows|, size, sizes);
    assert rows[..|rows|] == rows;
    r := WriteLast(conn, run, batch, count, size, mode, refused);
  }

  /** The shorter batch at the end, the commit of one run and the last checkpoint. */
  method WriteLast(conn: Connection, ghost run: Run, batch: seq<Statement>, done: nat, size: nat, mode: Mode,
    ghost refused: bool)
    returns (r: Outcome)
    requires size > 0 && done <= |run.rows| && IsMultiple(done, size) && batch == run.rows[done..]
    requires Underway(conn, run, done, mode) && (refused <==> ExecuteAll(run.base, run.rows) == None)
    modifies conn`clock, conn`pending, conn`committed, conn`written
    ensures conn.clock > old(conn.clock)
    ensures Over(r, conn, run, size, mode, refused)
  {
    hide Progress, NoFault, Stopped, Ended, Landed, RunEnded;
    var count := done;
    assert run.rows[..|run.rows|] == run.rows;
    if batch != [] {
      var ok := Flush(conn, run, batch, count, |run.rows|, size, mode, refused);
      if !ok {
        BrokenIsOver(conn, run, size, mode, refused);
        return Failed(BeforeLastCommit);
      }
      count := count + |batch|;
    }
    assert count == |run.rows|;
    r := Close(conn, run, count, size, mode);
  }

  /** The commit that ends one run, and the last checkpoint. */
  method Finish(conn: Connection, mode: Mode, count: nat) returns (r: Outcome)
    requires conn.pending == None <==> mode == PerBatch
    modifies conn`clock, conn`pending, conn`committed
    ensures r.Inserted? ==> r.count == count && conn.pending == None
    ensures r != Failed(BeforeLastCommit) ==>
      conn.committed == if mode == OneRun then old(conn.pending).value else old(conn.committed)
    ensures r == Failed(BeforeLastCommit) ==> mode == OneRun && conn.committed == old(conn.committed)
    ensures conn.clock > old(conn.clock) && (r == Failed(AfterLastCommit) ==> conn.pending == None)
    ensures RunEnded(r, conn.faults, old(conn.clock), conn.clock, false)
  {
    if mode == OneRun {
      var ok := conn.Commit();
      if !ok { return Failed(BeforeLastCommit); }
    }
    var ok := conn.Step();
    return if ok then Inserted(count) else Failed(AfterLastCommit);
  }

  /** All rows are written. */
  method Close(conn: Connection, ghost run: Run, count: nat, size: nat, mode: Mode) returns (r: Outcome)
    requires size > 0 && count == |run.rows| && Underway(conn, run, count, mode)
    modifies conn`clock, conn`pending, conn`committed
    ensures conn.clock > old(conn.clock)
    ensures Over(r, conn, run, size, mode, false)
  {
    hide Progress, NoFault, Stopped, Ended, ExecuteAll;
    assert run.rows[..|run.rows|] == run.rows;
    StandingLanded(conn, run.base, run.rows, count, size, mode);
    AllProgress(run.before, run.rows);
    ghost var written := conn.clock;
    r := Finish(conn, mode, count);
    OneRunAfterAnother(conn.faults, run.start, written, conn.clock, false);
  }

  /** `_insert_batches`: on success every row is durable, in order; after a failure at any
      step, one run has committed nothing (or everything, when the last checkpoint was the only
      step to fail), and per-batch mode has committed whole batches from the front; what was
      pending is rolled back, unless the rollback itself fails.  The first fault ends the run,
      which may be one tick longer for the rollback. */
  method InsertBatches(conn: Connection, rows: seq<Statement>, size: nat, mode: Mode, sizes: Sizes) returns (r: Outcome)
    requires size > 0 && conn.pending == None
    modifies conn`clock, conn`pending, conn`committed, conn`written
    ensures Landed(old(conn.committed), rows, size, mode, conn.committed)
    ensures r.Inserted? ==>
      r.count == |rows| && conn.pending == None && ExecuteAll(old(conn.committed), rows) == Some(conn.committed)
    ensures mode == OneRun && r == Failed(BeforeLastCommit) ==> conn.committed == old(conn.committed)
    ensures r == Failed(AfterLastCommit) ==> ExecuteAll(old(conn.committed), rows) == Some(conn.committed)
    ensures r.Failed? ==> conn.Settled()
    ensures r.Inserted? ==> BatchesFit(rows, size, sizes)
    ensures Progress(old(conn.written), conn.written, rows)
    ensures r != Failed(BeforeLastCommit) ==> conn.written == old(conn.written) + rows
    ensures conn.clock > old(conn.clock)
    ensures var refused := Refused(old(conn.committed), rows, size, sizes);
      || RunEnded(r, conn.faults, old(conn.clock), conn.clock, refused)
      || (r == Failed(BeforeLastCommit) && RunEnded(r, conn.faults, old(conn.clock), conn.clock - 1, refused))
    ensures Faultless(conn) && ExecuteAll(old(conn.committed), rows).Some? && BatchesFit(rows, size, sizes) ==>
      r.Inserted?
  {
    hide ExecuteAll, NoFault, Stopped, Ended, BatchesFit, Progress, Landed;
    ghost var start, refused := conn.clock, Refused(conn.committed, rows, size, sizes);
    AllProgress(conn.written, rows);
    NothingLanded(conn.committed, rows, size, mode);
    NoFaultSoFar(conn.faults, start, start);
    NoFaultSoFar(conn.faults, start, start + 1);
    if Faultless(conn) { FaultlessEnds(conn.faults, start, start + 1, refused); }
    var ok := conn.Step();
    if !ok { return Failed(BeforeLastCommit); }
    if mode == OneRun {
      ok := conn.Begin();
      if !ok { return Failed(BeforeLastCommit); }
    }
    ghost var begun := conn.clock;
    r := WriteRows(conn, rows, size, mode, sizes);
    OneRunAfterAnother(conn.faults, start, begun, conn.clock, refused);
    if Faultless(conn) { FaultlessEnds(conn.faults, start, conn.clock, refused); }
    if r.Failed? && conn.pending.Some? { conn.Rollback(); }
  }

  lemma NothingLanded(base: Store, rows: seq<Statement>, size: nat, mode: Mode)
    requires size > 0
    ensures Landed(base, rows, size, mode, base)
  {
    assert WholeBatches(0, |rows|, size) && ExecuteAll(base, rows[..0]) == Some(base);
  }
}
