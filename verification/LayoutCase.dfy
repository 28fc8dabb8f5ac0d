/** One layout case from an empty scratch database to its report: load, compare with the
    captured digests, replay as conflicting upserts, refresh, and compare again. */
module LayoutCase {
  import opened Prelude
  import opened SemanticStore
  import opened TableDigests
  import opened BatchedWrites
  import opened TableCapture
  import opened TableReplay

  // ---- One case ----

  datatype Name = T0 | T1 | T2

  datatype Replay = Replay(passes: nat, conflictRows: nat, refresh: Option<Refresh>)

  datatype Report = Report(initialHash: bytes, initialCount: nat, final: Digests, replay: Replay)

  datatype Outcome = Complete(report: Report) | Mismatch | Raised

  function ParentLoad(fixture: Store): seq<Statement> {
    ParentInserts(fixture, InOrder(fixture.parents.Keys))
  }

  function ChunkLoad(fixture: Store, name: Name): seq<Statement> {
    ChunkWrites(fixture, InOrder(fixture.chunks.Keys), name != T0)
  }

  lemma AllParents(fixture: Store, ids: seq<Key>)
    requires forall k :: k in ids <==> k in fixture.parents
    ensures map[] + Parents(fixture, ids) == fixture.parents
  {
  }

  lemma AllChunks(fixture: Store, ids: seq<Key>, before: map<Key, Chunk>)
    requires forall k :: k in ids <==> k in fixture.chunks
    requires before.Keys <= fixture.chunks.Keys
    ensures before + Chunks(fixture, ids) == fixture.chunks
  {
  }

  lemma ParentsLoaded(fixture: Store, ids: seq<Key>)
    requires fixture.Valid() && Distinct(ids) && forall k :: k in ids <==> k in fixture.parents
    ensures ExecuteAll(EMPTY, ParentInserts(fixture, ids)) == Some(Store(fixture.parents, map[]))
  {
    ParentsAccepted(EMPTY, fixture, ids);
    ParentsWritten(EMPTY, fixture, ids);
    AllParents(fixture, ids);
  }

  /** Over no chunks, or as upserts over some chunks of the fixture, the writes end in the fixture. */
  lemma ChunksLoaded(fixture: Store, ids: seq<Key>, before: map<Key, Chunk>, upsert: bool)
    requires fixture.Valid() && Distinct(ids) && forall k :: k in ids <==> k in fixture.chunks
    requires before.Keys <= fixture.chunks.Keys && Keyed(Store(fixture.parents, before)) && (upsert || before == map[])
    ensures ExecuteAll(Store(fixture.parents, before), ChunkWrites(fixture, ids, upsert)) == Some(fixture)
  {
    ChunksAccepted(Store(fixture.parents, before), fixture, ids, upsert);
    ChunksWritten(Store(fixture.parents, before), fixture, ids, upsert);
    AllChunks(fixture, ids, before);
  }

  lemma LoadFillsParents(fixture: Store)
    requires fixture.Valid()
    ensures ExecuteAll(EMPTY, ParentLoad(fixture)) == Some(Store(fixture.parents, map[]))
  {
    ParentsLoaded(fixture, InOrder(fixture.parents.Keys));
  }

  lemma LoadFillsChunks(fixture: Store, name: Name)
    requires fixture.Valid()
    ensures ExecuteAll(Store(fixture.parents, map[]), ChunkLoad(fixture, name)) == Some(fixture)
  {
    ChunksLoaded(fixture, InOrder(fixture.chunks.Keys), map[], name != T0);
  }

  /** Writing every row again over itself changes nothing, and never fails. */
  lemma ReplayChangesNothing(fixture: Store, name: Name)
    requires fixture.Valid() && name != T0
    ensures ExecuteAll(fixture, ChunkLoad(fixture, name)) == Some(fixture)
  {
    ChunksLoaded(fixture, InOrder(fixture.chunks.Keys), fixture.chunks, true);
  }

  /** The same statements as plain inserts are refused by the first conflict. */
  lemma InsertsWouldConflict(fixture: Store)
    requires fixture.Valid() && fixture.chunks != map[]
    ensures ExecuteAll(fixture, ChunkLoad(fixture, T0)) == None
  {
    var ids := InOrder(fixture.chunks.Keys);
    assert |ids| == |fixture.chunks.Keys|;
    assert ids != [] by { var k :| k in fixture.chunks; assert k in ids; }
    var rows := ChunkLoad(fixture, T0);
    InsertConflicts(fixture, rows, rows[0].chunk);
  }

  lemma {:induction false} InsertConflicts(base: Store, rows: seq<Statement>, first: Chunk)
    requires rows != [] && rows[0] == InsertChunk(first) && first.id in base.chunks
    ensures ExecuteAll(base, rows) == None
  {
    var init := rows[..|rows| - 1];
    if init != [] { InsertConflicts(base, init, first); } else { assert ExecuteAll(base, init) == Some(base); }
  }

  ghost predicate LoadsFit(fixture: Store, name: Name, size: nat, sizes: Sizes)
    requires size > 0
  {
    BatchesFit(ParentLoad(fixture), size, sizes) && BatchesFit(ChunkLoad(fixture, name), size, sizes)
  }

  /** Parents, then chunks, into the empty case. */
  method Load(conn: Connection, fixture: Store, name: Name, size: nat, mode: Mode, sizes: Sizes) returns (ok: bool)
    requires fixture.Valid() && size > 0 && conn.committed == EMPTY && conn.pending == None
    modifies conn`clock, conn`pending, conn`committed, conn`written
    ensures ok ==> conn.committed == fixture && conn.pending == None
    ensures ok ==> conn.written == old(conn.written) + ParentLoad(fixture) + ChunkLoad(fixture, name)
    ensures Faultless(conn) && LoadsFit(fixture, name, size, sizes) ==> ok
  {
    LoadFillsParents(fixture);
    var r := InsertBatches(conn, ParentLoad(fixture), size, mode, sizes);
    if r.Failed? { return false; }
    LoadFillsChunks(fixture, name);
    r := InsertBatches(conn, ChunkLoad(fixture, name), size, mode, sizes);
    ok := r.Inserted?;
  }

  /** The rows that the replay writes over themselves. */
  function ReplayRows(fixture: Store, name: Name): seq<Statement> {
    if name == T0 then [] else ChunkLoad(fixture, name)
  }

  /** The refresh wrote every active row by exactly one statement; T0 has no refresh. */
  ghost predicate Refreshes(name: Name, replay: Replay, fixture: Store, size: nat, before: seq<set<Key>>,
    log: seq<set<Key>>)
  {
    if name == T0 then log == before
    else replay.refresh.Some? && WroteOnce(before, log, ActiveIds(fixture), size, replay.refresh.value.statements)
  }

  lemma MatchesItself(fixture: Store)
    ensures Matching(fixture, fixture) == ActiveIds(fixture)
  {
  }

  /** What the replay of any case reports. */
  ghost predicate Replayed(name: Name, replay: Replay, fixture: Store, size: nat)
    requires size > 0
  {
    replay == if name == T0 then Replay(0, 0, None)
              else Replay(1, |fixture.chunks|, Some(RefreshOf(fixture, fixture, size)))
  }

  /** The conflicting replay and the refresh of T1 and T2; T0 has none. */
  method ReplayCase(conn: Connection, fixture: Store, name: Name, size: nat, mode: Mode, sizes: Sizes)
    returns (r: Option<Replay>)
    requires fixture.Valid() && size > 0 && conn.committed == fixture && conn.pending == None
    modifies conn
    ensures r.Some? ==> conn.committed == fixture && conn.pending == None
    ensures r.Some? ==> Replayed(name, r.value, fixture, size)
    ensures r.Some? ==> conn.written == old(conn.written) + ReplayRows(fixture, name)
    ensures r.Some? ==> Refreshes(name, r.value, fixture, size, old(conn.log), conn.log)
    ensures Faultless(conn) && LoadsFit(fixture, name, size, sizes) ==> r.Some?
  {
    if name == T0 { return Some(Replay(0, 0, None)); }
    MatchesItself(fixture);
    ReplayChangesNothing(fixture, name);
    var w := InsertBatches(conn, ChunkLoad(fixture, name), size, mode, sizes);
    if w.Failed? { return None; }
    var refresh := ReplayRefresh(conn, fixture, size, mode);
    if refresh == None { return None; }
    return Some(Replay(1, w.count, refresh));
  }

  /** The logical and replay parts of `_check_case_result`. */
  predicate Approved(name: Name, report: Report, expected: Digests, described: Fixture) {
    && report.final == expected
    && report.initialHash == expected.chunkHash && report.initialCount == expected.chunkCount
    && match name
       case T0 => report.replay.passes == 0 && report.replay.refresh == None
       case _ =>
         && report.replay.passes == 1 && report.replay.conflictRows == expected.chunkCount
         && report.replay.refresh.Some?
         && report.replay.refresh.value.rowsTouched == described.activeRows
         && report.replay.refresh.value.groups == described.activeGroups
  }

  /** The report of a case: the fixture's chunks before the replay, all of its digests after it,
      and for T1 and T2 one pass over every chunk and the refresh of every group. */
  ghost predicate Reports(h: Hash, fixture: Store, w: Schema, name: Name, size: nat, report: Report)
    requires Rectangular(fixture, w) && size > 0
  {
    && report.initialHash == DigestsOf(h, fixture, w).chunkHash && report.initialCount == |fixture.chunks|
    && report.final == DigestsOf(h, fixture, w) && Replayed(name, report.replay, fixture, size)
  }

  /** The report of a completed case passes the check exactly for the fixture's own digests. */
  lemma ApprovedExactly(h: Hash, fixture: Store, w: Schema, name: Name, size: nat, report: Report, expected: Digests)
    requires Rectangular(fixture, w) && size > 0 && Reports(h, fixture, w, name, size, report)
    ensures Approved(name, report, expected, Described(fixture)) <==> expected == DigestsOf(h, fixture, w)
  {
    hide DigestsOf, Rectangular, RefreshOf;
    DigestCounts(h, fixture, w);
    ReportApproved(name, report, fixture, size);
  }

  /** The check leaves open only how many statements the refresh took, and the idle counts of T0. */
  lemma ApprovedFixesReport(name: Name, a: Report, b: Report, expected: Digests, described: Fixture)
    requires Approved(name, a, expected, described) && Approved(name, b, expected, described)
    ensures a.initialHash == b.initialHash && a.initialCount == b.initialCount && a.final == b.final == expected
    ensures a.replay.passes == b.replay.passes && (a.replay.refresh.Some? <==> b.replay.refresh.Some?)
    ensures name != T0 ==>
      && a.replay.conflictRows == b.replay.conflictRows && a.replay.refresh.Some?
      && a.replay.refresh.value.rowsTouched == b.replay.refresh.value.rowsTouched
      && a.replay.refresh.value.groups == b.replay.refresh.value.groups
  {
  }

  /** `_run_case`: a completed case still holds exactly the fixture and passes every logical
      check; with the fixture's own digests, only a fault keeps a case from completing. */
  method RunCase(h: Hash, conn: Connection, fixture: Store, expected: Digests, w: Schema, name: Name, size: nat,
    mode: Mode, sizes: Sizes)
    returns (r: Outcome)
    requires fixture.Valid() && Rectangular(fixture, w) && size > 0 && conn.committed == EMPTY && conn.pending == None
    modifies conn
    ensures r.Complete? ==> conn.committed == fixture && conn.pending == None
    ensures r.Complete? ==> r.report.final == DigestsOf(h, fixture, w)
    ensures r.Complete? ==> Reports(h, fixture, w, name, size, r.report)
    ensures r.Complete? ==>
      conn.written == old(conn.written) + ParentLoad(fixture) + ChunkLoad(fixture, name) + ReplayRows(fixture, name)
    ensures r.Complete? ==> Refreshes(name, r.report.replay, fixture, size, old(conn.log), conn.log)
    ensures r.Complete? && expected == DigestsOf(h, fixture, w) ==>
      Approved(name, r.report, expected, Described(fixture))
    ensures r.Mismatch? ==> expected != DigestsOf(h, fixture, w)
    ensures Faultless(conn) && LoadsFit(fixture, name, size, sizes) && expected == DigestsOf(h, fixture, w) ==>
      r.Complete?
  {
    var ok := Load(conn, fixture, name, size, mode, sizes);
    if !ok { return Raised; }
    r := Compare(h, conn, fixture, expected, w, name, size, mode, sizes);
  }

  /** The loaded case: compared, replayed, compared again. */
  method Compare(h: Hash, conn: Connection, fixture: Store, expected: Digests, w: Schema, name: Name, size: nat,
    mode: Mode, sizes: Sizes)
    returns (r: Outcome)
    requires fixture.Valid() && Rectangular(fixture, w) && size > 0 && conn.committed == fixture && conn.pending == None
    modifies conn
    ensures r.Complete? ==>
      conn.committed == fixture && conn.pending == None && r.report.final == DigestsOf(h, fixture, w)
    ensures r.Complete? ==> Approved(name, r.report, DigestsOf(h, fixture, w), Described(fixture))
    ensures r.Complete? ==> Reports(h, fixture, w, name, size, r.report)
    ensures r.Complete? ==> conn.written == old(conn.written) + ReplayRows(fixture, name)
    ensures r.Complete? ==> Refreshes(name, r.report.replay, fixture, size, old(conn.log), conn.log)
    ensures r.Mismatch? ==> expected != DigestsOf(h, fixture, w)
    ensures Faultless(conn) && LoadsFit(fixture, name, size, sizes) && expected == DigestsOf(h, fixture, w) ==>
      r.Complete?
  {
    hide DigestsOf, Rectangular, RefreshOf, LoadsFit;
    DigestCounts(h, fixture, w);
    var initial := DigestsOf(h, conn.committed, w);
    if initial.chunkHash != expected.chunkHash || initial.chunkCount != expected.chunkCount { return Mismatch; }
    var replay := ReplayCase(conn, fixture, name, size, mode, sizes);
    if replay == None { return Raised; }
    var ok := conn.Step();
    if !ok { return Raised; }
    r := Complete(Report(initial.chunkHash, initial.chunkCount, DigestsOf(h, conn.committed, w), replay.value));
    ReportApproved(name, r.report, fixture, size);
  }

  lemma ReportApproved(name: Name, report: Report, fixture: Store, size: nat)
    requires size > 0 && Replayed(name, report.replay, fixture, size)
    requires report.final.chunkCount == |fixture.chunks|
    requires report.initialHash == report.final.chunkHash && report.initialCount == report.final.chunkCount
    ensures Approved(name, report, report.final, Described(fixture))
  {
    RefreshCountIsExact(fixture, fixture, size);
  }
}
