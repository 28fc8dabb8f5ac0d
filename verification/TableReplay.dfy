/** The grouped refresh of a replayed case, which must touch every active row of the fixture
    once and change none. */
module TableReplay {
  import opened Prelude
  import opened Ordering
  import opened SemanticStore
  import opened TableDigests
  import opened BatchedWrites
  import opened TableCapture

  type Group = (Key, Key)

  // ---- Grouped refresh ----

  /** The active rows of one group of the fixture. */
  function GroupIds(fixture: Store, g: Group): set<Key> {
    set k | k in fixture.chunks && fixture.chunks[k].active && GroupOf(fixture.chunks[k]) == g
  }

  /** The active rows of the fixture that are active, in the same group, in the case too. */
  function Matching(base: Store, fixture: Store): set<Key> {
    set k | k in ActiveIds(fixture) && k in ActiveIds(base) && GroupOf(base.chunks[k]) == GroupOf(fixture.chunks[k])
  }

  function MatchingIn(base: Store, fixture: Store, groups: seq<Group>): set<Key> {
    set k | k in Matching(base, fixture) && GroupOf(fixture.chunks[k]) in groups
  }

  /** How many batches of `size` take up `n` rows. */
  function Batches(n: nat, size: nat): nat
    requires size > 0
  {
    if n == 0 then 0 else if n <= size then 1 else 1 + Batches(n - size, size)
  }

  /** `ceil(n / size)`: enough batches, and one fewer would not be. */
  lemma {:induction false} BatchesRoundUp(n: nat, size: nat)
    requires size > 0
    ensures n <= Batches(n, size) * size
    ensures n > 0 ==> (Batches(n, size) - 1) * size < n
  {
    if n > size {
      var b := Batches(n - size, size);
      BatchesRoundUp(n - size, size);
      assert (b + 1) * size == b * size + size;
      assert (b - 1) * size == b * size - size;
    }
  }

  /** The statements of the groups: a group's batches are rounded up on their own. */
  function StatementsOf(fixture: Store, groups: seq<Group>, size: nat): nat
    requires size > 0
  {
    if groups == [] then 0
    else StatementsOf(fixture, groups[..|groups| - 1], size) + Batches(|GroupIds(fixture, groups[|groups| - 1])|, size)
  }

  function GroupsInOrder(fixture: Store): (r: seq<Group>)
    ensures forall g :: g in r <==> g in Groups(fixture)
    ensures |r| == |Groups(fixture)| && Distinct(r)
  {
    PairOrderIsTotal();
    Sorted(Groups(fixture), PairOrder())
  }

  // ---- What the statements wrote ----

  /** Every row of the whole is in exactly one of the parts, and there are no others. */
  ghost predicate Divides(parts: seq<set<Key>>, whole: set<Key>) {
    && (forall i :: 0 <= i < |parts| ==> parts[i] <= whole)
    && (forall k :: k in whole ==> exists i :: 0 <= i < |parts| && k in parts[i])
    && (forall i, j :: 0 <= i < j < |parts| ==> parts[i] !! parts[j])
  }

  lemma NothingDivides()
    ensures Divides([], {})
  {
  }

  lemma DividesAppend(a: seq<set<Key>>, b: seq<set<Key>>, x: set<Key>, y: set<Key>)
    requires Divides(a, x) && Divides(b, y) && x !! y
    ensures Divides(a + b, x + y)
  {
    var all := a + b;
    forall k | k in x + y ensures exists i :: 0 <= i < |all| && k in all[i] {
      if k in x {
        var i :| 0 <= i < |a| && k in a[i];
        assert all[i] == a[i];
      } else {
        var i :| 0 <= i < |b| && k in b[i];
        assert all[|a| + i] == b[i];
      }
    }
  }

  /** The statements since the log was `before`: so many, each of at most `size` rows, and every
      row of the whole written by exactly one of them. */
  ghost predicate WroteOnce(before: seq<set<Key>>, log: seq<set<Key>>, whole: set<Key>, size: nat, statements: nat) {
    && before <= log && |log| == |before| + statements
    && Divides(log[|before|..], whole)
    && forall i :: |before| <= i < |log| ==> |log[i]| <= size
  }

  lemma NothingWrote(before: seq<set<Key>>, size: nat)
    ensures WroteOnce(before, before, {}, size, 0)
  {
  }

  lemma WroteMore(a: seq<set<Key>>, b: seq<set<Key>>, c: seq<set<Key>>, x: set<Key>, y: set<Key>, size: nat,
    m: nat, n: nat)
    requires WroteOnce(a, b, x, size, m) && WroteOnce(b, c, y, size, n) && x !! y
    ensures WroteOnce(a, c, x + y, size, m + n)
  {
    DividesAppend(b[|a|..], c[|b|..], x, y);
    assert c[|a|..] == b[|a|..] + c[|b|..];
    assert forall i :: |a| <= i < |b| ==> c[i] == b[i];
  }

  lemma OneStatementWrote(before: seq<set<Key>>, whole: set<Key>, size: nat)
    requires |whole| <= size
    ensures WroteOnce(before, before + [whole], whole, size, 1)
  {
    var parts := [whole];
    assert (before + parts)[|before|..] == parts && parts[0] == whole;
  }

  ghost predicate Ready(conn: Connection, base: Store, mode: Mode)
    reads conn
  {
    conn.committed == base && conn.pending == if mode == OneRun then Some(base) else None
  }

  /** Since `start` nothing failed, or the last step did. */
  ghost predicate RunsOn(conn: Connection, ok: bool, start: nat)
    reads conn
  {
    start <= conn.clock &&
      if ok then NoFault(conn.faults, start, conn.clock) else Stopped(conn.faults, start, conn.clock)
  }

  /** One bounded update statement. */
  method RefreshBatch(conn: Connection, g: Group, ids: seq<Key>, mode: Mode, ghost base: Store)
    returns (ok: bool, touched: nat)
    requires Ready(conn, base, mode)
    modifies conn`clock, conn`pending, conn`committed, conn`log
    ensures conn.committed == base
    ensures ok ==> Ready(conn, base, mode) && touched == |Touched(base, g.0, g.1, ids)|
    ensures ok ==> conn.log == old(conn.log) + [Touched(base, g.0, g.1, ids)]
    ensures RunsOn(conn, ok, old(conn.clock))
  {
    hide NoFault, Stopped, Touched;
    ghost var start := conn.clock;
    NoFaultSoFar(conn.faults, start, start);
    touched := 0;
    if mode == PerBatch {
      ok := conn.Begin();
      if !ok { return; }
    }
    NoFaultSoFar(conn.faults, start, conn.clock);
    ok, touched := conn.Refresh(g.0, g.1, ids);
    if !ok { return; }
    if mode == PerBatch {
      NoFaultSoFar(conn.faults, start, conn.clock);
      ok := conn.Commit();
      if !ok { return; }
    }
    NoFaultSoFar(conn.faults, start, conn.clock);
    ok := conn.Step();
  }

  lemma TouchedInParts(base: Store, g: Group, ids: seq<Key>, lo: nat, hi: nat)
    requires lo <= hi <= |ids| && Distinct(ids)
    ensures var a, b := Touched(base, g.0, g.1, ids[..lo]), Touched(base, g.0, g.1, ids[lo..hi]);
      a !! b && a + b == Touched(base, g.0, g.1, ids[..hi]) && |a| + |b| == |Touched(base, g.0, g.1, ids[..hi])|
    ensures |Touched(base, g.0, g.1, ids[lo..hi])| <= hi - lo
  {
    var a, b := Touched(base, g.0, g.1, ids[..lo]), Touched(base, g.0, g.1, ids[lo..hi]);
    assert ids[..hi] == ids[..lo] + ids[lo..hi];
    assert a !! b;
    assert a + b == Touched(base, g.0, g.1, ids[..hi]);
    DistinctSize(ids[lo..hi]);
    SubsetSize(b, KeySet(ids[lo..hi]));
  }

  lemma BatchesOneMore(n: nat, size: nat, rest: nat)
    requires size > 0 && IsMultiple(n, size)
    ensures Batches(n + rest, size) == Batches(n, size) + Batches(rest, size)
    decreases n
  {
    if n > size {
      BatchesOneMore(n - size, size, rest);
    }
  }

  /** The batches up to `done` are refreshed and counted: each row by one statement. */
  ghost predicate Counted(base: Store, g: Group, ids: seq<Key>, done: nat, size: nat, touched: nat, statements: nat,
    before: seq<set<Key>>, log: seq<set<Key>>)
    requires size > 0 && done <= |ids|
  {
    && statements == Batches(done, size) && touched == |Touched(base, g.0, g.1, ids[..done])|
    && WroteOnce(before, log, Touched(base, g.0, g.1, ids[..done]), size, statements)
  }

  lemma CountedOneMore(base: Store, g: Group, ids: seq<Key>, done: nat, hi: nat, size: nat, touched: nat,
    statements: nat, before: seq<set<Key>>, log: seq<set<Key>>)
    requires size > 0 && Distinct(ids) && done < hi <= |ids| && hi - done <= size && IsMultiple(done, size)
    requires Counted(base, g, ids, done, size, touched, statements, before, log)
    ensures var more := Touched(base, g.0, g.1, ids[done..hi]);
      Counted(base, g, ids, hi, size, touched + |more|, statements + 1, before, log + [more])
  {
    hide Touched, WroteOnce, Batches, Distinct;
    var more := Touched(base, g.0, g.1, ids[done..hi]);
    TouchedInParts(base, g, ids, done, hi);
    BatchesOneMore(done, size, hi - done);
    OneBatch(hi - done, size);
    OneStatementWrote(log, more, size);
    WroteMore(before, log, log + [more], Touched(base, g.0, g.1, ids[..done]), more, size, statements, 1);
  }

  lemma OneBatch(n: nat, size: nat)
    requires 0 < n <= size
    ensures Batches(n, size) == 1
  {
  }

  lemma NothingRefreshed(base: Store, g: Group, ids: seq<Key>, size: nat, log: seq<set<Key>>)
    requires size > 0
    ensures Counted(base, g, ids, 0, size, 0, 0, log, log)
  {
    assert Touched(base, g.0, g.1, ids[..0]) == {};
    NothingWrote(log, size);
  }

  /** One group: its identities in key order, a bounded number to a statement. */
  method RefreshGroup(conn: Connection, g: Group, ids: seq<Key>, size: nat, mode: Mode, ghost base: Store)
    returns (ok: bool, touched: nat, statements: nat)
    requires size > 0 && Distinct(ids) && Ready(conn, base, mode)
    modifies conn`clock, conn`pending, conn`committed, conn`log
    ensures conn.committed == base
    ensures ok ==> Ready(conn, base, mode)
    ensures ok ==> statements == Batches(|ids|, size) && touched == |Touched(base, g.0, g.1, ids)|
    ensures ok ==> WroteOnce(old(conn.log), conn.log, Touched(base, g.0, g.1, ids), size, statements)
    ensures RunsOn(conn, ok, old(conn.clock))
  {
    hide Touched, Batches, Distinct, NoFault, Stopped, WroteOnce;
    ghost var start, before := conn.clock, conn.log;
    touched, statements := 0, 0;
    NothingRefreshed(base, g, ids, size, before);
    NoFaultSoFar(conn.faults, start, start);
    var batch: seq<Key> := [];
    ghost var done: nat := 0;
    for i := 0 to |ids|
      invariant done <= i && i - done < size && batch == ids[done..i]
      invariant Ready(conn, base, mode) && IsMultiple(done, size) && RunsOn(conn, true, start)
      invariant Counted(base, g, ids, done, size, touched, statements, before, conn.log)
    {
      NoFaultSoFar(conn.faults, start, conn.clock);
      ok := conn.Step();
      if !ok { return; }
      batch := batch + [ids[i]];
      assert batch == ids[done..i + 1];
      if |batch| < size { continue; }
      ghost var log, ticks := conn.log, conn.clock;
      var n: nat;
      ok, n := RefreshBatch(conn, g, batch, mode, base);
      OneRunAfterAnother(conn.faults, start, ticks, conn.clock, false);
      if !ok { return; }
      CountedOneMore(base, g, ids, done, i + 1, size, touched, statements, before, log);
      touched, statements, batch := touched + n, statements + 1, [];
      done := i + 1;
    }
    ok := true;
    assert ids[..|ids|] == ids;
    if batch != [] {
      ghost var log, ticks := conn.log, conn.clock;
      var n: nat;
      ok, n := RefreshBatch(conn, g, batch, mode, base);
      OneRunAfterAnother(conn.faults, start, ticks, conn.clock, false);
      CountedOneMore(base, g, ids, done, |ids|, size, touched, statements, before, log);
      touched, statements := touched + n, statements + 1;
    }
  }

  lemma GroupTouches(base: Store, fixture: Store, g: Group)
    ensures Touched(base, g.0, g.1, InOrder(GroupIds(fixture, g)))
         == set k | k in Matching(base, fixture) && GroupOf(fixture.chunks[k]) == g
  {
  }

  lemma MatchingOneMore(base: Store, fixture: Store, groups: seq<Group>, i: nat)
    requires i < |groups| && Distinct(groups)
    ensures var g := groups[i]; var a, b := MatchingIn(base, fixture, groups[..i]),
        Touched(base, g.0, g.1, InOrder(GroupIds(fixture, g)));
      && a !! b && MatchingIn(base, fixture, groups[..i + 1]) == a + b
      && |MatchingIn(base, fixture, groups[..i + 1])| == |a| + |b|
  {
    var g := groups[i];
    GroupTouches(base, fixture, g);
    var a, b := MatchingIn(base, fixture, groups[..i]), Touched(base, g.0, g.1, InOrder(GroupIds(fixture, g)));
    assert groups[..i + 1] == groups[..i] + [g];
    assert MatchingIn(base, fixture, groups[..i + 1]) == a + b;
    assert a !! b;
  }

  lemma AllGroups(base: Store, fixture: Store)
    ensures MatchingIn(base, fixture, GroupsInOrder(fixture)) == Matching(base, fixture)
  {
    forall k | k in Matching(base, fixture) ensures GroupOf(fixture.chunks[k]) in GroupsInOrder(fixture) {
      assert GroupOf(fixture.chunks[k]) in Groups(fixture);
    }
  }

  datatype Refresh = Refresh(groups: nat, rowsTouched: nat, statements: nat)

  function RefreshOf(base: Store, fixture: Store, size: nat): Refresh
    requires size > 0
  {
    Refresh(|Groups(fixture)|, |Matching(base, fixture)|, StatementsOf(fixture, GroupsInOrder(fixture), size))
  }

  /** The first `i` groups are refreshed and counted: each matching row by one statement. */
  ghost predicate GroupsCounted(base: Store, fixture: Store, groups: seq<Group>, i: nat, size: nat, touched: nat,
    statements: nat, before: seq<set<Key>>, log: seq<set<Key>>)
    requires size > 0 && i <= |groups|
  {
    && statements == StatementsOf(fixture, groups[..i], size) && touched == |MatchingIn(base, fixture, groups[..i])|
    && WroteOnce(before, log, MatchingIn(base, fixture, groups[..i]), size, statements)
  }

  lemma GroupsCountedOneMore(base: Store, fixture: Store, groups: seq<Group>, i: nat, size: nat, touched: nat,
    statements: nat, before: seq<set<Key>>, log: seq<set<Key>>, more: seq<set<Key>>)
    requires size > 0 && i < |groups| && Distinct(groups)
    requires GroupsCounted(base, fixture, groups, i, size, touched, statements, before, log)
    requires var g, ids := groups[i], InOrder(GroupIds(fixture, groups[i]));
      WroteOnce(log, more, Touched(base, g.0, g.1, ids), size, Batches(|ids|, size))
    ensures var g, ids := groups[i], InOrder(GroupIds(fixture, groups[i]));
      GroupsCounted(base, fixture, groups, i + 1, size,
        touched + |Touched(base, g.0, g.1, ids)|, statements + Batches(|ids|, size), before, more)
  {
    hide Touched, WroteOnce, Batches, Distinct, MatchingIn, InOrder, GroupIds;
    var g, ids := groups[i], InOrder(GroupIds(fixture, groups[i]));
    MatchingOneMore(base, fixture, groups, i);
    WroteMore(before, log, more, MatchingIn(base, fixture, groups[..i]), Touched(base, g.0, g.1, ids), size,
      statements, Batches(|ids|, size));
    assert groups[..i + 1][..i] == groups[..i];
  }

  lemma NoGroups(base: Store, fixture: Store, groups: seq<Group>, size: nat, log: seq<set<Key>>)
    requires size > 0
    ensures GroupsCounted(base, fixture, groups, 0, size, 0, 0, log, log)
  {
    assert MatchingIn(base, fixture, groups[..0]) == {};
    NothingWrote(log, size);
  }

  /** The loop over the groups. */
  method RefreshGroups(conn: Connection, fixture: Store, groups: seq<Group>, size: nat, mode: Mode, ghost base: Store)
    returns (ok: bool, r: Refresh)
    requires size > 0 && Distinct(groups) && Ready(conn, base, mode)
    modifies conn`clock, conn`pending, conn`committed, conn`log
    ensures conn.committed == base
    ensures ok ==> Ready(conn, base, mode) && r.groups == |groups|
    ensures ok ==>
      GroupsCounted(base, fixture, groups, |groups|, size, r.rowsTouched, r.statements, old(conn.log), conn.log)
    ensures RunsOn(conn, ok, old(conn.clock))
  {
    hide GroupsCounted, NoFault, Stopped, Distinct, InOrder, GroupIds, Touched, Batches, WroteOnce;
    ghost var start, before := conn.clock, conn.log;
    ok, r := true, Refresh(0, 0, 0);
    NoGroups(base, fixture, groups, size, before);
    NoFaultSoFar(conn.faults, start, start);
    for i := 0 to |groups|
      invariant Ready(conn, base, mode) && r.groups == i && ok && RunsOn(conn, true, start)
      invariant GroupsCounted(base, fixture, groups, i, size, r.rowsTouched, r.statements, before, conn.log)
    {
      NoFaultSoFar(conn.faults, start, conn.clock);
      ok := conn.Step();
      if !ok { return; }
      ghost var log, ticks := conn.log, conn.clock;
      var n: nat, m: nat;
      ok, n, m := RefreshGroup(conn, groups[i], InOrder(GroupIds(fixture, groups[i])), size, mode, base);
      OneRunAfterAnother(conn.faults, start, ticks, conn.clock, false);
      if !ok { return; }
      GroupsCountedOneMore(base, fixture, groups, i, size, r.rowsTouched, r.statements, before, log, conn.log);
      r := Refresh(i + 1, r.rowsTouched + n, r.statements + m);
    }
  }

  /** The body of the protected block. */
  method RefreshAndCommit(conn: Connection, fixture: Store, size: nat, mode: Mode, ghost base: Store)
    returns (r: Option<Refresh>)
    requires size > 0 && Ready(conn, base, mode)
    modifies conn`clock, conn`pending, conn`committed, conn`log
    ensures conn.committed == base
    ensures r.Some? ==> conn.pending == None && r.value == RefreshOf(base, fixture, size)
    ensures r.Some? ==> WroteOnce(old(conn.log), conn.log, Matching(base, fixture), size, r.value.statements)
    ensures RunsOn(conn, r.Some?, old(conn.clock))
  {
    hide GroupsInOrder, MatchingIn, Matching, StatementsOf, NoFault, Stopped, WroteOnce;
    ghost var start := conn.clock;
    var groups := GroupsInOrder(fixture);
    var ok, counts := RefreshGroups(conn, fixture, groups, size, mode, base);
    if !ok { return None; }
    assert groups[..|groups|] == groups;
    AllGroups(base, fixture);
    NoFaultSoFar(conn.faults, start, conn.clock);
    if mode == OneRun {
      ok := conn.Commit();
      if !ok { return None; }
      NoFaultSoFar(conn.faults, start, conn.clock);
    }
    ok := conn.Step();
    return if ok then Some(counts) else None;
  }

  /** `_replay_refresh`: whatever fails, the stored tables do not change and nothing is left
      pending, unless the rollback itself fails; without a fault in the run, every row that is
      active in the same group of both databases was written by exactly one statement of at
      most `size` rows, and no other row by any. */
  method ReplayRefresh(conn: Connection, fixture: Store, size: nat, mode: Mode) returns (r: Option<Refresh>)
    requires size > 0 && conn.pending == None
    modifies conn`clock, conn`pending, conn`committed, conn`log
    ensures conn.committed == old(conn.committed)
    ensures r.Some? ==> conn.pending == None && r.value == RefreshOf(old(conn.committed), fixture, size)
    ensures r.Some? ==>
      WroteOnce(old(conn.log), conn.log, Matching(old(conn.committed), fixture), size, r.value.statements)
    ensures r == None ==> conn.Settled()
    ensures conn.clock > old(conn.clock)
    ensures || RunsOn(conn, r.Some?, old(conn.clock))
            || (r == None && Stopped(conn.faults, old(conn.clock), conn.clock - 1))
    ensures Faultless(conn) ==> r.Some?
  {
    hide NoFault, Stopped, WroteOnce, Matching, RefreshOf;
    ghost var start := conn.clock;
    if Faultless(conn) { FaultlessEnds(conn.faults, start, start + 1, false); }
    NoFaultSoFar(conn.faults, start, start);
    NoFaultSoFar(conn.faults, start, start + 1);
    var ok := conn.Step();
    if !ok { return None; }
    if mode == OneRun {
      ok := conn.Begin();
      if !ok { return None; }
    }
    ghost var begun := conn.clock;
    r := RefreshAndCommit(conn, fixture, size, mode, conn.committed);
    OneRunAfterAnother(conn.faults, start, begun, conn.clock, false);
    if Faultless(conn) { FaultlessEnds(conn.faults, start, conn.clock, false); }
    if r == None && conn.pending.Some? { conn.Rollback(); }
  }

  /** The check on the touched rows passes exactly when every active row of the fixture is
      still active, in its group, in the case. */
  lemma RefreshCountIsExact(base: Store, fixture: Store, size: nat)
    requires size > 0
    ensures RefreshOf(base, fixture, size).rowsTouched <= |ActiveIds(fixture)|
    ensures RefreshOf(base, fixture, size).rowsTouched == |ActiveIds(fixture)| <==>
      forall k :: k in ActiveIds(fixture) ==>
        k in ActiveIds(base) && GroupOf(base.chunks[k]) == GroupOf(fixture.chunks[k])
  {
    var m, a := Matching(base, fixture), ActiveIds(fixture);
    SubsetSize(m, a);
  }
}
