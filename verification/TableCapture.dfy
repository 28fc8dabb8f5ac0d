/** Capturing a bounded fixture from a source database: the first chunks in key order and
    exactly the parents they refer to. */
module TableCapture {
  import opened Prelude
  import opened Ordering
  import opened SemanticStore
  import opened TableDigests
  import opened BatchedWrites

  function KeySet(keys: seq<Key>): (s: set<Key>)
    ensures forall k :: k in s <==> k in keys
  {
    set k | k in keys
  }

  function Parents(store: Store, ids: seq<Key>): map<Key, Parent>
    requires forall k :: k in ids ==> k in store.parents
  {
    map k | k in KeySet(ids) :: store.parents[k]
  }

  function Chunks(store: Store, ids: seq<Key>): map<Key, Chunk>
    requires forall k :: k in ids ==> k in store.chunks
  {
    map k | k in KeySet(ids) :: store.chunks[k]
  }

  // ---- Statements for stored rows ----

  function ParentInserts(store: Store, ids: seq<Key>): seq<Statement>
    requires forall k :: k in ids ==> k in store.parents
  {
    seq(|ids|, i requires 0 <= i < |ids| => InsertParent(store.parents[ids[i]]))
  }

  function ChunkWrites(store: Store, ids: seq<Key>, upsert: bool): seq<Statement>
    requires forall k :: k in ids ==> k in store.chunks
  {
    seq(|ids|, i requires 0 <= i < |ids| =>
      if upsert then UpsertChunk(store.chunks[ids[i]]) else InsertChunk(store.chunks[ids[i]]))
  }

  lemma OneMoreKey<V>(source: map<Key, V>, base: map<Key, V>, init: seq<Key>, last: Key)
    requires (forall k :: k in init ==> k in source) && last in source
    ensures base + (map k | k in KeySet(init + [last]) :: source[k])
         == (base + (map k | k in KeySet(init) :: source[k]))[last := source[last]]
  {
    assert KeySet(init + [last]) == KeySet(init) + {last};
  }

  lemma InsertsSnoc(source: Store, init: seq<Key>, last: Key)
    requires (forall k :: k in init ==> k in source.parents) && last in source.parents
    ensures ParentInserts(source, init + [last]) == ParentInserts(source, init) + [InsertParent(source.parents[last])]
  {
  }

  lemma WritesSnoc(source: Store, init: seq<Key>, last: Key, upsert: bool)
    requires (forall k :: k in init ==> k in source.chunks) && last in source.chunks
    ensures var c := source.chunks[last];
      ChunkWrites(source, init + [last], upsert)
        == ChunkWrites(source, init, upsert) + [if upsert then UpsertChunk(c) else InsertChunk(c)]
  {
  }

  lemma KeyedAt(source: Store, k: Key)
    requires Keyed(source)
    ensures k in source.parents ==> source.parents[k].id == k
    ensures k in source.chunks ==> source.chunks[k].id == k
  {
  }

  lemma {:induction false} ParentsWritten(base: Store, source: Store, ids: seq<Key>)
    requires Keyed(source) && forall k :: k in ids ==> k in source.parents
    requires ExecuteAll(base, ParentInserts(source, ids)).Some?
    ensures ExecuteAll(base, ParentInserts(source, ids))
         == Some(Store(base.parents + Parents(source, ids), base.chunks))
  {
    if ids != [] {
      hide ExecuteAll, ParentInserts, KeySet, Keyed;
      var init, last := ids[..|ids| - 1], ids[|ids| - 1];
      assert ids == init + [last] && last in ids;
      InsertsSnoc(source, init, last);
      ExecuteSnoc(base, ParentInserts(source, init), InsertParent(source.parents[last]));
      ParentsWritten(base, source, init);
      KeyedAt(source, last);
      OneMoreKey(source.parents, base.parents, init, last);
    } else {
      assert base.parents + Parents(source, ids) == base.parents;
    }
  }

  lemma {:induction false} ChunksWritten(base: Store, source: Store, ids: seq<Key>, upsert: bool)
    requires Keyed(source) && Keyed(base) && forall k :: k in ids ==> k in source.chunks
    requires ExecuteAll(base, ChunkWrites(source, ids, upsert)).Some?
    ensures ExecuteAll(base, ChunkWrites(source, ids, upsert))
         == Some(Store(base.parents, base.chunks + Chunks(source, ids)))
  {
    if ids != [] {
      hide ExecuteAll, ChunkWrites, KeySet;
      var init, last := ids[..|ids| - 1], ids[|ids| - 1];
      assert ids == init + [last] && last in ids;
      WritesSnoc(source, init, last, upsert);
      var c := source.chunks[last];
      ExecuteSnoc(base, ChunkWrites(source, init, upsert), if upsert then UpsertChunk(c) else InsertChunk(c));
      ChunksWritten(base, source, init, upsert);
      OneMoreKey(source.chunks, base.chunks, init, last);
    } else {
      assert base.chunks + Chunks(source, ids) == base.chunks;
    }
  }

  lemma {:induction false} ParentsAccepted(base: Store, source: Store, ids: seq<Key>)
    requires Keyed(source) && Distinct(ids) && forall k :: k in ids ==> k in source.parents && k !in base.parents
    ensures ExecuteAll(base, ParentInserts(source, ids)).Some?
  {
    if ids != [] {
      var rows, init := ParentInserts(source, ids), ids[..|ids| - 1];
      assert rows[..|rows| - 1] == ParentInserts(source, init);
      ParentsAccepted(base, source, init);
      ParentsWritten(base, source, init);
    }
  }

  lemma {:induction false} ChunksAccepted(base: Store, source: Store, ids: seq<Key>, upsert: bool)
    requires Keyed(source) && Keyed(base) && Distinct(ids)
    requires forall k :: k in ids ==>
      k in source.chunks && source.chunks[k].item in base.parents && (upsert || k !in base.chunks)
    ensures ExecuteAll(base, ChunkWrites(source, ids, upsert)).Some?
  {
    if ids != [] {
      var rows, init := ChunkWrites(source, ids, upsert), ids[..|ids| - 1];
      assert rows[..|rows| - 1] == ChunkWrites(source, init, upsert);
      ChunksAccepted(base, source, init, upsert);
      ChunksWritten(base, source, init, upsert);
    }
  }

  // ---- What a capture selects ----

  function SelectedIds(source: Store, limit: Option<nat>): (ids: seq<Key>)
    ensures Distinct(ids) && forall k :: k in ids ==> k in source.chunks
  {
    var ids := InOrder(source.chunks.Keys);
    match limit
    case None => ids
    case Some(n) => ids[..Min(n, |ids|)]
  }

  function ItemsOf(source: Store, ids: seq<Key>): set<Key>
    requires forall k :: k in ids ==> k in source.chunks
  {
    set k | k in ids :: source.chunks[k].item
  }

  function ParentIds(source: Store, limit: Option<nat>): seq<Key> {
    InOrder(ItemsOf(source, SelectedIds(source, limit)))
  }

  /** No selected chunk lacks its parent. */
  ghost predicate ParentsPresent(source: Store, limit: Option<nat>) {
    forall k :: k in ParentIds(source, limit) ==> k in source.parents
  }

  function Captured(source: Store, limit: Option<nat>): Store
    requires ParentsPresent(source, limit)
  {
    Store(Parents(source, ParentIds(source, limit)), Chunks(source, SelectedIds(source, limit)))
  }

  /** As many chunks as the limit allows, none of them behind one left out in the order of the
      bytes of the keys, with exactly their parents, and every row the source's own. */
  ghost predicate TakesFirst(source: Store, limit: Option<nat>, c: Store) {
    && (forall k :: k in c.chunks ==>
         k in source.chunks && c.chunks[k] == source.chunks[k] && c.chunks[k].item in c.parents)
    && (forall p :: p in c.parents ==> p in source.parents && c.parents[p] == source.parents[p])
    && (forall p :: p in c.parents ==> exists k :: k in c.chunks && c.chunks[k].item == p)
    && (forall k, l :: k in c.chunks && l in source.chunks && l !in c.chunks ==> Precedes(k, l))
    && |c.chunks| == (if limit.Some? && limit.value < |source.chunks| then limit.value else |source.chunks|)
  }

  lemma CapturedIsClosed(source: Store, limit: Option<nat>)
    requires Keyed(source) && ParentsPresent(source, limit)
    ensures var c := Captured(source, limit);
      && c.Valid()
      && (forall k :: k in c.chunks ==>
           k in source.chunks && c.chunks[k] == source.chunks[k] && c.chunks[k].item in c.parents)
      && (forall p :: p in c.parents ==> p in source.parents && c.parents[p] == source.parents[p])
      && (forall p :: p in c.parents ==> exists k :: k in c.chunks && c.chunks[k].item == p)
  {
    var c, ids := Captured(source, limit), SelectedIds(source, limit);
    forall p | p in c.parents ensures exists k :: k in c.chunks && c.chunks[k].item == p {
      var k :| k in ids && source.chunks[k].item == p;
      assert k in c.chunks;
    }
    forall k | k in c.chunks ensures c.chunks[k].item in c.parents {
      assert source.chunks[k].item in ItemsOf(source, ids);
    }
  }

  lemma SelectedAreFirst(source: Store, limit: Option<nat>)
    requires ParentsPresent(source, limit)
    ensures var c := Captured(source, limit);
      && (forall k, l :: k in c.chunks && l in source.chunks && l !in c.chunks ==> Precedes(k, l))
      && |c.chunks| == (if limit.Some? && limit.value < |source.chunks| then limit.value else |source.chunks|)
  {
    hide Precedes, SelectedIds, ParentIds, Parents;
    var c, ids := Captured(source, limit), SelectedIds(source, limit);
    assert c.chunks.Keys == KeySet(ids);
    forall k, l | k in c.chunks && l in source.chunks && l !in c.chunks ensures Precedes(k, l) {
      SelectedComeFirst(source, limit, k, l);
    }
    SizeOf(c.chunks, ids);
    SelectedSize(source, limit);
  }

  /** A captured fixture is closed and minimal under its foreign key, every row is the source's
      own, and the chunks are the first ones. */
  lemma CapturedIsClosedAndMinimal(source: Store, limit: Option<nat>)
    requires Keyed(source) && ParentsPresent(source, limit)
    ensures var c := Captured(source, limit); c.Valid() && TakesFirst(source, limit, c)
  {
    hide Precedes, Captured, ParentsPresent, Keyed;
    CapturedIsClosed(source, limit);
    SelectedAreFirst(source, limit);
  }

  lemma SelectedSize(source: Store, limit: Option<nat>)
    ensures |SelectedIds(source, limit)|
         == if limit.Some? && limit.value < |source.chunks| then limit.value else |source.chunks|
  {
    assert |InOrder(source.chunks.Keys)| == |source.chunks.Keys| == |source.chunks|;
  }

  lemma SelectedComeFirst(source: Store, limit: Option<nat>, k: Key, l: Key)
    requires k in SelectedIds(source, limit) && l in source.chunks && l !in SelectedIds(source, limit)
    ensures Precedes(k, l)
  {
    hide LexLe, Precedes, Sorted, TotalOrder;
    LexExactly(k, l);
    ByteOrderIsTotal();
    var all, ids := Sorted(source.chunks.Keys, ByteOrder()), SelectedIds(source, limit);
    assert l in all;
    var i :| 0 <= i < |ids| && ids[i] == k;
    var j :| 0 <= j < |all| && all[j] == l;
    assert forall m :: 0 <= m < |ids| ==> all[m] == ids[m] && ids[m] in ids;
    assert all[i] == k && ByteOrder()(k, l);
  }

  // ---- Capturing ----

  function ActiveIds(store: Store): set<Key> {
    set k | k in store.chunks && store.chunks[k].active
  }

  function GroupOf(c: Chunk): (Key, Key) { (c.item, c.signature) }

  function Groups(store: Store): set<(Key, Key)> {
    set k | k in ActiveIds(store) :: GroupOf(store.chunks[k])
  }

  datatype Fixture = Fixture(rowCount: nat, parentCount: nat, activeRows: nat, activeGroups: nat)

  function Described(store: Store): Fixture {
    Fixture(|store.chunks|, |store.parents|, |ActiveIds(store)|, |Groups(store)|)
  }

  function Present(source: Store, ids: seq<Key>): (r: seq<Key>)
    ensures |r| <= |ids|
    ensures |r| == |ids| ==> r == ids
    ensures |r| == |ids| <==> forall k :: k in ids ==> k in source.parents
  {
    if ids == [] then []
    else
      assert ids == [ids[0]] + ids[1..];
      (if ids[0] in source.parents then [ids[0]] else []) + Present(source, ids[1..])
  }

  lemma KeysAppend<V>(source: map<Key, V>, a: seq<Key>, b: seq<Key>)
    requires (forall k :: k in a ==> k in source) && (forall k :: k in b ==> k in source)
    ensures (map k | k in KeySet(a) :: source[k]) + (map k | k in KeySet(b) :: source[k])
         == map k | k in KeySet(a + b) :: source[k]
  {
    assert KeySet(a + b) == KeySet(a) + KeySet(b);
  }

  /** A single batch fits when its bytes do. */
  lemma OneBatchFits(rows: seq<Statement>, size: nat, sizes: Sizes)
    requires size > 0 && |rows| <= size
    ensures BatchesFit(rows, size, sizes) <==> BytesOf(rows, sizes) <= MAX_BATCH_BYTES
  {
    NothingWritten(EMPTY, rows, size, sizes);
    assert rows[0..|rows|] == rows == rows[..|rows|] && rows[..0] == [] && IsMultiple(0, size);
    NoBatches(rows, size, sizes);
    if BytesOf(rows, sizes) <= MAX_BATCH_BYTES { OneMoreBatchFits(rows, 0, |rows|, size, sizes); }
  }

  lemma GroupAccepted(source: Store, ids: seq<Key>, lo: nat, hi: nat)
    requires Keyed(source) && Distinct(ids) && lo <= hi <= |ids| && forall k :: k in ids ==> k in source.parents
    ensures ExecuteAll(Store(Parents(source, ids[..lo]), map[]), ParentInserts(source, ids[lo..hi])).Some?
  {
    ParentsAccepted(Store(Parents(source, ids[..lo]), map[]), source, ids[lo..hi]);
  }

  lemma BatchAccepted(source: Store, ids: seq<Key>, lo: nat, hi: nat, parents: map<Key, Parent>)
    requires Keyed(source) && Distinct(ids) && lo <= hi <= |ids| && (forall k :: k in parents ==> parents[k].id == k)
    requires forall k :: k in ids ==> k in source.chunks && source.chunks[k].item in parents
    ensures ExecuteAll(Store(parents, Chunks(source, ids[..lo])), ChunkWrites(source, ids[lo..hi], false)).Some?
  {
    ChunksAccepted(Store(parents, Chunks(source, ids[..lo])), source, ids[lo..hi], false);
  }

  /** All parents are there for the asking. */
  ghost predicate AllPresent(source: Store, ids: seq<Key>) {
    Distinct(ids) && forall k :: k in ids ==> k in source.parents
  }

  /** The group is there and its bytes are within the bound of a batch. */
  ghost predicate GroupFits(source: Store, group: seq<Key>, sizes: Sizes) {
    (forall k :: k in group ==> k in source.parents) && BytesOf(ParentInserts(source, group), sizes) <= MAX_BATCH_BYTES
  }

  /** One group of parents, looked up and moved into the spool as one batch. */
  method SpoolParents(source: Store, ids: seq<Key>, lo: nat, hi: nat, size: nat, sizes: Sizes, spool: Connection)
    returns (ok: bool)
    requires Keyed(source) && size > 0 && spool.pending == None && lo <= hi <= |ids| && hi - lo <= size
    requires forall k :: k in ids[..lo] ==> k in source.parents
    requires spool.committed == Store(Parents(source, ids[..lo]), map[])
    modifies spool
    ensures ok ==> forall k :: k in ids[..hi] ==> k in source.parents
    ensures ok ==> spool.pending == None && spool.committed == Store(Parents(source, ids[..hi]), map[])
    ensures ok ==> GroupFits(source, ids[lo..hi], sizes)
    ensures Faultless(spool) && AllPresent(source, ids) && GroupFits(source, ids[lo..hi], sizes) ==> ok
  {
    var group := ids[lo..hi];
    var found := Present(source, group);
    assert ids[..lo] + group == ids[..hi];
    if |found| != |group| { return false; }
    OneBatchFits(ParentInserts(source, found), size, sizes);
    if AllPresent(source, ids) { GroupAccepted(source, ids, lo, hi); }
    hide ExecuteAll, Execute, Landed, Present, BatchesFit, BytesOf;
    var r := InsertBatches(spool, ParentInserts(source, found), size, PerBatch, sizes);
    if r.Failed? { return false; }
    ParentsWritten(Store(Parents(source, ids[..lo]), map[]), source, group);
    KeysAppend(source.parents, ids[..lo], group);
    ok := true;
  }

  lemma SliceOfInserts(source: Store, ids: seq<Key>, lo: nat, hi: nat)
    requires lo <= hi <= |ids| && forall k :: k in ids ==> k in source.parents
    ensures ParentInserts(source, ids)[lo..hi] == ParentInserts(source, ids[lo..hi])
  {
  }

  lemma SliceOfWrites(source: Store, ids: seq<Key>, lo: nat, hi: nat)
    requires lo <= hi <= |ids| && forall k :: k in ids ==> k in source.chunks
    ensures ChunkWrites(source, ids, false)[lo..hi] == ChunkWrites(source, ids[lo..hi], false)
  {
  }

  /** How many parents are looked up and moved at a time. */
  function ParentStep(size: nat): (step: nat)
    requires size > 0
    ensures 0 < step <= size
  {
    Min(size, 400)
  }

  ghost predicate ParentsFit(source: Store, ids: seq<Key>, size: nat, sizes: Sizes)
    requires size > 0 && forall k :: k in ids ==> k in source.parents
  {
    BatchesFit(ParentInserts(source, ids), if size < 400 then size else 400, sizes)
  }

  /** The first `n` parents are there, in fitting groups. */
  ghost predicate GroupsFit(source: Store, ids: seq<Key>, n: nat, size: nat, sizes: Sizes)
    requires size > 0 && n <= |ids|
  {
    (forall k :: k in ids[..n] ==> k in source.parents) && ParentsFit(source, ids[..n], size, sizes)
  }

  lemma GroupsFitMore(source: Store, ids: seq<Key>, lo: nat, hi: nat, size: nat, sizes: Sizes)
    requires size > 0 && lo <= hi <= |ids| && hi - lo <= ParentStep(size) && IsMultiple(lo, ParentStep(size))
    requires GroupsFit(source, ids, lo, size, sizes) && forall k :: k in ids[..hi] ==> k in source.parents
    requires GroupFits(source, ids[lo..hi], sizes)
    ensures GroupsFit(source, ids, hi, size, sizes)
  {
    hide BatchesFit, BytesOf, IsMultiple, ParentInserts;
    var first := ids[..hi];
    var rows := ParentInserts(source, first);
    SliceOfInserts(source, first, 0, lo);
    SliceOfInserts(source, first, lo, hi);
    InsertsLength(source, first);
    assert first[0..lo] == ids[..lo] && first[lo..hi] == ids[lo..hi];
    assert rows[..lo] == rows[0..lo] && rows[..hi] == rows;
    OneMoreBatchFits(rows, lo, hi, ParentStep(size), sizes);
  }

  lemma InsertsLength(source: Store, ids: seq<Key>)
    requires forall k :: k in ids ==> k in source.parents
    ensures |ParentInserts(source, ids)| == |ids|
  {
  }

  lemma GroupWithin(source: Store, ids: seq<Key>, lo: nat, hi: nat, size: nat, sizes: Sizes)
    requires size > 0 && lo <= hi <= |ids| && hi - lo <= ParentStep(size) && IsMultiple(lo, ParentStep(size))
    requires (forall k :: k in ids ==> k in source.parents) && ParentsFit(source, ids, size, sizes)
    ensures GroupFits(source, ids[lo..hi], sizes)
  {
    InsertsLength(source, ids);
    SliceOfInserts(source, ids, lo, hi);
    FittingBatch(ParentInserts(source, ids), lo, hi, ParentStep(size), sizes);
  }

  /** The parents of the selected chunks, a bounded group of keys at a time. */
  method CaptureParents(source: Store, parentIds: seq<Key>, size: nat, sizes: Sizes, spool: Connection)
    returns (ok: bool)
    requires Keyed(source) && size > 0 && spool.pending == None && spool.committed == EMPTY
    modifies spool
    ensures ok ==> forall k :: k in parentIds ==> k in source.parents
    ensures ok ==> spool.pending == None && spool.committed == Store(Parents(source, parentIds), map[])
    ensures ok ==> ParentsFit(source, parentIds, size, sizes)
    ensures Faultless(spool) && AllPresent(source, parentIds) && ParentsFit(source, parentIds, size, sizes) ==> ok
  {
    hide BatchesFit, BytesOf, ParentsFit, GroupsFit, GroupFits, ParentInserts;
    var start, step: nat := 0, ParentStep(size);
    assert parentIds[..0] == [];
    NothingGrouped(source, parentIds, size, sizes);
    while start < |parentIds|
      invariant start <= |parentIds| && spool.pending == None
      invariant IsMultiple(start, step) || start == |parentIds|
      invariant forall k :: k in parentIds[..start] ==> k in source.parents
      invariant GroupsFit(source, parentIds, start, size, sizes)
      invariant spool.committed == Store(Parents(source, parentIds[..start]), map[])
    {
      var next := Min(start + step, |parentIds|);
      if AllPresent(source, parentIds) && ParentsFit(source, parentIds, size, sizes) {
        GroupWithin(source, parentIds, start, next, size, sizes);
      }
      ok := SpoolParents(source, parentIds, start, next, size, sizes, spool);
      if !ok { return; }
      GroupsFitMore(source, parentIds, start, next, size, sizes);
      StepIsMultiple(start, step);
      start := next;
    }
    assert parentIds[..start] == parentIds;
    AllGroupsFit(source, parentIds, size, sizes);
    ok := true;
  }

  lemma NothingGrouped(source: Store, ids: seq<Key>, size: nat, sizes: Sizes)
    requires size > 0
    ensures GroupsFit(source, ids, 0, size, sizes) && Parents(source, ids[..0]) == map[]
  {
    assert ids[..0] == [];
    NoBatches(ParentInserts(source, []), ParentStep(size), sizes);
    assert ParentInserts(source, [])[..0] == ParentInserts(source, []);
  }

  lemma AllGroupsFit(source: Store, ids: seq<Key>, size: nat, sizes: Sizes)
    requires size > 0 && GroupsFit(source, ids, |ids|, size, sizes)
    ensures (forall k :: k in ids ==> k in source.parents) && ParentsFit(source, ids, size, sizes)
  {
    assert ids[..|ids|] == ids;
  }

  /** Every listed chunk has its parent. */
  ghost predicate ItemsIn(source: Store, ids: seq<Key>, parents: map<Key, Parent>)
    requires forall k :: k in ids ==> k in source.chunks
  {
    forall k :: k in ids ==> source.chunks[k].item in parents
  }

  /** One batch of selected chunks moved into the spool. */
  method SpoolChunks(source: Store, ids: seq<Key>, lo: nat, hi: nat, ghost parents: map<Key, Parent>, size: nat,
    sizes: Sizes, spool: Connection)
    returns (ok: bool)
    requires Keyed(source) && size > 0 && spool.pending == None && lo <= hi <= |ids| && hi - lo <= size
    requires (forall k :: k in ids ==> k in source.chunks) && (forall k :: k in parents ==> parents[k].id == k)
    requires spool.committed == Store(parents, Chunks(source, ids[..lo]))
    requires BytesOf(ChunkWrites(source, ids, false)[lo..hi], sizes) <= MAX_BATCH_BYTES
    modifies spool
    ensures ok ==> spool.pending == None && spool.committed == Store(parents, Chunks(source, ids[..hi]))
    ensures Faultless(spool) && Distinct(ids) && ItemsIn(source, ids, parents) ==> ok
  {
    hide ExecuteAll, Execute, Landed, BatchesFit, BytesOf;
    var batch := ids[lo..hi];
    SliceOfWrites(source, ids, lo, hi);
    OneBatchFits(ChunkWrites(source, batch, false), size, sizes);
    if Distinct(ids) && ItemsIn(source, ids, parents) { BatchAccepted(source, ids, lo, hi, parents); }
    var r := InsertBatches(spool, ChunkWrites(source, batch, false), size, PerBatch, sizes);
    if r.Failed? { return false; }
    ChunksWritten(Store(parents, Chunks(source, ids[..lo])), source, batch, false);
    KeysAppend(source.chunks, ids[..lo], batch);
    assert ids[..lo] + batch == ids[..hi];
    ok := true;
  }

  function ActiveAmong(source: Store, ids: seq<Key>): set<Key> {
    set k | k in ids && k in source.chunks && source.chunks[k].active
  }

  function GroupsAmong(source: Store, ids: seq<Key>): set<(Key, Key)> {
    set k | k in ActiveAmong(source, ids) :: GroupOf(source.chunks[k])
  }

  lemma ActiveOneMore(source: Store, ids: seq<Key>, i: nat)
    requires i < |ids| && Distinct(ids) && forall k :: k in ids ==> k in source.chunks
    ensures ActiveAmong(source, ids[..i + 1])
         == ActiveAmong(source, ids[..i]) + (if source.chunks[ids[i]].active then {ids[i]} else {})
    ensures ids[i] !in ActiveAmong(source, ids[..i])
  {
    assert ids[..i + 1] == ids[..i] + [ids[i]];
  }

  /** Taking one more row into the running counts. */
  lemma CountsOneMore(source: Store, ids: seq<Key>, i: nat)
    requires i < |ids| && Distinct(ids) && forall k :: k in ids ==> k in source.chunks
    ensures var row, before := source.chunks[ids[i]], ids[..i];
      && |ActiveAmong(source, ids[..i + 1])| == |ActiveAmong(source, before)| + (if row.active then 1 else 0)
      && GroupsAmong(source, ids[..i + 1]) == GroupsAmong(source, before) + (if row.active then {GroupOf(row)} else {})
  {
    ActiveOneMore(source, ids, i);
  }

  lemma NothingCounted(source: Store, ids: seq<Key>)
    ensures ActiveAmong(source, ids[..0]) == {} && GroupsAmong(source, ids[..0]) == {}
  {
  }

  /** The spool holds the first `waiting` chunks beside all parents. */
  ghost predicate Spooled(spool: Connection, parents: map<Key, Parent>, source: Store, ids: seq<Key>, waiting: nat)
    requires forall k :: k in ids ==> k in source.chunks
    reads spool
  {
    waiting <= |ids| && spool.pending == None && spool.committed == Store(parents, Chunks(source, ids[..waiting]))
  }

  const MAX_SINGLE_BLOB_BYTES: nat := 128 * 1024 * 1024

  /** The compressed text of a chunk: its size, if it is a BLOB. */
  type Blobs = Chunk -> Option<nat>

  predicate BlobAllowed(blobs: Blobs, c: Chunk) {
    blobs(c).Some? && blobs(c).value <= MAX_SINGLE_BLOB_BYTES
  }

  /** Every chunk's BLOB and every batch of chunks is within its bound. */
  ghost predicate ChunksFit(source: Store, ids: seq<Key>, size: nat, sizes: Sizes, blobs: Blobs)
    requires size > 0 && forall k :: k in ids ==> k in source.chunks
  {
    && (forall k :: k in ids ==> blobs(source.chunks[k]).Some? && blobs(source.chunks[k]).value <= 134_217_728)
    && BatchesFit(ChunkWrites(source, ids, false), size, sizes)
  }

  /** The selected chunks, checked and counted one by one and moved a batch at a time. */
  method CaptureChunks(source: Store, ids: seq<Key>, ghost parents: map<Key, Parent>, size: nat, sizes: Sizes,
    blobs: Blobs, spool: Connection)
    returns (ok: bool, activeRows: nat, activeGroups: set<(Key, Key)>)
    requires Keyed(source) && size > 0 && Distinct(ids)
    requires (forall k :: k in ids ==> k in source.chunks) && (forall k :: k in parents ==> parents[k].id == k)
    requires Spooled(spool, parents, source, ids, 0)
    modifies spool
    ensures ok ==> Spooled(spool, parents, source, ids, |ids|)
    ensures ok ==> activeRows == |ActiveAmong(source, ids)| && activeGroups == GroupsAmong(source, ids)
    ensures ok ==> ChunksFit(source, ids, size, sizes, blobs)
    ensures Faultless(spool) && ItemsIn(source, ids, parents) && ChunksFit(source, ids, size, sizes, blobs) ==> ok
  {
    hide Chunks, ActiveAmong, GroupsAmong, Distinct, BatchesFit, BytesOf, ChunkWrites, IsMultiple;
    ghost var writes := ChunkWrites(source, ids, false);
    var waiting: nat, waitingBytes: nat := 0, 0;
    activeRows, activeGroups := 0, {};
    NothingCounted(source, ids);
    NothingWaits(source, ids, size, sizes);
    for i := 0 to |ids|
      invariant waiting <= i && i - waiting < size && Spooled(spool, parents, source, ids, waiting)
      invariant IsMultiple(waiting, size) && BatchesFit(writes[..waiting], size, sizes)
      invariant waitingBytes == BytesOf(writes[waiting..i], sizes) && waitingBytes <= MAX_BATCH_BYTES
      invariant forall j :: 0 <= j < i ==> BlobAllowed(blobs, source.chunks[ids[j]])
      invariant activeRows == |ActiveAmong(source, ids[..i])|
      invariant activeGroups == GroupsAmong(source, ids[..i])
    {
      ok := spool.Step();
      if !ok { return; }
      var row := source.chunks[ids[i]];
      if !BlobAllowed(blobs, row) {
        assert ids[i] in ids;
        return false, activeRows, activeGroups;
      }
      CountsOneMore(source, ids, i);
      if row.active {
        activeRows := activeRows + 1;
        activeGroups := activeGroups + {GroupOf(row)};
      }
      WaitingOneMore(source, ids, waiting, i, sizes);
      waitingBytes := waitingBytes + sizes(InsertChunk(row));
      if BatchesFit(writes, size, sizes) { FittingBatch(writes, waiting, i + 1, size, sizes); }
      if waitingBytes > MAX_BATCH_BYTES { return false, activeRows, activeGroups; }
      if i + 1 - waiting == size {
        ok := SpoolChunks(source, ids, waiting, i + 1, parents, size, sizes, spool);
        if !ok { return; }
        OneMoreBatchFits(writes, waiting, i + 1, size, sizes);
        StepIsMultiple(waiting, size);
        waiting, waitingBytes := i + 1, 0;
      }
    }
    assert ids[..|ids|] == ids;
    OneMoreBatchFits(writes, waiting, |ids|, size, sizes);
    assert writes[..|ids|] == writes;
    ok := true;
    if waiting < |ids| {
      ok := SpoolChunks(source, ids, waiting, |ids|, parents, size, sizes, spool);
    }
  }

  lemma NothingWaits(source: Store, ids: seq<Key>, size: nat, sizes: Sizes)
    requires size > 0 && forall k :: k in ids ==> k in source.chunks
    ensures |ChunkWrites(source, ids, false)| == |ids| && IsMultiple(0, size)
    ensures BatchesFit(ChunkWrites(source, ids, false)[..0], size, sizes)
    ensures forall i :: 0 <= i <= |ids| ==> BytesOf(ChunkWrites(source, ids, false)[i..i], sizes) == 0
  {
    NoBatches(ChunkWrites(source, ids, false), size, sizes);
    forall i | 0 <= i <= |ids| ensures BytesOf(ChunkWrites(source, ids, false)[i..i], sizes) == 0 {
      assert ChunkWrites(source, ids, false)[i..i] == [];
    }
  }

  lemma WaitingOneMore(source: Store, ids: seq<Key>, from: nat, to: nat, sizes: Sizes)
    requires from <= to < |ids| && forall k :: k in ids ==> k in source.chunks
    ensures |ChunkWrites(source, ids, false)| == |ids|
    ensures var writes := ChunkWrites(source, ids, false);
      BytesOf(writes[from..to + 1], sizes)
        == BytesOf(writes[from..to], sizes) + sizes(InsertChunk(source.chunks[ids[to]]))
  {
    ExtendBatch(ChunkWrites(source, ids, false), from, to, sizes);
  }

  lemma NothingChosen(source: Store, ids: seq<Key>)
    requires forall k :: k in ids ==> k in source.chunks
    ensures Chunks(source, ids[..0]) == map[]
  {
  }

  lemma ParentsKeyed(source: Store, ids: seq<Key>)
    requires Keyed(source) && forall k :: k in ids ==> k in source.parents
    ensures forall k :: k in Parents(source, ids) ==> Parents(source, ids)[k].id == k
  {
  }

  lemma ItemsCovered(source: Store, limit: Option<nat>)
    requires ParentsPresent(source, limit)
    ensures ItemsIn(source, SelectedIds(source, limit), Parents(source, ParentIds(source, limit)))
  {
    forall k | k in SelectedIds(source, limit) ensures source.chunks[k].item in ParentIds(source, limit) {
      assert source.chunks[k].item in ItemsOf(source, SelectedIds(source, limit));
    }
  }

  /** What a capture demands of the source: chunks to select, their parents, and every BLOB
      and batch within its bound. */
  ghost predicate Capturable(source: Store, limit: Option<nat>, size: nat, sizes: Sizes, blobs: Blobs)
    requires size > 0
  {
    && SelectedIds(source, limit) != [] && ParentsPresent(source, limit)
    && ParentsFit(source, ParentIds(source, limit), size, sizes)
    && ChunksFit(source, SelectedIds(source, limit), size, sizes, blobs)
  }

  lemma SpoolOrder(source: Store, limit: Option<nat>)
    requires ParentsPresent(source, limit)
    ensures InOrder(Captured(source, limit).parents.Keys) == ParentIds(source, limit)
    ensures InOrder(Captured(source, limit).chunks.Keys) == SelectedIds(source, limit)
  {
    hide InOrder;
    var c, ids := Captured(source, limit), SelectedIds(source, limit);
    assert c.parents.Keys == ItemsOf(source, ids);
    FirstInOrder(source.chunks.Keys, |ids|, c.chunks.Keys);
  }

  lemma SpoolRows(source: Store, parentIds: seq<Key>, ids: seq<Key>, w: Schema)
    requires (forall k :: k in ids ==> k in source.chunks) && (forall k :: k in parentIds ==> k in source.parents)
    requires Rectangular(source, w)
    ensures var c := Store(Parents(source, parentIds), Chunks(source, ids));
      && Rectangular(c, w)
      && ParentRows(c, parentIds, w) == ParentRows(source, parentIds, w)
      && ChunkRows(c, ids, w) == ChunkRows(source, ids, w)
  {
    hide Fitting;
    var c := Store(Parents(source, parentIds), Chunks(source, ids));
    assert forall k :: k in c.parents ==> c.parents[k] == source.parents[k];
    assert forall k :: k in c.chunks ==> c.chunks[k] == source.chunks[k];
    assert forall i :: 0 <= i < |parentIds| ==> parentIds[i] in parentIds;
    assert forall i :: 0 <= i < |ids| ==> ids[i] in ids;
  }

  /** The captured rows are in the spool's key order, so the digest of the rows as they came
      from the source is that of the spool. */
  lemma SpoolReadsAlike(h: Hash, source: Store, limit: Option<nat>, w: Schema)
    requires Rectangular(source, w) && ParentsPresent(source, limit)
    ensures Rectangular(Captured(source, limit), w)
    ensures DigestsOf(h, Captured(source, limit), w)
         == DigestsOfRows(h, source, ParentIds(source, limit), SelectedIds(source, limit), w)
  {
    hide DigestsOf, Fitting, InOrder, ParentIds, SelectedIds, ParentRows, ChunkRows, Parents, Chunks, Rectangular;
    SpoolRows(source, ParentIds(source, limit), SelectedIds(source, limit), w);
    SpoolOrder(source, limit);
    DigestsByRows(h, Captured(source, limit), w);
  }

  lemma DigestsByRows(h: Hash, store: Store, w: Schema)
    requires Rectangular(store, w)
    ensures DigestsOf(h, store, w)
         == DigestsOfRows(h, store, InOrder(store.parents.Keys), InOrder(store.chunks.Keys), w)
  {
  }

  /** Capture the selected chunks with their parents into an empty spool, and compare the digest
      of the rows on their way with that of the spool. */
  method Capture(h: Hash, source: Store, limit: Option<nat>, size: nat, sizes: Sizes, blobs: Blobs, w: Schema,
    spool: Connection)
    returns (r: Option<(Fixture, Digests)>)
    requires Keyed(source) && Rectangular(source, w)
    requires size > 0 && spool.pending == None && spool.committed == EMPTY
    modifies spool
    ensures r.Some? ==> Capturable(source, limit, size, sizes, blobs)
    ensures r.Some? ==> spool.pending == None && spool.committed == Captured(source, limit)
    ensures r.Some? ==> TakesFirst(source, limit, spool.committed)
    ensures r.Some? ==> Rectangular(spool.committed, w)
    ensures r.Some? ==> r.value == (Described(spool.committed), DigestsOf(h, spool.committed, w))
    ensures Faultless(spool) && Capturable(source, limit, size, sizes, blobs) ==> r.Some?
  {
    hide InOrder, Chunks, Parents, ItemsOf, ActiveAmong, GroupsAmong, Described, SelectedIds, KeySet;
    hide ParentsFit, ChunksFit, Rectangular, DigestsOf, DigestsOfRows, TakesFirst;
    var ids, parentIds := SelectedIds(source, limit), ParentIds(source, limit);
    if ids == [] { return None; }
    NothingChosen(source, ids);
    var ok := CaptureParents(source, parentIds, size, sizes, spool);
    if !ok { return None; }
    assert ParentsPresent(source, limit);
    CapturedIsClosedAndMinimal(source, limit);
    ghost var parents := Parents(source, parentIds);
    ParentsKeyed(source, parentIds);
    ItemsCovered(source, limit);
    var activeRows: nat, activeGroups: set<(Key, Key)>;
    ok, activeRows, activeGroups := CaptureChunks(source, ids, parents, size, sizes, blobs, spool);
    if !ok { return None; }
    assert ids[..|ids|] == ids;
    DescribedBy(source, parentIds, ids);
    SpoolReadsAlike(h, source, limit, w);
    var captured, observed := DigestsOfRows(h, source, parentIds, ids, w), DigestsOf(h, spool.committed, w);
    if captured != observed { return None; }
    ok := spool.Step();
    if !ok { return None; }
    return Some((Fixture(|ids|, |parentIds|, activeRows, |activeGroups|), captured));
  }

  lemma ActiveAmongChunks(source: Store, ids: seq<Key>, parents: map<Key, Parent>)
    requires forall k :: k in ids ==> k in source.chunks
    ensures ActiveIds(Store(parents, Chunks(source, ids))) == ActiveAmong(source, ids)
    ensures Groups(Store(parents, Chunks(source, ids))) == GroupsAmong(source, ids)
  {
    var c := Store(parents, Chunks(source, ids));
    assert ActiveIds(c) == ActiveAmong(source, ids);
    assert forall k :: k in ActiveIds(c) ==> c.chunks[k] == source.chunks[k];
  }

  lemma SizeOf<V>(rows: map<Key, V>, ids: seq<Key>)
    requires Distinct(ids) && rows.Keys == KeySet(ids)
    ensures |rows| == |ids|
  {
    DistinctSize(ids);
    assert |rows| == |rows.Keys|;
  }

  lemma DescribedBy(source: Store, parentIds: seq<Key>, ids: seq<Key>)
    requires (forall k :: k in ids ==> k in source.chunks) && (forall k :: k in parentIds ==> k in source.parents)
    requires Distinct(ids) && Distinct(parentIds)
    ensures Described(Store(Parents(source, parentIds), Chunks(source, ids)))
         == Fixture(|ids|, |parentIds|, |ActiveAmong(source, ids)|, |GroupsAmong(source, ids)|)
  {
    SizeOf(Chunks(source, ids), ids);
    SizeOf(Parents(source, parentIds), parentIds);
    ActiveAmongChunks(source, ids, Parents(source, parentIds));
  }

  lemma {:induction false} DistinctSize(ids: seq<Key>)
    requires Distinct(ids)
    ensures |KeySet(ids)| == |ids|
  {
    if ids != [] {
      var init, last := ids[..|ids| - 1], ids[|ids| - 1];
      assert ids == init + [last];
      DistinctSize(init);
      assert KeySet(ids) == KeySet(init) + {last};
    }
  }
}
