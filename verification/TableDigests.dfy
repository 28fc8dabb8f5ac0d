/** The two tables read in key order, and the digests that the layout benchmark compares. */
module TableDigests {
  import opened Prelude
  import opened Ordering
  import opened TupleDigest
  import opened SemanticStore

  // ---- Key order ----

  function InOrder(keys: set<Key>): (r: seq<Key>)
    ensures forall k :: k in r <==> k in keys
    ensures |r| == |keys| && Distinct(r)
  {
    ByteOrderIsTotal();
    Sorted(keys, ByteOrder())
  }

  /** The first keys of a table, read in order again, come in the same order. */
  lemma FirstInOrder(keys: set<Key>, n: nat, first: set<Key>)
    requires n <= |keys| && forall k :: k in first <==> k in InOrder(keys)[..n]
    ensures InOrder(first) == InOrder(keys)[..n]
  {
    ByteOrderIsTotal();
    AscendingIsUnique(InOrder(first), InOrder(keys)[..n], ByteOrder());
  }

  ghost predicate Keyed(store: Store) {
    && (forall k :: k in store.parents ==> store.parents[k].id == k)
    && (forall k :: k in store.chunks ==> store.chunks[k].id == k)
  }

  // ---- Rows ----

  function ChunkRow(c: Chunk): Row {
    [Text(c.id), Text(c.item), Text(c.signature), Int(if c.active then 1 else 0)] + c.cells
  }

  function ParentRow(p: Parent): Row {
    [Text(p.id)] + p.cells
  }

  /** The columns of the two tables. */
  datatype Schema = Schema(parents: seq<bytes>, chunks: seq<bytes>)

  predicate Fitting(r: Row, columns: seq<bytes>) {
    |r| == |columns| && Sized(r)
  }

  /** Every row has its table's columns and every cell a token that can be framed. */
  predicate Rectangular(store: Store, w: Schema) {
    && (forall k :: k in store.parents ==> Fitting(ParentRow(store.parents[k]), w.parents))
    && (forall k :: k in store.chunks ==> Fitting(ChunkRow(store.chunks[k]), w.chunks))
  }

  function ChunkRows(store: Store, ids: seq<Key>, w: Schema): (r: seq<Row>)
    requires Rectangular(store, w) && forall k :: k in ids ==> k in store.chunks
    ensures Table(r, |w.chunks|)
  {
    seq(|ids|, i requires 0 <= i < |ids| => ChunkRow(store.chunks[ids[i]]))
  }

  function ParentRows(store: Store, ids: seq<Key>, w: Schema): (r: seq<Row>)
    requires Rectangular(store, w) && forall k :: k in ids ==> k in store.parents
    ensures Table(r, |w.parents|)
  {
    seq(|ids|, i requires 0 <= i < |ids| => ParentRow(store.parents[ids[i]]))
  }

  // ---- Table digests ----

  type Hash = bytes -> bytes

  /** "semantic_items" and "text_chunks" */
  const PARENT_TABLE: bytes := [115, 101, 109, 97, 110, 116, 105, 99, 95, 105, 116, 101, 109, 115]
  const CHUNK_TABLE: bytes := [116, 101, 120, 116, 95, 99, 104, 117, 110, 107, 115]

  predicate NamedSchema(w: Schema) {
    Named(PARENT_TABLE, w.parents) && Named(CHUNK_TABLE, w.chunks)
  }

  datatype Digests = Digests(parentHash: bytes, parentCount: nat, chunkHash: bytes, chunkCount: nat)

  function ParentBytes(store: Store, ids: seq<Key>, w: Schema): bytes
    requires Rectangular(store, w) && forall k :: k in ids ==> k in store.parents
  {
    TableBytes(PARENT_TABLE, w.parents, ParentRows(store, ids, w))
  }

  function ChunkBytes(store: Store, ids: seq<Key>, w: Schema): bytes
    requires Rectangular(store, w) && forall k :: k in ids ==> k in store.chunks
  {
    TableBytes(CHUNK_TABLE, w.chunks, ChunkRows(store, ids, w))
  }

  /** The digests of the listed rows. */
  function DigestsOfRows(h: Hash, store: Store, parentIds: seq<Key>, ids: seq<Key>, w: Schema): Digests
    requires Rectangular(store, w)
    requires (forall k :: k in parentIds ==> k in store.parents) && (forall k :: k in ids ==> k in store.chunks)
  {
    Digests(h(ParentBytes(store, parentIds, w)), |parentIds|, h(ChunkBytes(store, ids, w)), |ids|)
  }

  /** The digests of the tables, read in key order. */
  function DigestsOf(h: Hash, store: Store, w: Schema): Digests
    requires Rectangular(store, w)
  {
    DigestsOfRows(h, store, InOrder(store.parents.Keys), InOrder(store.chunks.Keys), w)
  }

  /** The digests are those of the two tables' texts, their rows by ascending key. */
  lemma DigestsExactly(h: Hash, store: Store, w: Schema)
    requires Rectangular(store, w)
    ensures DigestsOf(h, store, w).parentHash
         == h(TableText(Ascii("semantic_items"), w.parents, ParentRows(store, InOrder(store.parents.Keys), w)))
    ensures DigestsOf(h, store, w).chunkHash
         == h(TableText(Ascii("text_chunks"), w.chunks, ChunkRows(store, InOrder(store.chunks.Keys), w)))
  {
    assert Ascii("semantic_items") == PARENT_TABLE && Ascii("text_chunks") == CHUNK_TABLE;
    TableBytesExactly(PARENT_TABLE, w.parents, ParentRows(store, InOrder(store.parents.Keys), w));
    TableBytesExactly(CHUNK_TABLE, w.chunks, ChunkRows(store, InOrder(store.chunks.Keys), w));
  }

  /** Every key once, in the order of the bytes. */
  lemma InOrderAscends(keys: set<Key>)
    ensures forall i, j :: 0 <= i < j < |InOrder(keys)| ==> Precedes(InOrder(keys)[i], InOrder(keys)[j])
  {
    hide LexLe, Precedes, Sorted;
    ByteOrderIsTotal();
    var ids := InOrder(keys);
    assert Ascending(ids, ByteOrder());
    forall i, j | 0 <= i < j < |ids| ensures Precedes(ids[i], ids[j]) {
      assert ByteOrder()(ids[i], ids[j]);
      LexExactly(ids[i], ids[j]);
    }
  }

  lemma DigestCounts(h: Hash, store: Store, w: Schema)
    requires Rectangular(store, w)
    ensures DigestsOf(h, store, w).parentCount == |store.parents|
    ensures DigestsOf(h, store, w).chunkCount == |store.chunks|
  {
    assert |store.parents.Keys| == |store.parents| && |store.chunks.Keys| == |store.chunks|;
  }

  ghost function HashedTables(store: Store, w: Schema): set<bytes>
    requires Rectangular(store, w)
  {
    {ParentBytes(store, InOrder(store.parents.Keys), w), ChunkBytes(store, InOrder(store.chunks.Keys), w)}
  }

  // ---- What equal digests say ----

  lemma ChunkRowInjective(a: Chunk, b: Chunk)
    requires ChunkRow(a) == ChunkRow(b)
    ensures a == b
  {
    var r, s := ChunkRow(a), ChunkRow(b);
    assert r[0] == Text(a.id) && r[1] == Text(a.item) && r[2] == Text(a.signature);
    assert s[0] == Text(b.id) && s[1] == Text(b.item) && s[2] == Text(b.signature);
    assert r[3] == Int(if a.active then 1 else 0) && s[3] == Int(if b.active then 1 else 0);
    assert r[4..] == a.cells && s[4..] == b.cells;
  }

  lemma ParentRowInjective(a: Parent, b: Parent)
    requires ParentRow(a) == ParentRow(b)
    ensures a == b
  {
    var r, s := ParentRow(a), ParentRow(b);
    assert r[0] == Text(a.id) && s[0] == Text(b.id);
    assert r[1..] == a.cells && s[1..] == b.cells;
  }

  /** Equal listings of chunks are listings of equal chunks. */
  lemma SameChunkRows(a: Store, ids: seq<Key>, b: Store, others: seq<Key>, w: Schema)
    requires Keyed(a) && Keyed(b) && Rectangular(a, w) && Rectangular(b, w)
    requires (forall k :: k in ids ==> k in a.chunks) && (forall k :: k in others ==> k in b.chunks)
    requires ChunkRows(a, ids, w) == ChunkRows(b, others, w)
    ensures ids == others && forall k :: k in ids ==> a.chunks[k] == b.chunks[k]
  {
    var rows := ChunkRows(a, ids, w);
    assert |ids| == |rows| == |others|;
    forall i | 0 <= i < |ids| ensures ids[i] == others[i] && a.chunks[ids[i]] == b.chunks[others[i]] {
      assert ids[i] in ids && others[i] in others;
      assert rows[i] == ChunkRow(a.chunks[ids[i]]) == ChunkRow(b.chunks[others[i]]);
      ChunkRowInjective(a.chunks[ids[i]], b.chunks[others[i]]);
    }
  }

  lemma SameParentRows(a: Store, ids: seq<Key>, b: Store, others: seq<Key>, w: Schema)
    requires Keyed(a) && Keyed(b) && Rectangular(a, w) && Rectangular(b, w)
    requires (forall k :: k in ids ==> k in a.parents) && (forall k :: k in others ==> k in b.parents)
    requires ParentRows(a, ids, w) == ParentRows(b, others, w)
    ensures ids == others && forall k :: k in ids ==> a.parents[k] == b.parents[k]
  {
    var rows := ParentRows(a, ids, w);
    assert |ids| == |rows| == |others|;
    forall i | 0 <= i < |ids| ensures ids[i] == others[i] && a.parents[ids[i]] == b.parents[others[i]] {
      assert ids[i] in ids && others[i] in others;
      assert rows[i] == ParentRow(a.parents[ids[i]]) == ParentRow(b.parents[others[i]]);
      ParentRowInjective(a.parents[ids[i]], b.parents[others[i]]);
    }
  }

  /** The listing of all rows in key order determines the table. */
  lemma SameTables(a: Store, b: Store, w: Schema)
    requires Keyed(a) && Keyed(b) && Rectangular(a, w) && Rectangular(b, w)
    requires ChunkRows(a, InOrder(a.chunks.Keys), w) == ChunkRows(b, InOrder(b.chunks.Keys), w)
    requires ParentRows(a, InOrder(a.parents.Keys), w) == ParentRows(b, InOrder(b.parents.Keys), w)
    ensures a == b
  {
    hide ChunkRows, ParentRows, Sized, Keyed, Rectangular, InOrder;
    SameChunkRows(a, InOrder(a.chunks.Keys), b, InOrder(b.chunks.Keys), w);
    SameParentRows(a, InOrder(a.parents.Keys), b, InOrder(b.parents.Keys), w);
    assert forall k :: k in a.chunks <==> k in InOrder(a.chunks.Keys);
    assert forall k :: k in b.chunks <==> k in InOrder(b.chunks.Keys);
    assert forall k :: k in a.parents <==> k in InOrder(a.parents.Keys);
    assert forall k :: k in b.parents <==> k in InOrder(b.parents.Keys);
    assert a.chunks == b.chunks && a.parents == b.parents;
  }

  /** Two databases whose digests agree have the same columns and hold the same rows under the
      same keys. */
  lemma EqualDigestsEqualTables(h: Hash, a: Store, w: Schema, b: Store, v: Schema)
    requires Keyed(a) && Keyed(b) && NamedSchema(w) && NamedSchema(v) && Rectangular(a, w) && Rectangular(b, v)
    requires CollisionFree(h, HashedTables(a, w) + HashedTables(b, v))
    requires DigestsOf(h, a, w) == DigestsOf(h, b, v)
    ensures a == b && w == v
  {
    hide ChunkRows, ParentRows, Sized, Keyed, Rectangular, InOrder, TableBytes;
    var pa, pb := ParentRows(a, InOrder(a.parents.Keys), w), ParentRows(b, InOrder(b.parents.Keys), v);
    var ca, cb := ChunkRows(a, InOrder(a.chunks.Keys), w), ChunkRows(b, InOrder(b.chunks.Keys), v);
    assert TableBytes(PARENT_TABLE, w.parents, pa) == TableBytes(PARENT_TABLE, v.parents, pb);
    assert TableBytes(CHUNK_TABLE, w.chunks, ca) == TableBytes(CHUNK_TABLE, v.chunks, cb);
    TableBytesInjective(PARENT_TABLE, w.parents, pa, PARENT_TABLE, v.parents, pb);
    TableBytesInjective(CHUNK_TABLE, w.chunks, ca, CHUNK_TABLE, v.chunks, cb);
    SameTables(a, b, w);
  }
}
