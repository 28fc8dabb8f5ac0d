/** When the raw and the logical hash of a table depend on the order of the scan. */
module TableScans {
  import opened Prelude
  import opened StableSorting
  import opened TableHash
  import opened TupleDigest
  import opened TypedCells

  // ---- A list of digests under a hash ----

  /** The hash of what is listed for the rows: two leading parts, and the sorted digests. */
  function ListingHash(hash: Hash, head: (bytes, bytes), f: Row -> Pair, rows: seq<Row>): bytes {
    hash(PartStream(Listed(head, f, rows)))
  }

  function Listed(head: (bytes, bytes), f: Row -> Pair, rows: seq<Row>): seq<bytes> {
    [head.0, head.1] + Digests(StableSort(Map(f, rows)))
  }

  /** Every scan of the same rows gives the same hash. */
  ghost predicate OneHash(hash: Hash, head: (bytes, bytes), f: Row -> Pair, rows: seq<Row>) {
    forall scan :: Rearranged(scan, rows) ==> ListingHash(hash, head, f, scan) == ListingHash(hash, head, f, rows)
  }

  /** No scan of the rows collides with the given one in the last hash.  A table has finitely
      many scans. */
  ghost predicate NoScanCollides(hash: Hash, head: (bytes, bytes), f: Row -> Pair, rows: seq<Row>) {
    forall scan ::
      Rearranged(scan, rows) && ListingHash(hash, head, f, scan) == ListingHash(hash, head, f, rows) ==>
        PartStream(Listed(head, f, scan)) == PartStream(Listed(head, f, rows))
  }

  lemma {:induction false} DigestsAreSeconds(a: seq<Pair>)
    ensures Digests(a) == Map((p: Pair) => p.1, a)
  {
    DigestsOfMap((p: Pair) => p, (p: Pair) => p.1, a);
    assert Map((p: Pair) => p, a) == a;
  }

  lemma {:induction false} DigestsRearranged(a: seq<Pair>, b: seq<Pair>)
    requires multiset(a) == multiset(b)
    ensures multiset(Digests(a)) == multiset(Digests(b))
  {
    var f := (p: Pair) => p.1;
    DigestsAreSeconds(a);
    DigestsAreSeconds(b);
    MapMultiset(f, a, b);
  }

  /** The digests listed for a scan can be framed when those of another scan can. */
  lemma ScanIsFramable(head: (bytes, bytes), f: Row -> Pair, rows: seq<Row>, scan: seq<Row>)
    requires Rearranged(scan, rows) && Framable(Listed(head, f, rows))
    ensures Framable(Listed(head, f, scan))
  {
    hide StableSort;
    MapMultiset(f, scan, rows);
    DigestsOfSorted(Map(f, scan));
    DigestsOfSorted(Map(f, rows));
    DigestsRearranged(Map(f, scan), Map(f, rows));
    var d, e := Digests(StableSort(Map(f, scan))), Digests(StableSort(Map(f, rows)));
    var p, q := Listed(head, f, scan), Listed(head, f, rows);
    assert q[0] == head.0 && q[1] == head.1;
    forall x | x in p ensures |x| < LENGTH_LIMIT {
      if x in d {
        assert x in multiset(d) && x in multiset(e);
        assert x in q;
      } else {
        assert x == q[0] || x == q[1];
      }
    }
  }

  /** One hash for every scan is one listing for every scan. */
  lemma OneHashExactly(hash: Hash, head: (bytes, bytes), f: Row -> Pair, rows: seq<Row>)
    requires Framable(Listed(head, f, rows)) && NoScanCollides(hash, head, f, rows)
    ensures OneHash(hash, head, f, rows) <==> OrderFree(f, rows)
  {
    hide StableSort, PartStream, Framable;
    if OneHash(hash, head, f, rows) {
      forall scan | Rearranged(scan, rows)
        ensures Digests(StableSort(Map(f, scan))) == Digests(StableSort(Map(f, rows)))
      {
        ScanIsFramable(head, f, rows, scan);
        StreamSplit(Listed(head, f, scan), Listed(head, f, rows));
        assert Listed(head, f, scan)[2..] == Digests(StableSort(Map(f, scan)));
        assert Listed(head, f, rows)[2..] == Digests(StableSort(Map(f, rows)));
      }
    }
  }

  lemma OrderFreeOneHash(hash: Hash, head: (bytes, bytes), f: Row -> Pair, rows: seq<Row>)
    requires OrderFree(f, rows)
    ensures OneHash(hash, head, f, rows)
  {
  }

  function LogicalHead(tools: Tools, shape: Shape): (bytes, bytes) {
    (shape.table, tools.names(LogicalNames(tools, shape)))
  }

  function RawHead(tools: Tools, shape: Shape): (bytes, bytes) {
    (shape.table, tools.names(shape.columns))
  }

  lemma HashesAreListings(tools: Tools, shape: Shape, rows: seq<Row>)
    ensures LogicalHash(tools, shape, rows)
         == ListingHash(tools.hash, LogicalHead(tools, shape), LogicalPair(tools, shape), rows)
    ensures RawHash(tools, shape, rows) == ListingHash(tools.hash, RawHead(tools, shape), RawPair(tools, shape), rows)
    ensures LogicalParts(tools, shape, rows) == Listed(LogicalHead(tools, shape), LogicalPair(tools, shape), rows)
    ensures RawParts(tools, shape, rows) == Listed(RawHead(tools, shape), RawPair(tools, shape), rows)
  {
  }

  ghost predicate OneLogicalHash(tools: Tools, shape: Shape, rows: seq<Row>) {
    forall scan :: Rearranged(scan, rows) ==> LogicalHash(tools, shape, scan) == LogicalHash(tools, shape, rows)
  }

  ghost predicate OneRawHash(tools: Tools, shape: Shape, rows: seq<Row>) {
    forall scan :: Rearranged(scan, rows) ==> RawHash(tools, shape, scan) == RawHash(tools, shape, rows)
  }

  /** No scan collides with the given one in the last logical hash. */
  ghost predicate ScansDoNotCollide(tools: Tools, shape: Shape, rows: seq<Row>) {
    NoScanCollides(tools.hash, LogicalHead(tools, shape), LogicalPair(tools, shape), rows)
  }

  ghost predicate RawScansDoNotCollide(tools: Tools, shape: Shape, rows: seq<Row>) {
    NoScanCollides(tools.hash, RawHead(tools, shape), RawPair(tools, shape), rows)
  }

  lemma OneHashes(tools: Tools, shape: Shape, rows: seq<Row>)
    ensures OneLogicalHash(tools, shape, rows)
       <==> OneHash(tools.hash, LogicalHead(tools, shape), LogicalPair(tools, shape), rows)
    ensures OneRawHash(tools, shape, rows) <==> OneHash(tools.hash, RawHead(tools, shape), RawPair(tools, shape), rows)
  {
    hide LogicalHash, RawHash, ListingHash, Listed;
    forall scan: seq<Row>
      ensures LogicalHash(tools, shape, scan)
           == ListingHash(tools.hash, LogicalHead(tools, shape), LogicalPair(tools, shape), scan)
      ensures RawHash(tools, shape, scan) == ListingHash(tools.hash, RawHead(tools, shape), RawPair(tools, shape), scan)
    {
      HashesAreListings(tools, shape, scan);
    }
  }

  // ---- The logical hash ----

  /** Rows with the same key cells agree on their logical cells. */
  predicate KeyFixesContent(tools: Tools, shape: Shape, rows: seq<Row>) {
    forall v, w :: v in Views(tools, shape, rows) && w in Views(tools, shape, rows) && v.key == w.key ==> v == w
  }

  /** Without a declared key the logical hash never depends on the scan order; with one, it
      does not exactly when rows with the same key cells have the same logical cells. */
  lemma LogicalOrderExactly(tools: Tools, shape: Shape, rows: seq<Row>)
    requires RowsFit(tools, shape, rows) && CollisionFree(tools.hash, HashedFor(tools, shape, rows))
    ensures OrderFree(LogicalPair(tools, shape), rows) <==> (shape.primary == [] || KeyFixesContent(tools, shape, rows))
  {
    OrderFreeExactly(LogicalPair(tools, shape), rows);
    FunctionalExactly(tools, shape, rows);
  }

  lemma PairsAgree(tools: Tools, shape: Shape, rows: seq<Row>, v: View, w: View)
    requires RowsFit(tools, shape, rows) && CollisionFree(tools.hash, HashedFor(tools, shape, rows))
    requires v in Views(tools, shape, rows) && w in Views(tools, shape, rows)
    ensures KeyBytes(v.key) == KeyBytes(w.key) <==> v.key == w.key
    ensures ViewDigest(tools, shape)(v) == ViewDigest(tools, shape)(w) <==> v == w
  {
    if KeyBytes(v.key) == KeyBytes(w.key) { KeyBytesInjective(v.key, w.key); }
    if ViewDigest(tools, shape)(v) == ViewDigest(tools, shape)(w) {
      assert RowStream(tools, shape, v) in HashedFor(tools, shape, rows);
      assert RowStream(tools, shape, w) in HashedFor(tools, shape, rows);
      RowPartsInjective(shape.table, LogicalNames(tools, shape), v, w);
    }
  }

  lemma FunctionalExactly(tools: Tools, shape: Shape, rows: seq<Row>)
    requires RowsFit(tools, shape, rows) && CollisionFree(tools.hash, HashedFor(tools, shape, rows))
    ensures Functional(Map(LogicalPair(tools, shape), rows)) <==>
      (shape.primary == [] || KeyFixesContent(tools, shape, rows))
  {
    var g := PairOfView(tools, shape.table, LogicalNames(tools, shape), shape.primary != []);
    var views := Views(tools, shape, rows);
    PairsOfViews(tools, shape, rows);
    FunctionalByEntries(g, views);
    if shape.primary != [] {
      forall v, w | v in views && w in views
        ensures (g(v).0 == g(w).0 <==> v.key == w.key) && (g(v).1 == g(w).1 <==> v == w)
      {
        PairsAgree(tools, shape, rows, v, w);
      }
    }
  }

  /** No two rows share their key cells. */
  predicate UniqueKeys(shape: Shape, rows: seq<Row>) {
    && (forall r :: r in rows ==> Framable(Typed(Cells(r, shape.primary))))
    && forall i, j :: 0 <= i < j < |rows| ==> Cells(rows[i], shape.primary) != Cells(rows[j], shape.primary)
  }

  lemma UniqueKeysAreDistinct(shape: Shape, rows: seq<Row>, i: nat, j: nat)
    requires UniqueKeys(shape, rows) && i < |rows| && j < |rows|
    requires KeyBytes(Cells(rows[i], shape.primary)) == KeyBytes(Cells(rows[j], shape.primary))
    ensures i == j
  {
    KeyBytesInjective(Cells(rows[i], shape.primary), Cells(rows[j], shape.primary));
    if i < j { assert false; } else if j < i { assert false; }
  }

  /** With a declared, unique key neither hash depends on the scan order. */
  lemma UniqueKeysOrderFree(tools: Tools, shape: Shape, rows: seq<Row>)
    requires shape.primary != [] && UniqueKeys(shape, rows)
    ensures OrderFree(RawPair(tools, shape), rows) && OrderFree(LogicalPair(tools, shape), rows)
  {
    forall x, y | x in rows && y in rows && SortKey(tools, shape, x) == SortKey(tools, shape, y) ensures x == y {
      var i :| 0 <= i < |rows| && rows[i] == x;
      var j :| 0 <= j < |rows| && rows[j] == y;
      UniqueKeysAreDistinct(shape, rows, i, j);
    }
    FunctionalByEntries(RawPair(tools, shape), rows);
    FunctionalByEntries(LogicalPair(tools, shape), rows);
    OrderFreeExactly(RawPair(tools, shape), rows);
    OrderFreeExactly(LogicalPair(tools, shape), rows);
  }

  /** Without a declared key a row is sorted by its own digest, so the logical hash never
      depends on the scan order. */
  lemma KeylessOneHash(tools: Tools, shape: Shape, rows: seq<Row>)
    requires shape.primary == []
    ensures OneLogicalHash(tools, shape, rows)
  {
    hide LogicalDigest, StableSort, PartStream, LogicalNames;
    FunctionalByEntries(LogicalPair(tools, shape), rows);
    OrderFreeExactly(LogicalPair(tools, shape), rows);
  }

  /** For a declared key the logical hash is the same for every scan exactly when rows with the
      same key cells have the same logical cells. */
  lemma HashOrderExactly(tools: Tools, shape: Shape, rows: seq<Row>)
    requires RowsFit(tools, shape, rows) && CollisionFree(tools.hash, HashedFor(tools, shape, rows))
    requires shape.primary != [] && ScansDoNotCollide(tools, shape, rows)
    ensures OneLogicalHash(tools, shape, rows) <==> KeyFixesContent(tools, shape, rows)
  {
    hide LogicalDigest, StableSort, PartStream, LogicalNames, LogicalPair, RawPair, Listed, ListingHash;
    hide CollisionFree, HashedFor, KeyFixesContent, Framable, OneHash, NoScanCollides, OrderFree, OneLogicalHash;
    LogicalOrderExactly(tools, shape, rows);
    HashesAreListings(tools, shape, rows);
    OneHashes(tools, shape, rows);
    OneHashExactly(tools.hash, LogicalHead(tools, shape), LogicalPair(tools, shape), rows);
  }

  /** Names, key cells and logical cells are all that matters, when key cells fix the logical
      ones or there is no declared key: tables that agree on these, in any scan order and with
      any volatile values, have one logical hash. */
  lemma SameContentSameHash(tools: Tools, a: Shape, x: seq<Row>, b: Shape, y: seq<Row>)
    requires a.table == b.table && LogicalNames(tools, a) == LogicalNames(tools, b)
    requires (a.primary == [] <==> b.primary == [])
    requires Rearranged(Views(tools, b, y), Views(tools, a, x))
    requires a.primary == [] || KeyFixesContent(tools, a, x)
    requires forall v :: v in Views(tools, a, x) ==> Framable(Typed(v.key))
    ensures LogicalHash(tools, a, x) == LogicalHash(tools, b, y)
  {
    hide StableSort, PartStream, LogicalNames, RowDigest, KeyBytes, LogicalHash;
    var g, views := PairOfView(tools, a.table, LogicalNames(tools, a), a.primary != []), Views(tools, a, x);
    PairsOfViews(tools, a, x);
    forall v, w | v in views && w in views && g(v).0 == g(w).0 ensures g(v).1 == g(w).1 {
      if a.primary != [] { KeyBytesInjective(v.key, w.key); }
    }
    FunctionalByEntries(g, views);
    SameViewsSameHash(tools, a, x, b, y);
  }

  /** Two rows with a NULL key and different contents. */
  predicate NullKeyRows(rows: seq<Row>) {
    |rows| == 2 && rows[0] == [Null, Int(1)] && rows[1] == [Null, Int(2)]
  }

  lemma BothColumnsCount(tools: Tools, columns: seq<bytes>)
    requires |columns| == 2 && forall c :: c in columns ==> !IsVolatile(tools, c)
    ensures LogicalPlaces(tools, columns) == [0, 1]
  {
    assert columns[0] in columns && columns[1] in columns && columns[..1] == [columns[0]];
    assert LogicalPlaces(tools, columns[..1][..0]) == [];
    assert LogicalPlaces(tools, columns[..1]) == [0];
  }

  lemma NullKeysClash(tools: Tools, shape: Shape, rows: seq<Row>)
    requires shape.primary == [0] && LogicalPlaces(tools, shape.columns) == [0, 1] && NullKeyRows(rows)
    ensures !KeyFixesContent(tools, shape, rows)
  {
    var f := LogicalView(tools, shape);
    assert f(rows[0]) == View([Null], [Null, Int(1)]) && f(rows[1]) == View([Null], [Null, Int(2)]);
    assert Views(tools, shape, rows)[0] == f(rows[0]) && Views(tools, shape, rows)[1] == f(rows[1]);
    assert [Null, Int(1)][1] != [Null, Int(2)][1];
  }

  /** SQLite lets rows share a NULL primary key: two such rows with different contents have two
      logical hashes, depending on the order in which the table happens to be scanned. */
  lemma NullKeysTwoHashes(tools: Tools, shape: Shape, rows: seq<Row>) returns (scan: seq<Row>)
    requires shape.primary == [0] && |shape.columns| == 2 && forall c :: c in shape.columns ==> !IsVolatile(tools, c)
    requires NullKeyRows(rows) && RowsFit(tools, shape, rows)
    requires CollisionFree(tools.hash, HashedFor(tools, shape, rows))
    requires ScansDoNotCollide(tools, shape, rows)
    ensures Rearranged(scan, rows) && LogicalHash(tools, shape, scan) != LogicalHash(tools, shape, rows)
  {
    hide LogicalHash, RowsFit, CollisionFree, HashedFor, ScansDoNotCollide, KeyFixesContent;
    BothColumnsCount(tools, shape.columns);
    NullKeysClash(tools, shape, rows);
    HashOrderExactly(tools, shape, rows);
    scan :| Rearranged(scan, rows) && LogicalHash(tools, shape, scan) != LogicalHash(tools, shape, rows);
  }

  /** With a declared, unique key both hashes are the same for every scan. */
  lemma UniqueKeysOneHash(tools: Tools, shape: Shape, rows: seq<Row>)
    requires shape.primary != [] && UniqueKeys(shape, rows)
    ensures OneRawHash(tools, shape, rows) && OneLogicalHash(tools, shape, rows)
  {
    hide LogicalPair, RawPair, StableSort, PartStream, LogicalNames, UniqueKeys;
    UniqueKeysOrderFree(tools, shape, rows);
  }

  // ---- The raw hash ----

  function RawNames(shape: Shape): seq<bytes> {
    ColumnNames(shape.columns, AllPlaces(shape.columns))
  }

  function RawRowStream(shape: Shape, row: Row): bytes {
    PartStream(RowParts(shape.table, RawNames(shape), RawView(shape)(row)))
  }

  /** The strings that are hashed for the digests of the rows. */
  ghost function RawHashedFor(tools: Tools, shape: Shape, rows: seq<Row>): set<bytes> {
    HashedFor(tools, shape, rows) + set row | row in rows :: RawRowStream(shape, row)
  }

  predicate RawRowsFit(tools: Tools, shape: Shape, rows: seq<Row>) {
    && RowsFit(tools, shape, rows) && Framable(RawParts(tools, shape, rows))
    && forall row :: row in rows ==> Fits(shape.table, RawNames(shape), RawView(shape)(row))
  }

  /** The rows are sorted as equal: their key cells agree, or without a declared key all cells
      that count. */
  predicate SortAlike(tools: Tools, shape: Shape, x: Row, y: Row) {
    if shape.primary == [] then LogicalView(tools, shape)(x) == LogicalView(tools, shape)(y)
    else Cells(x, shape.primary) == Cells(y, shape.primary)
  }

  /** Rows that are sorted as equal agree on every cell, volatile ones included. */
  ghost predicate SortFixesRows(tools: Tools, shape: Shape, rows: seq<Row>) {
    forall x, y :: x in rows && y in rows && SortAlike(tools, shape, x, y) ==> RawView(shape)(x) == RawView(shape)(y)
  }

  lemma RawPairsAgree(tools: Tools, shape: Shape, rows: seq<Row>, x: Row, y: Row)
    requires RawRowsFit(tools, shape, rows) && CollisionFree(tools.hash, RawHashedFor(tools, shape, rows))
    requires x in rows && y in rows
    ensures SortKey(tools, shape, x) == SortKey(tools, shape, y) <==> SortAlike(tools, shape, x, y)
    ensures RawDigest(tools, shape, x) == RawDigest(tools, shape, y) <==> RawView(shape)(x) == RawView(shape)(y)
  {
    hide PartStream, RowParts, Fits, Framable, LogicalNames, KeyBytes, LogicalPlaces, Cells;
    RawDigestsAgree(tools, shape, rows, x, y);
    ViewOfRow(tools, shape, rows, x);
    ViewOfRow(tools, shape, rows, y);
    HashedForIsRaw(tools, shape, rows);
    PairsAgree(tools, shape, rows, LogicalView(tools, shape)(x), LogicalView(tools, shape)(y));
  }

  lemma HashedForIsRaw(tools: Tools, shape: Shape, rows: seq<Row>)
    requires CollisionFree(tools.hash, RawHashedFor(tools, shape, rows))
    ensures CollisionFree(tools.hash, HashedFor(tools, shape, rows))
  {
  }

  lemma ViewOfRow(tools: Tools, shape: Shape, rows: seq<Row>, x: Row)
    requires x in rows
    ensures LogicalView(tools, shape)(x) in Views(tools, shape, rows)
    ensures LogicalView(tools, shape)(x).key == Cells(x, shape.primary)
    ensures ViewDigest(tools, shape)(LogicalView(tools, shape)(x)) == LogicalDigest(tools, shape, x)
  {
    hide PartStream, RowParts, LogicalNames, LogicalPlaces, Cells;
    var i :| 0 <= i < |rows| && rows[i] == x;
    var v := LogicalView(tools, shape)(x);
    assert Views(tools, shape, rows)[i] == v;
    assert ViewDigest(tools, shape)(v) == tools.hash(RowStream(tools, shape, v));
    assert RowStream(tools, shape, v) == PartStream(RowParts(shape.table, LogicalNames(tools, shape), v));
  }

  lemma RawDigestsAgree(tools: Tools, shape: Shape, rows: seq<Row>, x: Row, y: Row)
    requires RawRowsFit(tools, shape, rows) && CollisionFree(tools.hash, RawHashedFor(tools, shape, rows))
    requires x in rows && y in rows
    ensures RawDigest(tools, shape, x) == RawDigest(tools, shape, y) <==> RawView(shape)(x) == RawView(shape)(y)
  {
    hide PartStream, RowParts, Fits, Framable, HashedFor, RowsFit, RawParts, AllPlaces, ColumnNames;
    assert RawRowStream(shape, x) in RawHashedFor(tools, shape, rows);
    assert RawRowStream(shape, y) in RawHashedFor(tools, shape, rows);
    if RawDigest(tools, shape, x) == RawDigest(tools, shape, y) {
      RowPartsInjective(shape.table, RawNames(shape), RawView(shape)(x), RawView(shape)(y));
    }
  }

  /** The raw hash is the same for every scan exactly when rows that are sorted as equal agree
      on every cell: with a declared key, rows with the same key cells; without one, rows that
      differ in volatile cells at most. */
  lemma RawHashOrderExactly(tools: Tools, shape: Shape, rows: seq<Row>)
    requires RawRowsFit(tools, shape, rows) && CollisionFree(tools.hash, RawHashedFor(tools, shape, rows))
    requires RawScansDoNotCollide(tools, shape, rows)
    ensures OneRawHash(tools, shape, rows) <==> SortFixesRows(tools, shape, rows)
  {
    hide SortKey, RawDigest, SortAlike, RawView, StableSort, PartStream, LogicalNames, LogicalPair, Listed, ListingHash;
    hide CollisionFree, RawHashedFor, RowsFit, Framable, OneHash, NoScanCollides, OrderFree, OneRawHash, Fits;
    var f := RawPair(tools, shape);
    HashesAreListings(tools, shape, rows);
    OneHashes(tools, shape, rows);
    OneHashExactly(tools.hash, RawHead(tools, shape), f, rows);
    OrderFreeExactly(f, rows);
    FunctionalByEntries(f, rows);
    forall x, y | x in rows && y in rows
      ensures f(x).0 == f(y).0 <==> SortAlike(tools, shape, x, y)
      ensures f(x).1 == f(y).1 <==> RawView(shape)(x) == RawView(shape)(y)
    {
      RawPairsAgree(tools, shape, rows, x, y);
    }
  }
}
