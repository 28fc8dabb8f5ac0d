/** The raw and logical hash of one table: rows digested cell by cell, listed by primary key,
    and digested again. */
module TableHash {
  import opened Prelude
  import opened StableSorting
  import opened TupleDigest
  import opened TypedCells

  type Hash = bytes -> bytes

  /** The hash in hexadecimal, the JSON of a list of column names, and the named volatile columns. */
  datatype Tools = Tools(hash: Hash, names: seq<bytes> -> bytes, volatile: set<bytes>)

  /** A table's name, its columns, and the places of its primary key columns in key order. */
  datatype Shape = Shape(table: bytes, columns: seq<bytes>, primary: seq<nat>)

  const NS_SUFFIX: bytes := [95, 110, 115]

  predicate IsVolatile(tools: Tools, column: bytes) {
    column in tools.volatile || (|column| >= 3 && column[|column| - 3..] == NS_SUFFIX)
  }

  /** The places of the columns that count as content. */
  function LogicalPlaces(tools: Tools, columns: seq<bytes>): (r: seq<nat>)
    ensures forall i: nat :: i in r <==> i < |columns| && !IsVolatile(tools, columns[i])
  {
    if columns == [] then []
    else
      var n: nat := |columns| - 1;
      assert columns == columns[..n] + [columns[n]];
      LogicalPlaces(tools, columns[..n]) + if IsVolatile(tools, columns[n]) then [] else [n]
  }

  /** The column's name ends in `_ns`. */
  ghost predicate EndsInNs(column: bytes) {
    exists stem: bytes :: column == stem + Ascii("_ns")
  }

  lemma VolatileExactly(tools: Tools, column: bytes)
    ensures IsVolatile(tools, column) <==> column in tools.volatile || EndsInNs(column)
  {
    assert Ascii("_ns") == NS_SUFFIX;
    if |column| >= 3 { assert column == column[..|column| - 3] + column[|column| - 3..]; }
  }

  /** The content columns, from left to right: those that are neither volatile by name nor end
      in `_ns`. */
  lemma {:induction false} LogicalPlacesExactly(tools: Tools, columns: seq<bytes>)
    ensures var r := LogicalPlaces(tools, columns);
      && (forall i: nat :: i in r <==> i < |columns| && columns[i] !in tools.volatile && !EndsInNs(columns[i]))
      && forall i, j :: 0 <= i < j < |r| ==> r[i] < r[j]
  {
    hide IsVolatile, EndsInNs;
    forall column: bytes ensures IsVolatile(tools, column) <==> column in tools.volatile || EndsInNs(column) {
      VolatileExactly(tools, column);
    }
    if columns != [] {
      var n := |columns| - 1;
      assert columns == columns[..n] + [columns[n]];
      LogicalPlacesExactly(tools, columns[..n]);
      var init := LogicalPlaces(tools, columns[..n]);
      assert forall i :: 0 <= i < |init| ==> init[i] in init;
    }
  }

  function AllPlaces(columns: seq<bytes>): seq<nat> {
    seq(|columns|, i => i)
  }

  function Cells(row: Row, places: seq<nat>): seq<Cell> {
    Map(i => if 0 <= i < |row| then row[i] else Null, places)
  }

  function ColumnNames(columns: seq<bytes>, places: seq<nat>): seq<bytes> {
    Map(i => if 0 <= i < |columns| then columns[i] else [], places)
  }

  /** What of a row enters a digest: its key cells and the cells of the chosen columns. */
  datatype View = View(key: seq<Cell>, cells: seq<Cell>)

  function ViewOf(shape: Shape, row: Row, places: seq<nat>): View {
    View(Cells(row, shape.primary), Cells(row, places))
  }

  function LogicalView(tools: Tools, shape: Shape): Row -> View {
    (row: Row) => ViewOf(shape, row, LogicalPlaces(tools, shape.columns))
  }

  function RawView(shape: Shape): Row -> View {
    (row: Row) => ViewOf(shape, row, AllPlaces(shape.columns))
  }

  // ---- Row digests ----

  function Typed(cells: seq<Cell>): seq<bytes> {
    Map((c: Cell) => TypedBytes(c), cells)
  }

  function KeyBytes(key: seq<Cell>): bytes {
    PartStream(Typed(key))
  }

  /** Column name, a zero byte, typed cell, for the two lists zipped. */
  function Labelled(names: seq<bytes>, cells: seq<Cell>): seq<bytes> {
    seq(Min(|names|, |cells|), i requires 0 <= i < Min(|names|, |cells|) => names[i] + [0] + TypedBytes(cells[i]))
  }

  function RowParts(table: bytes, names: seq<bytes>, v: View): seq<bytes> {
    [table, KeyBytes(v.key)] + Labelled(names, v.cells)
  }

  function RowDigest(tools: Tools, table: bytes, names: seq<bytes>, v: View): bytes {
    tools.hash(PartStream(RowParts(table, names, v)))
  }

  function LogicalNames(tools: Tools, shape: Shape): seq<bytes> {
    ColumnNames(shape.columns, LogicalPlaces(tools, shape.columns))
  }

  function LogicalDigest(tools: Tools, shape: Shape, row: Row): bytes {
    RowDigest(tools, shape.table, LogicalNames(tools, shape), LogicalView(tools, shape)(row))
  }

  function RawDigest(tools: Tools, shape: Shape, row: Row): bytes {
    RowDigest(tools, shape.table, ColumnNames(shape.columns, AllPlaces(shape.columns)), RawView(shape)(row))
  }

  /** The key bytes, or without a declared key the logical digest. */
  function SortKey(tools: Tools, shape: Shape, row: Row): bytes {
    if shape.primary == [] then LogicalDigest(tools, shape, row) else KeyBytes(Cells(row, shape.primary))
  }

  function LogicalPair(tools: Tools, shape: Shape): Row -> Pair {
    (row: Row) => (SortKey(tools, shape, row), LogicalDigest(tools, shape, row))
  }

  function RawPair(tools: Tools, shape: Shape): Row -> Pair {
    (row: Row) => (SortKey(tools, shape, row), RawDigest(tools, shape, row))
  }

  // ---- Table hashes ----

  function TableParts(tools: Tools, table: bytes, names: seq<bytes>, digests: seq<bytes>): seq<bytes> {
    [table, tools.names(names)] + digests
  }

  function LogicalParts(tools: Tools, shape: Shape, rows: seq<Row>): seq<bytes> {
    TableParts(tools, shape.table, LogicalNames(tools, shape),
      Digests(StableSort(Map(LogicalPair(tools, shape), rows))))
  }

  function RawParts(tools: Tools, shape: Shape, rows: seq<Row>): seq<bytes> {
    TableParts(tools, shape.table, shape.columns, Digests(StableSort(Map(RawPair(tools, shape), rows))))
  }

  function LogicalHash(tools: Tools, shape: Shape, rows: seq<Row>): bytes {
    tools.hash(PartStream(LogicalParts(tools, shape, rows)))
  }

  function RawHash(tools: Tools, shape: Shape, rows: seq<Row>): bytes {
    tools.hash(PartStream(RawParts(tools, shape, rows)))
  }

  /** `_table_logical_hash`: the rows in scan order, each digested twice, both lists sorted. */
  method TableHashes(tools: Tools, shape: Shape, rows: seq<Row>) returns (raw: bytes, logical: bytes)
    ensures raw == RawHash(tools, shape, rows) && logical == LogicalHash(tools, shape, rows)
    ensures IsTableHash(tools, shape, shape.columns, Map(RawPair(tools, shape), rows), raw)
    ensures IsTableHash(tools, shape, LogicalNames(tools, shape), Map(LogicalPair(tools, shape), rows), logical)
  {
    HashesExactly(tools, shape, rows);
    hide IsTableHash;
    hide LogicalDigest, RawDigest, StableSort, PartStream, KeyBytes, Cells, LogicalNames;
    var rawDigests: seq<Pair>, logicalDigests: seq<Pair> := [], [];
    for i := 0 to |rows|
      invariant rawDigests == Map(RawPair(tools, shape), rows[..i])
      invariant logicalDigests == Map(LogicalPair(tools, shape), rows[..i])
    {
      var rawRow, logicalRow := RawDigest(tools, shape, rows[i]), LogicalDigest(tools, shape, rows[i]);
      var key := if shape.primary == [] then logicalRow else KeyBytes(Cells(rows[i], shape.primary));
      rawDigests := rawDigests + [(key, rawRow)];
      logicalDigests := logicalDigests + [(key, logicalRow)];
    }
    assert rows[..|rows|] == rows;
    raw := tools.hash(PartStream(TableParts(tools, shape.table, shape.columns, Digests(StableSort(rawDigests)))));
    var names := LogicalNames(tools, shape);
    logical := tools.hash(PartStream(TableParts(tools, shape.table, names, Digests(StableSort(logicalDigests)))));
  }

  // ---- The hashed texts, spelled out ----

  /** A row with a cell for every column, and a key of these columns. */
  predicate IsRow(shape: Shape, row: Row) {
    |row| == |shape.columns| && Inside(shape.primary, |row|)
  }

  predicate Inside(places: seq<nat>, n: nat) {
    forall k :: 0 <= k < |places| ==> places[k] < n
  }

  /** The key cells of a row as framed JSON. */
  ghost function KeyText(shape: Shape, row: Row): bytes
    requires IsRow(shape, row)
  {
    FramedText(seq(|shape.primary|, i requires 0 <= i < |shape.primary| => TypedBytes(row[shape.primary[i]])))
  }

  /** The table's name, the key, and for each place the column's name, a zero byte and the cell. */
  ghost function RowText(shape: Shape, row: Row, places: seq<nat>): bytes
    requires IsRow(shape, row) && Inside(places, |row|)
  {
    FramedText([shape.table, KeyText(shape, row)]
      + seq(|places|, i requires 0 <= i < |places| => shape.columns[places[i]] + [0] + TypedBytes(row[places[i]])))
  }

  lemma KeyExactly(shape: Shape, row: Row)
    requires IsRow(shape, row)
    ensures KeyBytes(Cells(row, shape.primary)) == KeyText(shape, row)
  {
    var cells := seq(|shape.primary|, i requires 0 <= i < |shape.primary| => TypedBytes(row[shape.primary[i]]));
    assert Typed(Cells(row, shape.primary)) == cells;
    PartStreamExactly(cells);
  }

  lemma RowExactly(tools: Tools, shape: Shape, row: Row, places: seq<nat>)
    requires IsRow(shape, row) && Inside(places, |row|)
    ensures RowDigest(tools, shape.table, ColumnNames(shape.columns, places), ViewOf(shape, row, places))
         == tools.hash(RowText(shape, row, places))
  {
    hide KeyText, KeyBytes, FramedText, PartStream, TypedBytes;
    KeyExactly(shape, row);
    var labelled := seq(|places|, i requires 0 <= i < |places| =>
      shape.columns[places[i]] + [0] + TypedBytes(row[places[i]]));
    assert Labelled(ColumnNames(shape.columns, places), Cells(row, places)) == labelled;
    PartStreamExactly([shape.table, KeyText(shape, row)] + labelled);
  }

  /** The two digests of a row, over all columns and over the content columns, and the key by which
      both are listed. */
  lemma RowDigestsExactly(tools: Tools, shape: Shape, row: Row)
    requires IsRow(shape, row)
    ensures Inside(AllPlaces(shape.columns), |row|) && Inside(LogicalPlaces(tools, shape.columns), |row|)
    ensures RawDigest(tools, shape, row) == tools.hash(RowText(shape, row, AllPlaces(shape.columns)))
    ensures LogicalDigest(tools, shape, row)
         == tools.hash(RowText(shape, row, LogicalPlaces(tools, shape.columns)))
    ensures SortKey(tools, shape, row)
         == if shape.primary == [] then LogicalDigest(tools, shape, row) else KeyText(shape, row)
  {
    forall k | 0 <= k < |LogicalPlaces(tools, shape.columns)| ensures LogicalPlaces(tools, shape.columns)[k] < |row| {
      assert LogicalPlaces(tools, shape.columns)[k] in LogicalPlaces(tools, shape.columns);
    }
    RowExactly(tools, shape, row, AllPlaces(shape.columns));
    RowExactly(tools, shape, row, LogicalPlaces(tools, shape.columns));
    KeyExactly(shape, row);
  }

  /** The hash of a table: its name, the JSON of the hashed columns' names, and the digests of the
      rows, listed stably by their keys. */
  ghost predicate IsTableHash(tools: Tools, shape: Shape, names: seq<bytes>, pairs: seq<Pair>, hash: bytes) {
    exists listing: seq<Pair> :: Lists(listing, pairs)
      && hash == tools.hash(FramedText([shape.table, tools.names(names)] + Digests(listing)))
  }

  lemma HashesExactly(tools: Tools, shape: Shape, rows: seq<Row>)
    ensures IsTableHash(tools, shape, shape.columns, Map(RawPair(tools, shape), rows), RawHash(tools, shape, rows))
    ensures IsTableHash(tools, shape, LogicalNames(tools, shape), Map(LogicalPair(tools, shape), rows),
      LogicalHash(tools, shape, rows))
  {
    hide Lists, StableSort, PartStream, FramedText, LogicalNames, RawPair, LogicalPair;
    var raw, logical := Map(RawPair(tools, shape), rows), Map(LogicalPair(tools, shape), rows);
    SortLists(raw);
    SortLists(logical);
    PartStreamExactly(RawParts(tools, shape, rows));
    PartStreamExactly(LogicalParts(tools, shape, rows));
  }

  // ---- What the digests determine ----

  lemma {:induction false} TypedCellsInjective(a: seq<Cell>, b: seq<Cell>)
    requires Typed(a) == Typed(b)
    ensures a == b
  {
    assert |a| == |Typed(a)| == |Typed(b)| == |b|;
    forall i | 0 <= i < |a| ensures a[i] == b[i] {
      assert Typed(a)[i] == Typed(b)[i];
      TypedInjective(a[i], b[i]);
    }
  }

  lemma KeyBytesInjective(a: seq<Cell>, b: seq<Cell>)
    requires Framable(Typed(a)) && Framable(Typed(b)) && KeyBytes(a) == KeyBytes(b)
    ensures a == b
  {
    StreamSplit(Typed(a), Typed(b));
    TypedCellsInjective(a, b);
  }

  lemma LabelledInjective(names: seq<bytes>, a: seq<Cell>, b: seq<Cell>)
    requires |a| == |b| == |names| && Labelled(names, a) == Labelled(names, b)
    ensures a == b
  {
    forall i | 0 <= i < |a| ensures a[i] == b[i] {
      assert Labelled(names, a)[i] == Labelled(names, b)[i];
      FixedSplit(names[i] + [0], names[i] + [0], TypedBytes(a[i]), TypedBytes(b[i]));
      TypedInjective(a[i], b[i]);
    }
  }

  /** A view whose parts can be hashed, with a cell for every name. */
  predicate Fits(table: bytes, names: seq<bytes>, v: View) {
    |v.cells| == |names| && Framable(Typed(v.key)) && Framable(RowParts(table, names, v))
  }

  lemma RowPartsInjective(table: bytes, names: seq<bytes>, v: View, w: View)
    requires Fits(table, names, v) && Fits(table, names, w)
    requires PartStream(RowParts(table, names, v)) == PartStream(RowParts(table, names, w))
    ensures v == w
  {
    var p, q := RowParts(table, names, v), RowParts(table, names, w);
    StreamSplit(p, q);
    assert p[1] == KeyBytes(v.key) && q[1] == KeyBytes(w.key);
    assert p[2..] == Labelled(names, v.cells) && q[2..] == Labelled(names, w.cells);
    KeyBytesInjective(v.key, w.key);
    LabelledInjective(names, v.cells, w.cells);
  }

  // ---- Views and hashes ----

  function Views(tools: Tools, shape: Shape, rows: seq<Row>): seq<View> {
    Map(LogicalView(tools, shape), rows)
  }

  /** The pair of a row, from its view alone. */
  function PairOfView(tools: Tools, table: bytes, names: seq<bytes>, keyed: bool): View -> Pair {
    (v: View) =>
      var d := RowDigest(tools, table, names, v);
      (if keyed then KeyBytes(v.key) else d, d)
  }

  lemma PairsOfViews(tools: Tools, shape: Shape, rows: seq<Row>)
    ensures Map(LogicalPair(tools, shape), rows)
         == Map(PairOfView(tools, shape.table, LogicalNames(tools, shape), shape.primary != []),
              Views(tools, shape, rows))
  {
    var f := PairOfView(tools, shape.table, LogicalNames(tools, shape), shape.primary != []);
    forall i | 0 <= i < |rows| ensures LogicalPair(tools, shape)(rows[i]) == f(Views(tools, shape, rows)[i]) {
      assert Views(tools, shape, rows)[i] == LogicalView(tools, shape)(rows[i]);
      assert LogicalView(tools, shape)(rows[i]).key == Cells(rows[i], shape.primary);
    }
  }

  /** Tables that agree on names and views have one logical hash if equal sort keys carry equal
      digests. */
  lemma SameViewsSameHash(tools: Tools, a: Shape, x: seq<Row>, b: Shape, y: seq<Row>)
    requires a.table == b.table && LogicalNames(tools, a) == LogicalNames(tools, b)
    requires (a.primary == [] <==> b.primary == [])
    requires Rearranged(Views(tools, b, y), Views(tools, a, x))
    requires Functional(Map(LogicalPair(tools, a), x))
    ensures LogicalHash(tools, a, x) == LogicalHash(tools, b, y)
  {
    PairsOfViews(tools, a, x);
    PairsOfViews(tools, b, y);
    FunctionalIsOrderFree(PairOfView(tools, a.table, LogicalNames(tools, a), a.primary != []), Views(tools, a, x),
      Views(tools, b, y));
  }

  // ---- What the hash determines ----

  function RowStream(tools: Tools, shape: Shape, v: View): bytes {
    PartStream(RowParts(shape.table, LogicalNames(tools, shape), v))
  }

  /** The strings that are hashed for the logical hash. */
  ghost function HashedFor(tools: Tools, shape: Shape, rows: seq<Row>): set<bytes> {
    (set v | v in Views(tools, shape, rows) :: RowStream(tools, shape, v))
    + {PartStream(LogicalParts(tools, shape, rows))}
  }

  predicate RowsFit(tools: Tools, shape: Shape, rows: seq<Row>) {
    && Framable(LogicalParts(tools, shape, rows))
    && forall v :: v in Views(tools, shape, rows) ==> Fits(shape.table, LogicalNames(tools, shape), v)
  }

  function ViewDigest(tools: Tools, shape: Shape): View -> bytes {
    (v: View) => tools.hash(RowStream(tools, shape, v))
  }

  lemma DigestsOfViews(tools: Tools, shape: Shape, rows: seq<Row>)
    ensures Digests(Map(LogicalPair(tools, shape), rows)) == Map(ViewDigest(tools, shape), Views(tools, shape, rows))
  {
    PairsOfViews(tools, shape, rows);
    var names, keyed := LogicalNames(tools, shape), shape.primary != [];
    forall v: View ensures PairOfView(tools, shape.table, names, keyed)(v).1 == ViewDigest(tools, shape)(v) {
      assert PairOfView(tools, shape.table, names, keyed)(v).1 == RowDigest(tools, shape.table, names, v);
      assert ViewDigest(tools, shape)(v) == tools.hash(RowStream(tools, shape, v));
      assert RowStream(tools, shape, v) == PartStream(RowParts(shape.table, names, v));
    }
    DigestsOfMap(PairOfView(tools, shape.table, names, keyed), ViewDigest(tools, shape), Views(tools, shape, rows));
  }

  /** The listed digests are those of the views, in some order. */
  lemma ListedDigests(tools: Tools, shape: Shape, rows: seq<Row>)
    ensures multiset(Digests(StableSort(Map(LogicalPair(tools, shape), rows))))
         == multiset(Map(ViewDigest(tools, shape), Views(tools, shape, rows)))
  {
    DigestsOfSorted(Map(LogicalPair(tools, shape), rows));
    DigestsOfViews(tools, shape, rows);
  }

  lemma EqualDigestsEqualViews(tools: Tools, a: Shape, x: seq<Row>, b: Shape, y: seq<Row>, v: View, w: View)
    requires RowsFit(tools, a, x) && RowsFit(tools, b, y)
    requires CollisionFree(tools.hash, HashedFor(tools, a, x) + HashedFor(tools, b, y))
    requires a.table == b.table && LogicalNames(tools, a) == LogicalNames(tools, b)
    requires v in Views(tools, a, x) && w in Views(tools, b, y) && ViewDigest(tools, a)(v) == ViewDigest(tools, b)(w)
    ensures v == w
  {
    assert RowStream(tools, a, v) in HashedFor(tools, a, x) && RowStream(tools, b, w) in HashedFor(tools, b, y);
    RowPartsInjective(a.table, LogicalNames(tools, a), v, w);
  }

  lemma SameHashSameParts(tools: Tools, a: Shape, x: seq<Row>, b: Shape, y: seq<Row>)
    requires RowsFit(tools, a, x) && RowsFit(tools, b, y)
    requires CollisionFree(tools.hash, HashedFor(tools, a, x) + HashedFor(tools, b, y))
    requires LogicalHash(tools, a, x) == LogicalHash(tools, b, y)
    ensures LogicalParts(tools, a, x) == LogicalParts(tools, b, y)
  {
    var p, q := LogicalParts(tools, a, x), LogicalParts(tools, b, y);
    assert PartStream(p) in HashedFor(tools, a, x) && PartStream(q) in HashedFor(tools, b, y);
    StreamSplit(p, q);
  }

  lemma SameParts(tools: Tools, table: bytes, other: bytes, names: seq<bytes>, otherNames: seq<bytes>, d: seq<bytes>,
    e: seq<bytes>)
    requires TableParts(tools, table, names, d) == TableParts(tools, other, otherNames, e)
    ensures table == other && tools.names(names) == tools.names(otherNames) && d == e
  {
    var p, q := TableParts(tools, table, names, d), TableParts(tools, other, otherNames, e);
    assert p[0] == table && q[0] == other && p[1] == tools.names(names) && q[1] == tools.names(otherNames);
    assert p[2..] == d && q[2..] == e;
  }

  /** Equal logical hashes come from the same table name, the same logical columns and, as a
      multiset, the same key and logical cells. */
  lemma SameHashSameContent(tools: Tools, a: Shape, x: seq<Row>, b: Shape, y: seq<Row>)
    requires RowsFit(tools, a, x) && RowsFit(tools, b, y)
    requires CollisionFree(tools.hash, HashedFor(tools, a, x) + HashedFor(tools, b, y))
    requires tools.names(LogicalNames(tools, a)) == tools.names(LogicalNames(tools, b)) ==>
      LogicalNames(tools, a) == LogicalNames(tools, b)
    requires LogicalHash(tools, a, x) == LogicalHash(tools, b, y)
    ensures a.table == b.table && LogicalNames(tools, a) == LogicalNames(tools, b)
    ensures Rearranged(Views(tools, a, x), Views(tools, b, y))
  {
    SameHashSameParts(tools, a, x, b, y);
    SameParts(tools, a.table, b.table, LogicalNames(tools, a), LogicalNames(tools, b),
              Digests(StableSort(Map(LogicalPair(tools, a), x))), Digests(StableSort(Map(LogicalPair(tools, b), y))));
    ListedDigests(tools, a, x);
    ListedDigests(tools, b, y);
    forall v, w | v in Views(tools, a, x) && w in Views(tools, b, y)
      ensures ViewDigest(tools, a)(v) == ViewDigest(tools, b)(w) ==> v == w
    {
      if ViewDigest(tools, a)(v) == ViewDigest(tools, b)(w) { EqualDigestsEqualViews(tools, a, x, b, y, v, w); }
    }
    InjectiveMapMultiset(ViewDigest(tools, a), ViewDigest(tools, b), Views(tools, a, x), Views(tools, b, y));
  }

  // ---- Volatile cells ----

  /** Rows that agree on key and logical cells, whatever their volatile cells. */
  lemma VolatileCellsDoNotMatter(tools: Tools, shape: Shape, x: seq<Row>, y: seq<Row>)
    requires |x| == |y| && forall i :: 0 <= i < |x| ==>
      LogicalView(tools, shape)(x[i]) == LogicalView(tools, shape)(y[i])
    ensures LogicalHash(tools, shape, x) == LogicalHash(tools, shape, y)
  {
    assert Views(tools, shape, x) == Views(tools, shape, y);
    PairsOfViews(tools, shape, x);
    PairsOfViews(tools, shape, y);
  }
}
