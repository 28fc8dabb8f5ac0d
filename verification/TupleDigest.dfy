/** The bytes that the layout benchmark feeds to its table digest determine the table's name,
    its columns and its rows. */
module TupleDigest {
  import opened Prelude

  /** A stored SQLite value; a float is carried as the ASCII text that spells it exactly. */
  datatype Cell = Null | Bool(b: bool) | Int(n: int) | Float(repr: bytes) | Blob(value: bytes) | Text(utf8: bytes)

  type Row = seq<Cell>

  const MINUS: byte := 45

  function Signed(n: int): bytes {
    if n < 0 then [MINUS] + Decimal(-n) else Decimal(n)
  }

  /** The tagged token of a value. */
  function Token(c: Cell): bytes {
    match c
    case Null => [78]
    case Bool(b) => [66, if b then 49 else 48]
    case Int(n) => [73] + Signed(n)
    case Float(repr) => [70] + repr
    case Blob(b) => [88] + b
    case Text(t) => [84] + t
  }

  /** What the token of a value spells: N, B and a digit, I and the decimal number, F, X or T and
      the text or bytes. */
  ghost predicate IsToken(token: bytes, c: Cell) {
    match c
    case Null => token == Ascii("N")
    case Bool(b) => token == if b then Ascii("B1") else Ascii("B0")
    case Int(n) => exists sign: bytes, digits: bytes :: token == Ascii("I") + sign + digits && Spells(sign, digits, n)
    case Float(repr) => token == Ascii("F") + repr
    case Blob(b) => token == Ascii("X") + b
    case Text(t) => token == Ascii("T") + t
  }

  /** Decimal digits without a leading zero, behind a minus sign if the number is negative. */
  ghost predicate Spells(sign: bytes, digits: bytes, n: int) {
    && digits != [] && (forall d :: d in digits ==> 48 <= d <= 57) && (digits[0] == 48 ==> n == 0)
    && sign == (if n < 0 then Ascii("-") else []) && DecimalValue(digits) == (if n < 0 then -n else n)
  }

  lemma SignedSpells(n: int)
    ensures exists sign: bytes, digits: bytes :: Signed(n) == sign + digits && Spells(sign, digits, n)
  {
    var digits := Decimal(if n < 0 then -n else n);
    DecimalSpells(if n < 0 then -n else n);
    hide Decimal, DecimalValue;
    assert Ascii("-") == [45];
    if n < 0 {
      assert Signed(n) == Ascii("-") + digits && Spells(Ascii("-"), digits, n);
    } else {
      assert Signed(n) == [] + digits && Spells([], digits, n);
    }
  }

  lemma TagLetters()
    ensures Ascii("N") == [78] && Ascii("B1") == [66, 49] && Ascii("B0") == [66, 48]
    ensures Ascii("I") == [73] && Ascii("F") == [70] && Ascii("X") == [88] && Ascii("T") == [84]
  {
  }

  lemma TokenExactly(c: Cell)
    ensures IsToken(Token(c), c)
  {
    TagLetters();
    hide Ascii, Decimal, DecimalValue, Spells, Signed;
    if c.Int? {
      SignedSpells(c.n);
      var sign, digits :| Signed(c.n) == sign + digits && Spells(sign, digits, c.n);
      assert Token(c) == Ascii("I") + sign + digits;
    }
  }

  const ROW_MARK: bytes := [114, 111, 119, 0]

  /** A token length fits the eight-byte prefix. */
  predicate Sized(r: Row) {
    forall c :: c in r ==> |Token(c)| < LENGTH_LIMIT
  }

  function CellsBytes(r: Row): bytes
    requires Sized(r)
  {
    if r == [] then [] else Framed(Token(r[0])) + CellsBytes(r[1..])
  }

  predicate Table(rows: seq<Row>, width: nat) {
    forall r :: r in rows ==> |r| == width && Sized(r)
  }

  /** What the digest receives for the rows. */
  function Stream(rows: seq<Row>, width: nat): (s: bytes)
    requires Table(rows, width)
    ensures s == [] <==> rows == []
  {
    if rows == [] then [] else ROW_MARK + CellsBytes(rows[0]) + Stream(rows[1..], width)
  }

  lemma {:induction false} DecimalInjective(m: nat, n: nat)
    requires Decimal(m) == Decimal(n)
    ensures m == n
  {
    var a, b := Decimal(m), Decimal(n);
    if m >= 10 && n >= 10 {
      assert a[..|a| - 1] == Decimal(m / 10) && b[..|b| - 1] == Decimal(n / 10);
      assert a[|a| - 1] == 48 + m % 10 && b[|b| - 1] == 48 + n % 10;
      DecimalInjective(m / 10, n / 10);
    } else {
      DecimalLength(m);
      DecimalLength(n);
    }
  }

  lemma DecimalLength(n: nat)
    ensures n >= 10 ==> |Decimal(n)| >= 2
    ensures n < 10 ==> Decimal(n) == [48 + n]
  {
  }

  lemma TokenInjective(c: Cell, d: Cell)
    requires Token(c) == Token(d)
    ensures c == d
  {
    var t, u := Token(c), Token(d);
    assert t[0] == u[0];
    assert t[1..] == u[1..];
    match c
    case Int(m) =>
      var n := d.n;
      assert t[1..] == Signed(m) && u[1..] == Signed(n);
      SignedInjective(m, n);
    case Bool(_) => assert t[1] == u[1];
    case Null =>
    case Float(x) => assert t[1..] == x && u[1..] == d.repr;
    case Blob(x) => assert t[1..] == x;
    case Text(x) => assert t[1..] == x && u[1..] == d.utf8;
  }

  lemma SignedInjective(m: int, n: int)
    requires Signed(m) == Signed(n)
    ensures m == n
  {
    if m < 0 {
      assert Signed(n)[0] == MINUS;
      assert Signed(m)[1..] == Decimal(-m) && Signed(n)[1..] == Decimal(-n);
      DecimalInjective(-m, -n);
    } else {
      assert Signed(m)[0] != MINUS;
      DecimalInjective(m, n);
    }
  }

  lemma {:induction false} CellsSplit(r: Row, s: Row, x: bytes, y: bytes)
    requires |r| == |s| && Sized(r) && Sized(s) && CellsBytes(r) + x == CellsBytes(s) + y
    ensures r == s && x == y
  {
    if r == [] {
      assert [] + x == x && [] + y == y;
    } else {
      assert r == [r[0]] + r[1..] && s == [s[0]] + s[1..];
      Regroup(Framed(Token(r[0])), CellsBytes(r[1..]), x);
      Regroup(Framed(Token(s[0])), CellsBytes(s[1..]), y);
      FramedSplit(Token(r[0]), Token(s[0]), CellsBytes(r[1..]) + x, CellsBytes(s[1..]) + y);
      TokenInjective(r[0], s[0]);
      CellsSplit(r[1..], s[1..], x, y);
    }
  }

  lemma RowSplit(r: Row, s: Row, x: bytes, y: bytes)
    requires |r| == |s| && Sized(r) && Sized(s) && ROW_MARK + CellsBytes(r) + x == ROW_MARK + CellsBytes(s) + y
    ensures r == s && x == y
  {
    Regroup(ROW_MARK, CellsBytes(r), x);
    Regroup(ROW_MARK, CellsBytes(s), y);
    FixedSplit(ROW_MARK, ROW_MARK, CellsBytes(r) + x, CellsBytes(s) + y);
    CellsSplit(r, s, x, y);
  }

  /** Rows of the same number of columns are determined by their stream. */
  lemma {:induction false} StreamInjective(a: seq<Row>, b: seq<Row>, width: nat)
    requires Table(a, width) && Table(b, width) && Stream(a, width) == Stream(b, width)
    ensures a == b
  {
    if a == [] {
      assert b == [];
    } else {
      assert b != [];
      RowSplit(a[0], b[0], Stream(a[1..], width), Stream(b[1..], width));
      StreamInjective(a[1..], b[1..], width);
      assert a == [a[0]] + a[1..] && b == [b[0]] + b[1..];
    }
  }

  // ---- The whole digest, with the header naming the table and its columns ----

  /** "table" and "column", each with the zero byte that ends it. */
  const TABLE_MARK: bytes := [116, 97, 98, 108, 101, 0]
  const COLUMN_MARK: bytes := [99, 111, 108, 117, 109, 110, 0]

  /** What follows a name: the remaining columns, and then the rows. */
  function Columns(columns: seq<bytes>, rows: bytes): bytes {
    if columns == [] then rows else COLUMN_MARK + columns[0] + Columns(columns[1..], rows)
  }

  function TableBytes(table: bytes, columns: seq<bytes>, rows: seq<Row>): bytes
    requires Table(rows, |columns|)
  {
    TABLE_MARK + table + Columns(columns, Stream(rows, |columns|))
  }

  /** Every token behind its length in eight bytes. */
  ghost function TokenTexts(row: Row): seq<bytes> {
    seq(|row|, i requires 0 <= i < |row| => BigEndian(|Token(row[i])|, 8) + Token(row[i]))
  }

  ghost function RowTexts(rows: seq<Row>): seq<bytes> {
    seq(|rows|, i requires 0 <= i < |rows| => Ascii("row\0") + Concat(TokenTexts(rows[i])))
  }

  ghost function ColumnTexts(columns: seq<bytes>): seq<bytes> {
    seq(|columns|, i requires 0 <= i < |columns| => Ascii("column\0") + columns[i])
  }

  /** The table's name, the columns' and the rows, each behind its mark. */
  ghost function TableText(table: bytes, columns: seq<bytes>, rows: seq<Row>): bytes {
    Ascii("table\0") + table + Concat(ColumnTexts(columns)) + Concat(RowTexts(rows))
  }

  lemma MarksSpelled()
    ensures Ascii("table\0") == TABLE_MARK && Ascii("column\0") == COLUMN_MARK && Ascii("row\0") == ROW_MARK
  {
  }

  lemma {:induction false} CellsAreTokens(row: Row)
    requires Sized(row)
    ensures CellsBytes(row) == Concat(TokenTexts(row))
  {
    hide Token, BigEndian;
    if row != [] {
      CellsAreTokens(row[1..]);
      assert TokenTexts(row)[1..] == TokenTexts(row[1..]);
    }
  }

  lemma {:induction false} StreamIsRows(rows: seq<Row>, width: nat)
    requires Table(rows, width)
    ensures Stream(rows, width) == Concat(RowTexts(rows))
  {
    MarksSpelled();
    hide Ascii, CellsBytes, TokenTexts, Sized;
    if rows != [] {
      StreamIsRows(rows[1..], width);
      CellsAreTokens(rows[0]);
      assert RowTexts(rows)[1..] == RowTexts(rows[1..]);
    }
  }

  lemma {:induction false} ColumnsAreNames(columns: seq<bytes>, rows: bytes)
    ensures Columns(columns, rows) == Concat(ColumnTexts(columns)) + rows
  {
    MarksSpelled();
    hide Ascii;
    if columns == [] {
      assert [] + rows == rows;
    } else {
      ColumnsAreNames(columns[1..], rows);
      assert ColumnTexts(columns)[1..] == ColumnTexts(columns[1..]);
      Regroup(COLUMN_MARK + columns[0], Concat(ColumnTexts(columns[1..])), rows);
    }
  }

  /** The bytes that a table's digest is taken of. */
  lemma TableBytesExactly(table: bytes, columns: seq<bytes>, rows: seq<Row>)
    requires Table(rows, |columns|)
    ensures TableBytes(table, columns, rows) == TableText(table, columns, rows)
  {
    hide Stream, Columns, RowTexts, ColumnTexts, Concat, Ascii;
    MarksSpelled();
    StreamIsRows(rows, |columns|);
    ColumnsAreNames(columns, Stream(rows, |columns|));
    Regroup(TABLE_MARK + table, Concat(ColumnTexts(columns)), Stream(rows, |columns|));
  }

  /** SQLite identifiers hold no zero byte. */
  predicate Named(table: bytes, columns: seq<bytes>) {
    0 !in table && forall c :: c in columns ==> 0 !in c
  }

  /** Rows come first, or a column, or nothing at all. */
  predicate Continues(s: bytes) {
    s == [] || ROW_MARK <= s || COLUMN_MARK <= s
  }

  lemma StreamContinues(columns: seq<bytes>, rows: seq<Row>, width: nat)
    requires Table(rows, width)
    ensures Continues(Columns(columns, Stream(rows, width)))
    ensures columns == [] ==> !(COLUMN_MARK <= Columns(columns, Stream(rows, width)))
    ensures columns != [] ==> COLUMN_MARK <= Columns(columns, Stream(rows, width))
  {
    if columns == [] {
      if rows != [] { assert ROW_MARK[0] != COLUMN_MARK[0]; }
    } else {
      Regroup(COLUMN_MARK, columns[0], Columns(columns[1..], Stream(rows, width)));
    }
  }

  /** The first zero byte is at `k`, right after the given byte. */
  ghost predicate FirstZero(s: bytes, k: nat, before: byte) {
    0 < k < |s| && s[k] == 0 && s[k - 1] == before && forall i :: 0 <= i < k ==> s[i] != 0
  }

  /** Where the first zero byte is, and what stands before it, tells a name from its mark. */
  lemma NameEnds(x: bytes, s: bytes)
    requires 0 !in x && Continues(s)
    ensures s == [] ==> 0 !in x + s
    ensures ROW_MARK <= s ==> FirstZero(x + s, |x| + 3, 119)
    ensures COLUMN_MARK <= s ==> FirstZero(x + s, |x| + 6, 110)
  {
    var all := x + s;
    assert forall i :: 0 <= i < |x| ==> all[i] == x[i] && x[i] in x;
    assert forall i :: 0 <= i < |s| ==> all[|x| + i] == s[i];
    if ROW_MARK <= s { assert forall i :: 0 <= i < 4 ==> s[i] == ROW_MARK[i]; }
    if COLUMN_MARK <= s { assert forall i :: 0 <= i < 7 ==> s[i] == COLUMN_MARK[i]; }
  }

  /** A name without a zero byte is told apart from what follows it. */
  lemma NameSplit(x: bytes, y: bytes, s: bytes, t: bytes)
    requires 0 !in x && 0 !in y && Continues(s) && Continues(t) && x + s == y + t
    ensures x == y && s == t
  {
    NameNotShorter(x, y, s, t);
    NameNotShorter(y, x, t, s);
    FixedSplit(x, y, s, t);
  }

  lemma NameNotShorter(x: bytes, y: bytes, s: bytes, t: bytes)
    requires 0 !in x && 0 !in y && Continues(s) && Continues(t) && x + s == y + t
    ensures |x| >= |y|
  {
    NameEnds(x, s);
    NameEnds(y, t);
    assert s == [] ==> |x| == |x + s|;
  }

  lemma ColumnsCons(columns: seq<bytes>, rows: bytes)
    ensures Columns([], rows) == rows
    ensures columns != [] ==> Columns(columns, rows) == COLUMN_MARK + (columns[0] + Columns(columns[1..], rows))
    ensures columns != [] ==> |Columns(columns, rows)| > 0
  {
    if columns != [] { Regroup(COLUMN_MARK, columns[0], Columns(columns[1..], rows)); }
  }

  lemma {:induction false} ColumnsSplit(a: seq<bytes>, b: seq<bytes>, p: seq<Row>, q: seq<Row>, m: nat, n: nat)
    requires (forall c :: c in a ==> 0 !in c) && (forall c :: c in b ==> 0 !in c)
    requires Table(p, m) && Table(q, n) && Columns(a, Stream(p, m)) == Columns(b, Stream(q, n))
    ensures a == b && Stream(p, m) == Stream(q, n)
  {
    hide *;
    StreamContinues(a, p, m);
    StreamContinues(b, q, n);
    ColumnsCons(a, Stream(p, m));
    ColumnsCons(b, Stream(q, n));
    if a != [] && b != [] {
      var x, y := Columns(a[1..], Stream(p, m)), Columns(b[1..], Stream(q, n));
      StreamContinues(a[1..], p, m);
      StreamContinues(b[1..], q, n);
      FixedSplit(COLUMN_MARK, COLUMN_MARK, a[0] + x, b[0] + y);
      NameSplit(a[0], b[0], x, y);
      ColumnsSplit(a[1..], b[1..], p, q, m, n);
      assert a == [a[0]] + a[1..] && b == [b[0]] + b[1..];
    }
  }

  /** Although nothing in the header is framed, the digested bytes determine the table's name,
      its columns and its rows. */
  lemma TableBytesInjective(table: bytes, columns: seq<bytes>, rows: seq<Row>,
    other: bytes, others: seq<bytes>, otherRows: seq<Row>)
    requires Named(table, columns) && Named(other, others) && Table(rows, |columns|) && Table(otherRows, |others|)
    requires TableBytes(table, columns, rows) == TableBytes(other, others, otherRows)
    ensures table == other && columns == others && rows == otherRows
  {
    var x, y := Columns(columns, Stream(rows, |columns|)), Columns(others, Stream(otherRows, |others|));
    Regroup(TABLE_MARK, table, x);
    Regroup(TABLE_MARK, other, y);
    FixedSplit(TABLE_MARK, TABLE_MARK, table + x, other + y);
    StreamContinues(columns, rows, |columns|);
    StreamContinues(others, otherRows, |others|);
    NameSplit(table, other, x, y);
    ColumnsSplit(columns, others, rows, otherRows, |columns|, |others|);
    StreamInjective(rows, otherRows, |columns|);
  }
}
