/** The digest of a Git tree: every directory is hashed as its sorted entries, and, as
    long as no two hashed objects collide, the digest determines the whole catalogue. */
module TreeDigest {
  import opened Hexadecimal
  import opened Prelude
  import opened Paths
  import opened Ordering
  import opened GitTree

  /** The hash function: twenty raw bytes for any input. */
  type Sha1 = bytes -> bytes

  ghost predicate TwentyBytes(h: Sha1) {
    forall x: bytes :: |h(x)| == 20
  }

  /** What `_git_hash` hashes: kind, space, decimal length, NUL, data. */
  function Object(kind: bytes, data: bytes): bytes {
    kind + [SPACE] + Decimal(|data|) + [0] + data
  }

  function GitHash(h: Sha1, kind: bytes, data: bytes): bytes {
    ToHex(h(Object(kind, data)))
  }

  const TREE: bytes := [116, 114, 101, 101]

  predicate ValidName(n: Name) { SLASH !in n && 0 !in n }

  ghost predicate ValidNode(node: Node) {
    match node
    case File(mode, blob) => (mode == MODE_FILE || mode == MODE_EXECUTABLE) && IsOid(blob)
    case Dir(children) => forall n :: n in children ==> ValidName(n) && ValidNode(children[n])
  }

  /** Git compares a directory as if its name ended in a slash. */
  function SortKey(name: Name, node: Node): bytes {
    if node.Dir? then name + [SLASH] else name
  }

  predicate LeastName(name: Name, names: set<Name>, children: map<Name, Node>)
    requires names <= children.Keys && name in names
  {
    forall m :: m in names ==> LexLe(SortKey(name, children[name]), SortKey(m, children[m]))
  }

  lemma {:induction false} HasLeastKey(names: set<Name>, children: map<Name, Node>)
    requires names != {} && names <= children.Keys
    ensures exists name :: name in names && LeastName(name, names, children)
  {
    var n :| n in names;
    var others := names - {n};
    LexTotal(SortKey(n, children[n]), SortKey(n, children[n]));
    if others == {} {
      assert forall k :: k in names ==> k == n by { assert names == others + {n}; }
      assert LeastName(n, names, children);
    } else {
      HasLeastKey(others, children);
      var m :| m in others && LeastName(m, others, children);
      var a, b := SortKey(n, children[n]), SortKey(m, children[m]);
      LexTotal(a, b);
      var name := if LexLe(a, b) then n else m;
      forall k | k in names ensures LexLe(SortKey(name, children[name]), SortKey(k, children[k])) {
        if k != n && LexLe(a, b) { LexTransitive(a, b, SortKey(k, children[k])); }
      }
      assert LeastName(name, names, children);
    }
  }

  lemma KeyShape(n: Name, node: Node)
    requires SLASH !in n
    ensures SLASH in SortKey(n, node) <==> node.Dir?
    ensures node.Dir? ==> SortKey(n, node)[..|n|] == n && |SortKey(n, node)| == |n| + 1
  {
    if node.Dir? { assert SortKey(n, node)[|n|] == SLASH; }
  }

  lemma SameKeySameName(a: Name, b: Name, children: map<Name, Node>)
    requires a in children && b in children && SLASH !in a && SLASH !in b
    requires SortKey(a, children[a]) == SortKey(b, children[b])
    ensures a == b
  {
    KeyShape(a, children[a]);
    KeyShape(b, children[b]);
  }

  lemma LeastIsUnique(names: set<Name>, children: map<Name, Node>)
    requires names <= children.Keys && forall n :: n in names ==> SLASH !in n
    ensures forall a, b :: a in names && b in names ==>
      (LeastName(a, names, children) && LeastName(b, names, children) ==> a == b)
  {
    forall a, b | a in names && b in names && LeastName(a, names, children) && LeastName(b, names, children)
      ensures a == b
    {
      LexTotal(SortKey(a, children[a]), SortKey(b, children[b]));
      SameKeySameName(a, b, children);
    }
  }

  /** `sorted(node, key=...)`: the names by increasing sort key. */
  function Ordered(names: set<Name>, children: map<Name, Node>): (r: seq<Name>)
    requires names <= children.Keys && forall n :: n in names ==> SLASH !in n
    ensures forall n :: n in r <==> n in names
    ensures |r| == |names|
    decreases |names|
  {
    if names == {} then []
    else
      HasLeastKey(names, children);
      LeastIsUnique(names, children);
      var name :| name in names && LeastName(name, names, children);
      assert names == (names - {name}) + {name};
      [name] + Ordered(names - {name}, children)
  }

  lemma OrderedSplit(names: set<Name>, children: map<Name, Node>)
    requires names <= children.Keys && (forall n :: n in names ==> SLASH !in n) && names != {}
    ensures var r := Ordered(names, children);
      r[0] in names && LeastName(r[0], names, children) && r == [r[0]] + Ordered(names - {r[0]}, children)
  {
  }

  lemma {:induction false} OrderedBySortKey(names: set<Name>, children: map<Name, Node>)
    requires names <= children.Keys && forall n :: n in names ==> SLASH !in n
    ensures var r := Ordered(names, children);
      && Distinct(r)
      && forall i, j :: 0 <= i < j < |r| ==> LexLe(SortKey(r[i], children[r[i]]), SortKey(r[j], children[r[j]]))
    decreases |names|
  {
    if names != {} {
      OrderedSplit(names, children);
      var first := Ordered(names, children)[0];
      var rest := Ordered(names - {first}, children);
      OrderedBySortKey(names - {first}, children);
      forall j | 0 <= j < |rest|
        ensures rest[j] in names && rest[j] != first
        ensures LexLe(SortKey(first, children[first]), SortKey(rest[j], children[rest[j]]))
      {
        assert rest[j] in rest;
      }
    }
  }

  /** What a name is sorted by: its bytes, a directory's with a slash behind them. */
  function Listed(name: Name, node: Node): bytes {
    name + if node.Dir? then [47] else []
  }

  lemma KeyIsListed(name: Name, node: Node)
    ensures SortKey(name, node) == Listed(name, node)
  {
    assert name + [] == name;
  }

  /** The names ascend by their bytes, a directory's with a slash behind them. */
  ghost predicate ListedInOrder(names: seq<Name>, children: map<Name, Node>)
    requires forall n :: n in names ==> n in children
  {
    forall i, j :: 0 <= i < j < |names| ==>
      Precedes(Listed(names[i], children[names[i]]), Listed(names[j], children[names[j]]))
  }

  /** The order is the sorted one, each name once. */
  lemma OrderedIsSorted(names: set<Name>, children: map<Name, Node>)
    requires names <= children.Keys && forall n :: n in names ==> SLASH !in n
    ensures Distinct(Ordered(names, children)) && ListedInOrder(Ordered(names, children), children)
  {
    var r := Ordered(names, children);
    OrderedBySortKey(names, children);
    hide Ordered, Precedes, LexLe;
    forall i, j | 0 <= i < j < |r|
      ensures Precedes(Listed(r[i], children[r[i]]), Listed(r[j], children[r[j]]))
    {
      LexExactly(SortKey(r[i], children[r[i]]), SortKey(r[j], children[r[j]]));
      KeyIsListed(r[i], children[r[i]]);
      KeyIsListed(r[j], children[r[j]]);
    }
  }

  // ---- Directory objects ----

  datatype Row = Row(mode: bytes, name: Name, oid: bytes)

  function RowBytes(r: Row): (b: bytes)
    ensures |b| > 0
  {
    r.mode + [SPACE] + r.name + [0] + r.oid
  }

  function Payload(rows: seq<Row>): bytes {
    if rows == [] then [] else RowBytes(rows[0]) + Payload(rows[1..])
  }

  function ModeOf(node: Node): bytes {
    if node.Dir? then MODE_TREE else node.mode
  }

  /** The object name of a node: a file's blob, or the hash of a directory's rows. */
  function Digest(h: Sha1, node: Node): (oid: bytes)
    requires ValidNode(node)
    ensures |oid| % 2 == 0 && forall b :: b in oid ==> IsHexDigit(b)
    decreases node, 1, 0
  {
    match node
    case File(_, blob) => blob
    case Dir(children) => GitHash(h, TREE, Payload(Rows(h, node, Ordered(children.Keys, children))))
  }

  function Rows(h: Sha1, node: Node, names: seq<Name>): (rows: seq<Row>)
    requires ValidNode(node) && node.Dir? && forall n :: n in names ==> n in node.children
    ensures |rows| == |names|
    decreases node, 0, |names|
  {
    if names == [] then []
    else
      var child := node.children[names[0]];
      [Row(ModeOf(child), names[0], FromHex(Digest(h, child)))] + Rows(h, node, names[1..])
  }

  lemma RowsFirst(h: Sha1, node: Node, names: seq<Name>, payload: bytes)
    requires ValidNode(node) && node.Dir? && names != [] && forall n :: n in names ==> n in node.children
    ensures var child := node.children[names[0]];
      payload + Payload(Rows(h, node, names))
      == payload + RowBytes(Row(ModeOf(child), names[0], FromHex(Digest(h, child))))
        + Payload(Rows(h, node, names[1..]))
  {
    assert Rows(h, node, names)[1..] == Rows(h, node, names[1..]);
  }

  /** A child's row: 40000 for a directory and else the file's mode, a space, the name, a zero
      byte and the raw bytes of the child's object name. */
  ghost function ChildRow(h: Sha1, node: Node, name: Name): bytes
    requires ValidNode(node) && node.Dir? && name in node.children
  {
    var child := node.children[name];
    (if child.Dir? then [52, 48, 48, 48, 48] else child.mode) + [32] + name + [0]
      + FromHex(if child.Dir? then Digest(h, child) else child.blob)
  }

  /** The object name of a directory is the hexadecimal hash of "tree", a space, the length, a
      zero byte and the rows of its children, every name once and in the order of the bytes. */
  ghost predicate IsDirectoryObject(h: Sha1, node: Node, oid: bytes)
    requires ValidNode(node) && node.Dir?
  {
    exists names: seq<Name> :: HashesChildren(h, node, names, oid)
  }

  ghost predicate HashesChildren(h: Sha1, node: Node, names: seq<Name>, oid: bytes)
    requires ValidNode(node) && node.Dir?
  {
    && (forall n :: n in node.children <==> n in names) && Distinct(names) && ListedInOrder(names, node.children)
    && var rows := Concat(seq(|names|, i requires 0 <= i < |names| => ChildRow(h, node, names[i])));
      oid == ToHex(h([116, 114, 101, 101, 32] + Decimal(|rows|) + [0] + rows))
  }

  lemma {:induction false} PayloadIsRows(h: Sha1, node: Node, names: seq<Name>)
    requires ValidNode(node) && node.Dir? && forall n :: n in names ==> n in node.children
    ensures Payload(Rows(h, node, names))
         == Concat(seq(|names|, i requires 0 <= i < |names| => ChildRow(h, node, names[i])))
  {
    if names != [] {
      var rows := seq(|names|, i requires 0 <= i < |names| => ChildRow(h, node, names[i]));
      PayloadIsRows(h, node, names[1..]);
      assert rows[1..] == seq(|names[1..]|, i requires 0 <= i < |names[1..]| => ChildRow(h, node, names[1..][i]));
      assert Rows(h, node, names)[1..] == Rows(h, node, names[1..]);
    }
  }

  lemma DigestIsDirectoryObject(h: Sha1, node: Node)
    requires ValidNode(node) && node.Dir?
    ensures IsDirectoryObject(h, node, Digest(h, node))
  {
    hide Ordered, ListedInOrder, Rows, Payload, ChildRow, Decimal;
    var names := Ordered(node.children.Keys, node.children);
    OrderedIsSorted(node.children.Keys, node.children);
    PayloadIsRows(h, node, names);
    assert TREE + [SPACE] == [116, 114, 101, 101, 32];
    assert HashesChildren(h, node, names, Digest(h, node));
  }

  method DigestTree(h: Sha1, node: Node) returns (oid: bytes)
    requires ValidNode(node) && node.Dir?
    ensures oid == Digest(h, node) && IsDirectoryObject(h, node, oid)
    decreases node
  {
    DigestIsDirectoryObject(h, node);
    hide IsDirectoryObject, Precedes;
    var payload: bytes := [];
    var names := Ordered(node.children.Keys, node.children);
    ghost var todo := names;
    for i := 0 to |names|
      invariant todo == names[i..]
      invariant payload + Payload(Rows(h, node, todo)) == Payload(Rows(h, node, names))
    {
      var name := names[i];
      assert todo[0] == name && name in names;
      var value := node.children[name];
      var mode, child := MODE_TREE, [];
      if value.Dir? {
        child := DigestTree(h, value);
      } else {
        mode, child := value.mode, value.blob;
      }
      RowsFirst(h, node, todo, payload);
      payload := payload + (mode + [SPACE] + name + [0] + FromHex(child));
      todo := todo[1..];
    }
    assert todo == [] && Rows(h, node, todo) == [] && payload + [] == payload;
    assert payload == Payload(Rows(h, node, names));
    oid := GitHash(h, TREE, payload);
  }

  // ---- The hash of a catalogue ----

  lemma {:induction false} InsertValid(node: Node, parts: seq<Name>, leaf: Node)
    requires node.Dir? && |parts| > 0 && ValidNode(node) && ValidNode(leaf) && Insert(node, parts, leaf).Ok?
    requires forall p :: p in parts ==> ValidName(p)
    ensures ValidNode(Insert(node, parts, leaf).value)
    decreases |parts|
  {
    if |parts| > 1 {
      var child := if parts[0] in node.children then node.children[parts[0]] else Dir(map[]);
      InsertValid(child, parts[1..], leaf);
    }
  }

  lemma {:induction false} BuildValid(entries: Catalog)
    requires Build(entries).Ok?
    ensures ValidNode(Build(entries).value)
  {
    if entries != [] {
      var last := |entries| - 1;
      BuildValid(entries[..last]);
      SafePathExactly(entries[last].0);
      InsertValid(Build(entries[..last]).value, PartsOf(entries[last].0), FileOf(entries[last].1));
    }
  }

  function TreeHashOf(h: Sha1, entries: Catalog): Result<bytes, TreeError> {
    match Build(entries)
    case Err(e) => Err(e)
    case Ok(t) => BuildValid(entries); Ok(Digest(h, t))
  }

  method TreeHash(h: Sha1, entries: Catalog) returns (r: Result<bytes, TreeError>)
    ensures r == TreeHashOf(h, entries)
    ensures r.Ok? <==> Acceptable(entries)
    ensures r.Ok? ==>
      && Build(entries).Ok? && ValidNode(Build(entries).value) && Flattens(Build(entries).value, entries)
      && IsDirectoryObject(h, Build(entries).value, r.value)
  {
    BuildExactly(entries);
    hide Acceptable, Flattens, IsDirectoryObject;
    var tree := Dir(map[]);
    for i := 0 to |entries|
      invariant tree.Dir? && Build(entries[..i]) == Ok(tree)
    {
      assert entries[..i + 1][..i] == entries[..i];
      var (path, e) := entries[i];
      match AddEntry(tree, path, e) {
        case Err(error) =>
          BuildStops(entries, i + 1);
          return Err(error);
        case Ok(t) => tree := t;
      }
    }
    assert entries[..|entries|] == entries;
    BuildValid(entries);
    var oid := DigestTree(h, tree);
    return Ok(oid);
  }

  lemma {:induction false} BuildStops(entries: Catalog, i: nat)
    requires i <= |entries| && Build(entries[..i]).Err?
    ensures Build(entries) == Build(entries[..i])
    decreases |entries|
  {
    if i == |entries| {
      assert entries[..i] == entries;
    } else {
      var init := entries[..|entries| - 1];
      assert init[..i] == entries[..i];
      BuildStops(init, i);
    }
  }

  // ---- The digest determines the tree ----

  predicate ValidRow(r: Row) {
    SPACE !in r.mode && 0 !in r.mode && 0 !in r.name && |r.oid| == 20
  }

  lemma RowSplit(a: Row, b: Row, x: bytes, y: bytes)
    requires ValidRow(a) && ValidRow(b) && RowBytes(a) + x == RowBytes(b) + y
    ensures a == b && x == y
  {
    var p, q := a.mode + [SPACE] + a.name, b.mode + [SPACE] + b.name;
    assert RowBytes(a) + x == p + [0] + (a.oid + x);
    assert RowBytes(b) + y == q + [0] + (b.oid + y);
    TerminatedSplit(p, q, a.oid + x, b.oid + y, 0);
    TerminatedSplit(a.mode, b.mode, a.name, b.name, SPACE);
    FixedSplit(a.oid, b.oid, x, y);
  }

  /** The framing `mode name NUL oid` can be read back in one way only. */
  lemma {:induction false} PayloadUnique(a: seq<Row>, b: seq<Row>)
    requires (forall r :: r in a ==> ValidRow(r)) && (forall r :: r in b ==> ValidRow(r))
    requires Payload(a) == Payload(b)
    ensures a == b
  {
    if a != [] && b != [] {
      RowSplit(a[0], b[0], Payload(a[1..]), Payload(b[1..]));
      PayloadUnique(a[1..], b[1..]);
      assert a == [a[0]] + a[1..] && b == [b[0]] + b[1..];
    }
  }

  lemma ObjectUnique(kind: bytes, a: bytes, b: bytes)
    requires 0 !in kind && Object(kind, a) == Object(kind, b)
    ensures a == b
  {
    TerminatedSplit(kind + [SPACE] + Decimal(|a|), kind + [SPACE] + Decimal(|b|), a, b, 0);
  }

  ghost function TreeObject(h: Sha1, node: Node): bytes
    requires ValidNode(node) && node.Dir?
  {
    Object(TREE, Payload(Rows(h, node, Ordered(node.children.Keys, node.children))))
  }

  /** Every object hashed while digesting a node. */
  ghost function Hashed(h: Sha1, node: Node): set<bytes>
    requires ValidNode(node)
  {
    match node
    case File(_, _) => {}
    case Dir(children) => {TreeObject(h, node)} + set n, x | n in children && x in Hashed(h, children[n]) :: x
  }

  lemma {:induction false} RowAt(h: Sha1, node: Node, names: seq<Name>, i: nat)
    requires ValidNode(node) && node.Dir? && (forall n :: n in names ==> n in node.children) && i < |names|
    ensures Rows(h, node, names)[i]
         == Row(ModeOf(node.children[names[i]]), names[i], FromHex(Digest(h, node.children[names[i]])))
  {
    if i > 0 { RowAt(h, node, names[1..], i - 1); }
  }

  lemma ChildRowValid(h: Sha1, node: Node, n: Name)
    requires TwentyBytes(h) && ValidNode(node) && node.Dir? && n in node.children
    ensures ValidRow(Row(ModeOf(node.children[n]), n, FromHex(Digest(h, node.children[n]))))
  {
    assert |Digest(h, node.children[n])| == 40;
  }

  lemma RowsValid(h: Sha1, node: Node, names: seq<Name>)
    requires TwentyBytes(h) && ValidNode(node) && node.Dir? && forall n :: n in names ==> n in node.children
    ensures forall r :: r in Rows(h, node, names) ==> ValidRow(r)
  {
    forall i | 0 <= i < |names| ensures ValidRow(Rows(h, node, names)[i]) {
      RowAt(h, node, names, i);
      ChildRowValid(h, node, names[i]);
    }
  }

  function RowsOf(h: Sha1, node: Node): seq<Row>
    requires ValidNode(node) && node.Dir?
  {
    Rows(h, node, Ordered(node.children.Keys, node.children))
  }

  lemma SameDigestSameRows(h: Sha1, s: Node, t: Node)
    requires TwentyBytes(h) && ValidNode(s) && ValidNode(t) && s.Dir? && t.Dir?
    requires CollisionFree(h, Hashed(h, s) + Hashed(h, t)) && Digest(h, s) == Digest(h, t)
    ensures RowsOf(h, s) == RowsOf(h, t)
  {
    ToHexInjective(h(TreeObject(h, s)), h(TreeObject(h, t)));
    ObjectUnique(TREE, Payload(RowsOf(h, s)), Payload(RowsOf(h, t)));
    RowsValid(h, s, Ordered(s.children.Keys, s.children));
    RowsValid(h, t, Ordered(t.children.Keys, t.children));
    PayloadUnique(RowsOf(h, s), RowsOf(h, t));
  }

  lemma SameRowsSameName(h: Sha1, s: Node, t: Node, n: Name)
    requires ValidNode(s) && ValidNode(t) && s.Dir? && t.Dir? && RowsOf(h, s) == RowsOf(h, t) && n in s.children
    ensures n in t.children && ModeOf(s.children[n]) == ModeOf(t.children[n])
    ensures FromHex(Digest(h, s.children[n])) == FromHex(Digest(h, t.children[n]))
  {
    var a, b := Ordered(s.children.Keys, s.children), Ordered(t.children.Keys, t.children);
    var i := IndexOf(a, n);
    RowAt(h, s, a, i);
    RowAt(h, t, b, i);
    assert b[i] in b;
  }

  /** Equal object names come from equal directories, all the way down. */
  lemma {:induction false} DigestDeterminesTree(h: Sha1, s: Node, t: Node)
    requires TwentyBytes(h) && ValidNode(s) && ValidNode(t) && s.Dir? && t.Dir?
    requires CollisionFree(h, Hashed(h, s) + Hashed(h, t))
    requires Digest(h, s) == Digest(h, t)
    ensures s == t
    decreases s, 0
  {
    SameDigestSameRows(h, s, t);
    forall n | n in s.children ensures n in t.children && s.children[n] == t.children[n] {
      SameRowsSameName(h, s, t, n);
      SameRowSameChild(h, s, t, n);
    }
    forall n | n in t.children ensures n in s.children { SameRowsSameName(h, t, s, n); }
    assert s.children == t.children;
  }

  ghost function IndexOf(names: seq<Name>, n: Name): (i: nat)
    requires n in names
    ensures i < |names| && names[i] == n
  {
    var i :| 0 <= i < |names| && names[i] == n; i
  }

  lemma HashedChild(h: Sha1, node: Node, n: Name)
    requires ValidNode(node) && node.Dir? && n in node.children
    ensures Hashed(h, node.children[n]) <= Hashed(h, node)
  {
  }

  lemma ModeTells(node: Node)
    requires ValidNode(node)
    ensures node.Dir? <==> ModeOf(node) == MODE_TREE
  {
    assert |MODE_TREE| == 5 && |MODE_FILE| == |MODE_EXECUTABLE| == 6;
  }

  lemma SameOid(h: Sha1, c: Node, d: Node)
    requires ValidNode(c) && ValidNode(d) && FromHex(Digest(h, c)) == FromHex(Digest(h, d))
    ensures Digest(h, c) == Digest(h, d)
  {
    ToHexOfFromHex(Digest(h, c));
    ToHexOfFromHex(Digest(h, d));
  }

  lemma NoCollisionBelow(h: Sha1, s: Node, t: Node, n: Name)
    requires ValidNode(s) && ValidNode(t) && s.Dir? && t.Dir? && n in s.children && n in t.children
    requires CollisionFree(h, Hashed(h, s) + Hashed(h, t))
    ensures CollisionFree(h, Hashed(h, s.children[n]) + Hashed(h, t.children[n]))
  {
    HashedChild(h, s, n);
    HashedChild(h, t, n);
  }

  lemma SameRowSameChild(h: Sha1, s: Node, t: Node, n: Name)
    requires TwentyBytes(h) && ValidNode(s) && ValidNode(t) && s.Dir? && t.Dir? && n in s.children && n in t.children
    requires CollisionFree(h, Hashed(h, s) + Hashed(h, t))
    requires ModeOf(s.children[n]) == ModeOf(t.children[n])
    requires FromHex(Digest(h, s.children[n])) == FromHex(Digest(h, t.children[n]))
    ensures s.children[n] == t.children[n]
    decreases s.children[n], 1
  {
    SameOid(h, s.children[n], t.children[n]);
    ModeTells(s.children[n]);
    ModeTells(t.children[n]);
    if s.children[n].Dir? {
      NoCollisionBelow(h, s, t, n);
      DigestDeterminesTree(h, s.children[n], t.children[n]);
    }
  }

  /** Two entries agree in everything the tree binds; sizes are not part of it. */
  ghost predicate SameFile(x: (bytes, Entry), y: (bytes, Entry)) {
    x.0 == y.0 && x.1.mode == y.1.mode && x.1.blob == y.1.blob
  }

  ghost predicate Covers(a: Catalog, b: Catalog) {
    forall x :: x in a ==> exists y :: y in b && SameFile(x, y)
  }

  /** The tree hash is injective in path, mode and blob: equal hashes, no collision among
      the hashed objects, hence the same files in both catalogues. */
  lemma TreeHashDeterminesCatalog(h: Sha1, a: Catalog, b: Catalog)
    requires TwentyBytes(h) && Build(a).Ok? && Build(b).Ok?
    requires ValidNode(Build(a).value) && ValidNode(Build(b).value)
    requires CollisionFree(h, Hashed(h, Build(a).value) + Hashed(h, Build(b).value))
    requires TreeHashOf(h, a) == TreeHashOf(h, b)
    ensures Covers(a, b) && Covers(b, a)
  {
    DigestDeterminesTree(h, Build(a).value, Build(b).value);
    BuildExactly(a);
    BuildExactly(b);
    SameTreeCovers(Build(a).value, a, b);
    SameTreeCovers(Build(a).value, b, a);
  }

  lemma SameTreeCovers(t: Node, a: Catalog, b: Catalog)
    requires Flattens(t, a) && Flattens(t, b)
    ensures Covers(a, b)
  {
    forall x | x in a ensures exists y :: y in b && SameFile(x, y) {
      var y :| y in b && PartsOf(y.0) == PartsOf(x.0);
      JoinOfSplit(x.0, SLASH);
      JoinOfSplit(y.0, SLASH);
      assert SameFile(x, y);
    }
  }
}
