/** The Git tree of a path catalogue: which catalogues build a nested directory, and what the
    directory determines.  Paths are the UTF-8 bytes of the source's text. */
module GitTree {
  import opened Hexadecimal
  import opened Prelude
  import opened Paths

  type Name = bytes

  const SLASH: byte := 47
  const SPACE: byte := 32
  const DOT: bytes := [46]
  const DOT_DOT: bytes := [46, 46]
  const DOT_GIT: bytes := [46, 103, 105, 116]
  const MODE_FILE: bytes := [49, 48, 48, 54, 52, 52]
  const MODE_EXECUTABLE: bytes := [49, 48, 48, 55, 53, 53]
  const MODE_TREE: bytes := [52, 48, 48, 48, 48]

  // ---- Safe paths ----

  function SafePath(value: bytes): (r: Option<seq<Name>>)
    ensures r.Some? ==> |r.value| > 0
  {
    var parts := PosixParts(Split(value, SLASH), DOT);
    if value == [] || parts == [] || value[0] == SLASH
      || (exists p :: p in parts && p in {DOT, DOT_DOT, DOT_GIT})
      || Join(parts, SLASH) != value || 92 in value || 0 in value
    then None
    else Some(parts)
  }

  /** Not empty, `.`, `..` or `.git`, and without slash, zero byte and backslash. */
  predicate SafeComponent(p: Name) {
    p != [] && p != [46] && p != [46, 46] && p != [46, 103, 105, 116] && 47 !in p && 0 !in p && 92 !in p
  }

  lemma {:induction false} ByteOfComponent(value: bytes, b: byte)
    requires b != SLASH
    ensures b in value <==> exists p :: p in Split(value, SLASH) && b in p
  {
    if value == [] {
      assert Split(value, SLASH) == [[]];
    } else {
      var whole, rest := Split(value, SLASH), Split(value[1..], SLASH);
      ByteOfComponent(value[1..], b);
      if value[0] == SLASH {
        assert forall p :: p in whole ==> p == [] || p in rest;
        assert forall p :: p in rest ==> p in whole;
      } else {
        assert whole[0] == [value[0]] + rest[0];
        if p :| p in rest && b in p {
          var i :| 0 <= i < |rest| && rest[i] == p;
          assert b in whole[i] && whole[i] in whole;
        }
        if value[0] == b { assert whole[0] in whole; }
        if p :| p in whole && b in p {
          var i :| 0 <= i < |whole| && whole[i] == p;
          assert value[0] == b || (b in rest[i] && rest[i] in rest);
        }
      }
    }
  }

  /** A path is safe exactly when every slash-separated component is; it then has exactly
      those components, so different safe paths have different ones. */
  lemma SafePathExactly(value: bytes)
    ensures SafePath(value).Some? <==> forall p :: p in Split(value, SLASH) ==> SafeComponent(p)
    ensures SafePath(value).Some? ==>
      SafePath(value).value == Split(value, SLASH) && Join(Split(value, SLASH), SLASH) == value
  {
    var all := Split(value, SLASH);
    var parts := PosixParts(all, DOT);
    PosixPartsAll(all, DOT);
    JoinOfSplit(value, SLASH);
    ByteOfComponent(value, 92);
    ByteOfComponent(value, 0);
    if SafePath(value).Some? {
      SplitOfJoin(parts, SLASH);
    }
    if forall p :: p in all ==> SafeComponent(p) {
      assert SafeComponent(all[0]) by { assert all[0] in all; }
      assert value != [] by { assert Split([], SLASH) == [[]]; }
    }
  }

  // ---- Catalogue entries ----

  datatype Entry = Entry(mode: bytes, blob: bytes, size: int)

  /** The catalogue, as the dictionary's items in insertion order. */
  type Catalog = seq<(bytes, Entry)>

  predicate IsOid(s: bytes) { |s| == 40 && forall b :: b in s ==> IsHexDigit(b) }

  predicate ValidEntry(e: Entry) {
    (e.mode == MODE_FILE || e.mode == MODE_EXECUTABLE) && IsOid(e.blob)
  }

  /** A safe path with the mode 100644 or 100755 and forty lower-case hexadecimal digits. */
  predicate Admissible(path: bytes, e: Entry) {
    && (forall p :: p in Split(path, 47) ==> SafeComponent(p))
    && (e.mode == [49, 48, 48, 54, 52, 52] || e.mode == [49, 48, 48, 55, 53, 53])
    && |e.blob| == 40 && forall b :: b in e.blob ==> 48 <= b <= 57 || 97 <= b <= 102
  }

  lemma AdmissibleExactly(path: bytes, e: Entry)
    ensures Admissible(path, e) <==> SafePath(path).Some? && ValidEntry(e)
  {
    SafePathExactly(path);
  }

  // ---- The nested directory ----

  datatype Node = File(mode: bytes, blob: bytes) | Dir(children: map<Name, Node>)

  datatype TreeError = InvalidPath | FileDirectoryCollision | DuplicateEntry | UnsupportedEntry

  /** Walk to the last component, creating directories, and put the leaf there. */
  function Insert(node: Node, parts: seq<Name>, leaf: Node): (r: Result<Node, TreeError>)
    requires node.Dir? && |parts| > 0
    ensures r.Ok? ==> r.value.Dir?
    decreases |parts|
  {
    var name := parts[0];
    if |parts| == 1 then
      if name in node.children then Err(DuplicateEntry) else Ok(Dir(node.children[name := leaf]))
    else
      var child := if name in node.children then node.children[name] else Dir(map[]);
      if child.File? then Err(FileDirectoryCollision)
      else
        match Insert(child, parts[1..], leaf)
        case Err(e) => Err(e)
        case Ok(t) => Ok(Dir(node.children[name := t]))
  }

  function AddEntry(node: Node, path: bytes, e: Entry): (r: Result<Node, TreeError>)
    requires node.Dir?
    ensures r.Ok? ==> r.value.Dir?
  {
    match SafePath(path)
    case None => Err(InvalidPath)
    case Some(parts) =>
      match Insert(node, parts, File(e.mode, e.blob))
      case Err(error) => Err(error)
      case Ok(t) => if ValidEntry(e) then Ok(t) else Err(UnsupportedEntry)
  }

  function Build(entries: Catalog): (r: Result<Node, TreeError>)
    ensures r.Ok? ==> r.value.Dir?
  {
    if entries == [] then Ok(Dir(map[]))
    else
      var last := |entries| - 1;
      match Build(entries[..last])
      case Err(e) => Err(e)
      case Ok(t) => AddEntry(t, entries[last].0, entries[last].1)
  }

  /** Flattening: the file found by following the components. */
  function Lookup(node: Node, parts: seq<Name>): Option<Node> {
    if parts == [] then (if node.File? then Some(node) else None)
    else if node.File? || parts[0] !in node.children then None
    else Lookup(node.children[parts[0]], parts[1..])
  }

  /** No directory below the root is empty. */
  ghost predicate Populated(node: Node) {
    node.Dir? ==> node.children != map[] && forall n :: n in node.children ==> Populated(node.children[n])
  }

  ghost predicate RootPopulated(node: Node) {
    node.Dir? && forall n :: n in node.children ==> Populated(node.children[n])
  }

  lemma {:induction false} SomeFile(node: Node) returns (parts: seq<Name>)
    requires Populated(node)
    ensures Lookup(node, parts).Some?
  {
    if node.File? {
      parts := [];
    } else {
      var n :| n in node.children;
      var rest := SomeFile(node.children[n]);
      parts := [n] + rest;
      assert parts[1..] == rest;
    }
  }

  predicate Conflict(a: seq<Name>, b: seq<Name>) { a <= b || b <= a }

  lemma LookupUnder(node: Node, name: Name, q: seq<Name>)
    requires node.Dir?
    ensures Lookup(node, [name] + q) == if name in node.children then Lookup(node.children[name], q) else None
  {
    assert ([name] + q)[1..] == q;
  }

  /** Putting a leaf succeeds exactly when its path conflicts with no present file, and
      then changes what is found at that path only. */
  lemma {:induction false} InsertExactly(node: Node, parts: seq<Name>, leaf: Node)
    requires RootPopulated(node) && |parts| > 0 && leaf.File?
    ensures Insert(node, parts, leaf).Ok? <==> forall q :: Lookup(node, q).Some? ==> !Conflict(q, parts)
    ensures Insert(node, parts, leaf).Ok? ==>
      var t := Insert(node, parts, leaf).value;
      && RootPopulated(t) && t.children != map[]
      && forall q :: Lookup(t, q) == if q == parts then Some(leaf) else Lookup(node, q)
    decreases |parts|
  {
    var name, rest, r := parts[0], parts[1..], Insert(node, parts, leaf);
    assert parts == [name] + rest;
    if name in node.children && (|parts| == 1 || node.children[name].File?) {
      var q := SomeFile(node.children[name]);
      LookupUnder(node, name, q);
      assert Conflict([name] + q, parts) by {
        if |parts| == 1 { assert parts <= [name] + q; } else { assert q == []; }
      }
    } else if |parts| == 1 {
      assert name in r.value.children;
      forall q | Lookup(node, q).Some? ensures !Conflict(q, parts) {
        assert q != [] && q[0] != name;
      }
      forall q ensures Lookup(r.value, q) == if q == parts then Some(leaf) else Lookup(node, q) {
        if q != [] && q[0] == name { assert q == [name] + q[1..]; }
      }
    } else {
      var child := if name in node.children then node.children[name] else Dir(map[]);
      InsertExactly(child, rest, leaf);
      ConflictBelow(node, name, rest, child);
      if r.Ok? {
        var grown := Insert(child, rest, leaf).value;
        assert r.value == Dir(node.children[name := grown]) && Populated(grown);
        assert name in r.value.children;
        LookupBelow(node, name, rest, leaf, child, grown);
        forall q ensures Lookup(r.value, q) == if q == parts then Some(leaf) else Lookup(node, q) {
          assert q == [name] + rest <==> q == parts;
        }
      }
    }
  }

  lemma ConflictBelow(node: Node, name: Name, rest: seq<Name>, child: Node)
    requires node.Dir? && child.Dir? && rest != []
    requires child == if name in node.children then node.children[name] else Dir(map[])
    ensures (forall q :: Lookup(node, q).Some? ==> !Conflict(q, [name] + rest))
       <==> (forall q :: Lookup(child, q).Some? ==> !Conflict(q, rest))
  {
    if forall q :: Lookup(node, q).Some? ==> !Conflict(q, [name] + rest) {
      forall q | Lookup(child, q).Some? ensures !Conflict(q, rest) {
        LookupUnder(node, name, q);
        assert !Conflict([name] + q, [name] + rest);
        assert q <= rest ==> [name] + q <= [name] + rest;
        assert rest <= q ==> [name] + rest <= [name] + q;
      }
    }
    if forall q :: Lookup(child, q).Some? ==> !Conflict(q, rest) {
      forall q | Lookup(node, q).Some? ensures !Conflict(q, [name] + rest) {
        assert q != [];
        if q[0] == name {
          assert q == [name] + q[1..] && !Conflict(q[1..], rest);
          assert ([name] + rest)[1..] == rest;
        }
      }
    }
  }

  lemma LookupElsewhere(node: Node, name: Name, grown: Node, q: seq<Name>)
    requires node.Dir? && (q == [] || q[0] != name)
    ensures Lookup(Dir(node.children[name := grown]), q) == Lookup(node, q)
  {
  }

  lemma LookupInside(node: Node, name: Name, child: Node, grown: Node, p: seq<Name>, expected: Option<Node>)
    requires node.Dir? && child == if name in node.children then node.children[name] else Dir(map[])
    requires Lookup(grown, p) == expected
    ensures Lookup(Dir(node.children[name := grown]), [name] + p) == expected
    ensures child.Dir? ==> Lookup(node, [name] + p) == Lookup(child, p)
  {
    LookupUnder(Dir(node.children[name := grown]), name, p);
    LookupUnder(node, name, p);
  }

  lemma LookupBelow(node: Node, name: Name, rest: seq<Name>, leaf: Node, child: Node, grown: Node)
    requires node.Dir? && child.Dir? && grown.Dir?
    requires child == if name in node.children then node.children[name] else Dir(map[])
    requires forall q :: Lookup(grown, q) == if q == rest then Some(leaf) else Lookup(child, q)
    ensures forall q :: Lookup(Dir(node.children[name := grown]), q)
                     == if q == [name] + rest then Some(leaf) else Lookup(node, q)
  {
    var t := Dir(node.children[name := grown]);
    forall q ensures Lookup(t, q) == if q == [name] + rest then Some(leaf) else Lookup(node, q) {
      if q == [] || q[0] != name {
        LookupElsewhere(node, name, grown, q);
      } else {
        assert q == [name] + q[1..] && (q == [name] + rest <==> q[1..] == rest);
        LookupInside(node, name, child, grown, q[1..], if q[1..] == rest then Some(leaf) else Lookup(child, q[1..]));
      }
    }
  }

  // ---- Acceptance and flattening of a whole catalogue ----

  function PartsOf(path: bytes): seq<Name> { Split(path, SLASH) }

  function FileOf(e: Entry): Node { File(e.mode, e.blob) }

  /** Every path and entry is valid, and no path is a component prefix of another one. */
  ghost predicate Acceptable(entries: Catalog) {
    && (forall x :: x in entries ==> Admissible(x.0, x.1))
    && (forall i, j :: 0 <= i < j < |entries| ==> !Conflict(PartsOf(entries[i].0), PartsOf(entries[j].0)))
  }

  ghost predicate Flattens(t: Node, entries: Catalog) {
    && RootPopulated(t)
    && (forall x :: x in entries ==> Lookup(t, PartsOf(x.0)) == Some(FileOf(x.1)))
    && (forall q :: Lookup(t, q).Some? ==> exists x :: x in entries && PartsOf(x.0) == q)
  }

  /** `_tree_hash` accepts exactly the acceptable catalogues, and flattening the tree it
      built gives back every path with its mode and blob, and nothing else. */
  lemma {:induction false} BuildExactly(entries: Catalog)
    ensures Build(entries).Ok? <==> Acceptable(entries)
    ensures Build(entries).Ok? ==> Flattens(Build(entries).value, entries)
  {
    if entries != [] {
      var last := |entries| - 1;
      var init := entries[..last];
      var (path, e) := entries[last];
      assert entries == init + [(path, e)];
      BuildExactly(init);
      SafePathExactly(path);
      AdmissibleExactly(path, e);
      AcceptableExtends(init, path, e);
      if Build(init).Ok? && SafePath(path).Some? {
        InsertExactly(Build(init).value, PartsOf(path), FileOf(e));
        FlattenedConflicts(Build(init).value, init, PartsOf(path));
        if Build(entries).Ok? {
          FlattensExtends(Build(init).value, Build(entries).value, init, path, e);
        }
      }
    }
  }

  lemma AcceptableExtends(init: Catalog, path: bytes, e: Entry)
    ensures Acceptable(init + [(path, e)]) <==>
      && Acceptable(init) && Admissible(path, e)
      && forall x :: x in init ==> !Conflict(PartsOf(x.0), PartsOf(path))
  {
    var all := init + [(path, e)];
    assert all[|init|] == (path, e) && (forall i :: 0 <= i < |init| ==> all[i] == init[i]);
    if Acceptable(all) {
      forall x | x in init ensures x in all && !Conflict(PartsOf(x.0), PartsOf(path)) {
        var i :| 0 <= i < |init| && init[i] == x;
        assert all[i] == x;
      }
      assert all[|init|] in all;
    }
  }

  lemma FlattenedConflicts(t: Node, init: Catalog, parts: seq<Name>)
    requires Flattens(t, init)
    ensures (forall q :: Lookup(t, q).Some? ==> !Conflict(q, parts))
       <==> (forall x :: x in init ==> !Conflict(PartsOf(x.0), parts))
  {
    if forall q :: Lookup(t, q).Some? ==> !Conflict(q, parts) {
      forall x | x in init ensures !Conflict(PartsOf(x.0), parts) {
        assert Lookup(t, PartsOf(x.0)).Some?;
      }
    }
  }

  lemma FlattensExtends(t: Node, grown: Node, init: Catalog, path: bytes, e: Entry)
    requires Flattens(t, init) && RootPopulated(grown)
    requires forall q :: Lookup(grown, q) == if q == PartsOf(path) then Some(FileOf(e)) else Lookup(t, q)
    requires forall x :: x in init ==> !Conflict(PartsOf(x.0), PartsOf(path))
    ensures Flattens(grown, init + [(path, e)])
  {
    var all := init + [(path, e)];
    assert all[|init|] in all;
    forall q | Lookup(grown, q).Some? ensures exists x :: x in all && PartsOf(x.0) == q {
      if q == PartsOf(path) {
        assert (path, e) in all;
      } else {
        var x :| x in init && PartsOf(x.0) == q;
        assert x in all;
      }
    }
  }

  // ---- A tree is determined by what it flattens to ----

  lemma {:induction false} SameLookupSameTree(s: Node, t: Node)
    requires RootPopulated(s) && RootPopulated(t)
    requires forall q :: Lookup(s, q) == Lookup(t, q)
    ensures s == t
    decreases s
  {
    forall n | n in s.children || n in t.children
      ensures n in s.children && n in t.children && s.children[n] == t.children[n]
    {
      if n in s.children { SameChild(s, t, n); } else { SameChild(t, s, n); }
      assert n in s.children && n in t.children;
      forall q ensures Lookup(s.children[n], q) == Lookup(t.children[n], q) {
        LookupUnder(s, n, q);
        LookupUnder(t, n, q);
      }
      if s.children[n].File? {
        assert Lookup(s.children[n], []) == Lookup(t.children[n], []);
      } else {
        assert Lookup(s.children[n], []) == None && t.children[n].Dir?;
        SameLookupSameTree(s.children[n], t.children[n]);
      }
    }
    assert s.children == t.children;
  }

  lemma SameChild(s: Node, t: Node, n: Name)
    requires RootPopulated(s) && t.Dir? && n in s.children
    requires forall q :: Lookup(s, q) == Lookup(t, q)
    ensures n in t.children
  {
    var q := SomeFile(s.children[n]);
    LookupUnder(s, n, q);
    LookupUnder(t, n, q);
  }

  /** Insertion order does not matter: any two orders of the same items are accepted
      together and build the same tree. */
  lemma OrderIsIrrelevant(a: Catalog, b: Catalog)
    requires multiset(a) == multiset(b)
    ensures Acceptable(a) <==> Acceptable(b)
    ensures Build(a).Ok? <==> Build(b).Ok?
    ensures Build(a).Ok? ==> Build(a) == Build(b)
  {
    BuildExactly(a);
    BuildExactly(b);
    if Acceptable(a) { AcceptableReordered(a, b); }
    if Acceptable(b) { AcceptableReordered(b, a); }
    if Build(a).Ok? {
      SameItemsSameTree(Build(a).value, Build(b).value, a, b);
    }
  }

  lemma SameItemsSameTree(s: Node, t: Node, a: Catalog, b: Catalog)
    requires Flattens(s, a) && Flattens(t, b) && multiset(a) == multiset(b)
    ensures s == t
  {
    forall q ensures Lookup(s, q) == Lookup(t, q) {
      if Lookup(s, q).Some? {
        var x :| x in a && PartsOf(x.0) == q;
        assert x in multiset(a) && x in multiset(b);
      } else if Lookup(t, q).Some? {
        var x :| x in b && PartsOf(x.0) == q;
        assert x in multiset(b) && x in multiset(a);
      }
    }
    SameLookupSameTree(s, t);
  }

  lemma AcceptableReordered(a: Catalog, b: Catalog)
    requires multiset(a) == multiset(b) && Acceptable(a)
    ensures Acceptable(b)
  {
    forall x | x in b ensures x in a { assert x in multiset(b) && x in multiset(a); }
    forall i, j | 0 <= i < j < |b| ensures !Conflict(PartsOf(b[i].0), PartsOf(b[j].0)) {
      var k, l := TwoPlaces(a, b, i, j);
      assert if k < l then !Conflict(PartsOf(a[k].0), PartsOf(a[l].0)) else !Conflict(PartsOf(a[l].0), PartsOf(a[k].0));
    }
  }
}
