/** Sorting digests by a key that need not be unique, as `list.sort(key=...)`: the listing is
    the same for every starting order exactly when equal keys carry equal digests. */
module StableSorting {
  import opened Prelude
  import opened Ordering

  /** A sort key and what it carries. */
  type Keyed<V> = (bytes, V)

  type Pair = Keyed<bytes>

  function Map<A, B>(f: A -> B, a: seq<A>): (r: seq<B>)
    ensures |r| == |a| && forall i :: 0 <= i < |a| ==> r[i] == f(a[i])
  {
    seq(|a|, i requires 0 <= i < |a| => f(a[i]))
  }

  function Insert<V>(x: Keyed<V>, s: seq<Keyed<V>>): seq<Keyed<V>> {
    if s == [] || LexLe(x.0, s[0].0) then [x] + s else [s[0]] + Insert(x, s[1..])
  }

  function StableSort<V>(s: seq<Keyed<V>>): seq<Keyed<V>> {
    if s == [] then [] else Insert(s[0], StableSort(s[1..]))
  }

  lemma {:induction false} InsertKeepsEntries<V>(x: Keyed<V>, s: seq<Keyed<V>>)
    ensures multiset(Insert(x, s)) == multiset(s) + multiset{x}
  {
    if s != [] && !LexLe(x.0, s[0].0) {
      InsertKeepsEntries(x, s[1..]);
      assert s == [s[0]] + s[1..];
    }
  }

  lemma {:induction false} SortKeepsEntries<V>(s: seq<Keyed<V>>)
    ensures multiset(StableSort(s)) == multiset(s)
  {
    if s != [] {
      SortKeepsEntries(s[1..]);
      InsertKeepsEntries(s[0], StableSort(s[1..]));
      assert s == [s[0]] + s[1..];
    }
  }

  function Digests(s: seq<Pair>): seq<bytes> {
    Map((p: Pair) => p.1, s)
  }

  predicate ByKey<V>(s: seq<Keyed<V>>) {
    forall i, j :: 0 <= i < j < |s| ==> LexLe(s[i].0, s[j].0)
  }

  lemma {:induction false} InsertKeepsOrder<V>(x: Keyed<V>, s: seq<Keyed<V>>)
    requires ByKey(s)
    ensures ByKey(Insert(x, s))
  {
    if s == [] {
    } else if LexLe(x.0, s[0].0) {
      forall j | 0 <= j < |s| ensures LexLe(x.0, s[j].0) {
        if j > 0 { LexTransitive(x.0, s[0].0, s[j].0); }
      }
    } else {
      var rest := Insert(x, s[1..]);
      InsertKeepsOrder(x, s[1..]);
      LexTotal(x.0, s[0].0);
      InsertKeepsEntries(x, s[1..]);
      forall j | 0 <= j < |rest| ensures LexLe(s[0].0, rest[j].0) {
        assert rest[j] in multiset(rest);
        assert rest[j] == x || rest[j] in s[1..];
      }
    }
  }

  lemma {:induction false} StableSortSorts<V>(s: seq<Keyed<V>>)
    ensures ByKey(StableSort(s))
  {
    if s != [] {
      StableSortSorts(s[1..]);
      InsertKeepsOrder(s[0], StableSort(s[1..]));
    }
  }

  /** The entries under one key, in their order. */
  function Under<V(==)>(key: bytes, s: seq<Keyed<V>>): seq<Keyed<V>> {
    if s == [] then [] else (if s[0].0 == key then [s[0]] else []) + Under(key, s[1..])
  }

  lemma UnderCons<V>(key: bytes, x: Keyed<V>, s: seq<Keyed<V>>)
    ensures Under(key, [x] + s) == (if x.0 == key then [x] else []) + Under(key, s)
  {
    assert ([x] + s)[1..] == s;
  }

  lemma {:induction false} InsertGoesFirst<V>(key: bytes, x: Keyed<V>, s: seq<Keyed<V>>)
    ensures Under(key, Insert(x, s)) == (if x.0 == key then [x] else []) + Under(key, s)
  {
    if s == [] || LexLe(x.0, s[0].0) {
      UnderCons(key, x, s);
    } else {
      InsertGoesFirst(key, x, s[1..]);
      UnderCons(key, s[0], Insert(x, s[1..]));
      LexTotal(x.0, x.0);
      assert x.0 != s[0].0;
    }
  }

  /** Entries with equal keys keep their order. */
  lemma {:induction false} StableSortIsStable<V>(key: bytes, s: seq<Keyed<V>>)
    ensures Under(key, StableSort(s)) == Under(key, s)
  {
    if s != [] {
      StableSortIsStable(key, s[1..]);
      InsertGoesFirst(key, s[0], StableSort(s[1..]));
    }
  }

  /** The same entries by ascending keys, those under one key in their old order. */
  ghost predicate Lists<V(!new)>(listing: seq<Keyed<V>>, s: seq<Keyed<V>>) {
    && multiset(listing) == multiset(s)
    && (forall i, j :: 0 <= i < j < |listing| ==> Precedes(listing[i].0, listing[j].0))
    && forall key :: Under(key, listing) == Under(key, s)
  }

  /** Sorting lists the entries stably in the order of the bytes of their keys. */
  lemma SortLists<V(!new)>(s: seq<Keyed<V>>)
    ensures Lists(StableSort(s), s)
  {
    hide StableSort, LexLe, Precedes, Under;
    var r := StableSort(s);
    SortKeepsEntries(s);
    StableSortSorts(s);
    forall i, j | 0 <= i < j < |r| ensures Precedes(r[i].0, r[j].0) { LexExactly(r[i].0, r[j].0); }
    forall key ensures Under(key, r) == Under(key, s) { StableSortIsStable(key, s); }
  }

  // ---- When the starting order does not matter ----

  /** Equal keys carry equal digests. */
  predicate Functional<V(==)>(s: seq<Keyed<V>>) {
    forall p, q :: p in s && q in s && p.0 == q.0 ==> p.1 == q.1
  }

  lemma {:induction false} SortedIsUnique<V>(a: seq<Keyed<V>>, b: seq<Keyed<V>>)
    requires ByKey(a) && ByKey(b) && multiset(a) == multiset(b) && Functional(a)
    ensures a == b
  {
    assert |a| == |multiset(a)| == |multiset(b)| == |b|;
    if a != [] {
      assert a[0] in multiset(b) && b[0] in multiset(a);
      LexTotal(a[0].0, b[0].0);
      LexTotal(a[0].0, a[0].0);
      assert a[0] == b[0];
      assert a == [a[0]] + a[1..] && b == [b[0]] + b[1..];
      assert multiset(a[1..]) == multiset(a) - multiset{a[0]};
      assert multiset(b[1..]) == multiset(b) - multiset{a[0]};
      SortedIsUnique(a[1..], b[1..]);
    }
  }

  function Place<V>(key: bytes, s: seq<Keyed<V>>): (i: nat)
    ensures i <= |s|
  {
    if s == [] || LexLe(key, s[0].0) then 0 else 1 + Place(key, s[1..])
  }

  /** Two entries with the same key, inserted last, stay next to each other in their order. */
  lemma {:induction false} InsertTwice(p: Pair, q: Pair, s: seq<Pair>)
    requires p.0 == q.0
    ensures var i := Place(p.0, s); Insert(p, Insert(q, s)) == s[..i] + [p, q] + s[i..]
  {
    LexTotal(p.0, p.0);
    if s != [] && !LexLe(q.0, s[0].0) {
      var i := Place(p.0, s);
      InsertTwice(p, q, s[1..]);
      assert s[..i] == [s[0]] + s[1..][..i - 1] && s[i..] == s[1..][i - 1..];
      assert Insert(q, s) == [s[0]] + Insert(q, s[1..]);
      assert Insert(q, s)[1..] == Insert(q, s[1..]);
    }
  }

  /** Two entries with the same key and different digests: exchanged in front of the rest,
      they give different listings. */
  lemma ExchangeShows(p: Pair, q: Pair, rest: seq<Pair>)
    requires p.0 == q.0 && p.1 != q.1
    ensures Digests(StableSort([p, q] + rest)) != Digests(StableSort([q, p] + rest))
  {
    var s := StableSort(rest);
    assert ([p, q] + rest)[1..] == [q] + rest && ([q] + rest)[1..] == rest;
    assert ([q, p] + rest)[1..] == [p] + rest && ([p] + rest)[1..] == rest;
    InsertTwice(p, q, s);
    InsertTwice(q, p, s);
    var i := Place(p.0, s);
    assert Digests(Insert(p, Insert(q, s)))[i] == p.1 && Digests(Insert(q, Insert(p, s)))[i] == q.1;
  }

  lemma {:induction false} MapMultiset<A, B>(f: A -> B, a: seq<A>, b: seq<A>)
    requires multiset(a) == multiset(b)
    ensures multiset(Map(f, a)) == multiset(Map(f, b))
  {
    assert |a| == |multiset(a)| == |multiset(b)| == |b|;
    if a != [] {
      var k := SamePlace(b, a, 0);
      RemoveAtMultiset(b, k);
      RemoveAtMultiset(a, 0);
      assert multiset(RemoveAt(b, k)) == multiset(b) - multiset{a[0]};
      assert multiset(RemoveAt(a, 0)) == multiset(a) - multiset{a[0]};
      MapMultiset(f, RemoveAt(a, 0), RemoveAt(b, k));
      MapRemoved(f, a, 0);
      MapRemoved(f, b, k);
    }
  }

  lemma MapRemoved<A, B>(f: A -> B, a: seq<A>, k: nat)
    requires k < |a|
    ensures multiset(Map(f, a)) == multiset(Map(f, RemoveAt(a, k))) + multiset{f(a[k])}
  {
    RemoveAtMultiset(Map(f, a), k);
    assert RemoveAt(Map(f, a), k) == Map(f, RemoveAt(a, k));
  }

  lemma DigestsOfMap<A>(f: A -> Pair, d: A -> bytes, a: seq<A>)
    requires forall x :: x in a ==> f(x).1 == d(x)
    ensures Digests(Map(f, a)) == Map(d, a)
  {
  }

  lemma DigestsOfSorted(s: seq<Pair>)
    ensures multiset(Digests(StableSort(s))) == multiset(Digests(s))
  {
    SortKeepsEntries(s);
    MapMultiset((p: Pair) => p.1, StableSort(s), s);
  }

  lemma FunctionalByEntries<A>(f: A -> Pair, a: seq<A>)
    ensures Functional(Map(f, a)) <==> (forall x, y :: x in a && y in a && f(x).0 == f(y).0 ==> f(x).1 == f(y).1)
  {
    assert forall x :: x in a ==> f(x) in Map(f, a);
    assert forall p :: p in Map(f, a) ==> exists x :: x in a && f(x) == p;
  }

  /** Two maps that agree only on equal elements of the two listings lose nothing. */
  lemma {:induction false} InjectiveMapMultiset<A, B>(f: A -> B, g: A -> B, a: seq<A>, b: seq<A>)
    requires multiset(Map(f, a)) == multiset(Map(g, b))
    requires forall x, y :: x in a && y in b && f(x) == g(y) ==> x == y
    ensures multiset(a) == multiset(b)
  {
    assert |a| == |multiset(Map(f, a))| == |multiset(Map(g, b))| == |b|;
    if a != [] {
      var k := SamePlace(Map(g, b), Map(f, a), 0);
      assert a[0] in a && b[k] in b;
      MapRemoved(f, a, 0);
      MapRemoved(g, b, k);
      assert multiset(Map(f, RemoveAt(a, 0))) == multiset(Map(f, a)) - multiset{f(a[0])};
      assert multiset(Map(g, RemoveAt(b, k))) == multiset(Map(g, b)) - multiset{f(a[0])};
      assert forall x :: x in RemoveAt(a, 0) ==> x in a;
      assert forall x :: x in RemoveAt(b, k) ==> x in b;
      InjectiveMapMultiset(f, g, RemoveAt(a, 0), RemoveAt(b, k));
      RemoveAtMultiset(a, 0);
      RemoveAtMultiset(b, k);
    }
  }

  ghost predicate Rearranged<T>(a: seq<T>, b: seq<T>) {
    multiset(a) == multiset(b)
  }

  /** Whatever order the rows are scanned in, the listing is the same. */
  ghost predicate OrderFree<A(!new)>(f: A -> Pair, rows: seq<A>) {
    forall scan :: Rearranged(scan, rows) ==> Digests(StableSort(Map(f, scan))) == Digests(StableSort(Map(f, rows)))
  }

  lemma ToTheFront<A>(rows: seq<A>, i: nat, j: nat) returns (rest: seq<A>)
    requires i < j < |rows|
    ensures Rearranged([rows[i], rows[j]] + rest, rows) && Rearranged([rows[j], rows[i]] + rest, rows)
  {
    var fewer := RemoveAt(rows, i);
    assert fewer[j - 1] == rows[j];
    rest := RemoveAt(fewer, j - 1);
    RemoveAtMultiset(rows, i);
    RemoveAtMultiset(fewer, j - 1);
    TwoInFront(rows[i], rows[j], rest, fewer, rows);
  }

  lemma TwoInFront<A>(x: A, y: A, rest: seq<A>, fewer: seq<A>, rows: seq<A>)
    requires multiset(fewer) == multiset(rest) + multiset{y} && multiset(rows) == multiset(fewer) + multiset{x}
    ensures Rearranged([x, y] + rest, rows) && Rearranged([y, x] + rest, rows)
  {
  }

  lemma SortsAlike<V>(a: seq<Keyed<V>>, b: seq<Keyed<V>>)
    requires Functional(a) && Rearranged(a, b)
    ensures StableSort(a) == StableSort(b)
  {
    StableSortSorts(a);
    StableSortSorts(b);
    SortKeepsEntries(a);
    SortKeepsEntries(b);
    assert forall p :: p in StableSort(a) <==> p in multiset(StableSort(a));
    SortedIsUnique(StableSort(a), StableSort(b));
  }

  lemma FunctionalIsOrderFree<A>(f: A -> Pair, rows: seq<A>, scan: seq<A>)
    requires Functional(Map(f, rows)) && Rearranged(scan, rows)
    ensures StableSort(Map(f, scan)) == StableSort(Map(f, rows))
  {
    MapMultiset(f, rows, scan);
    SortsAlike(Map(f, rows), Map(f, scan));
  }

  /** Rows that share a key and not a digest betray the order in which they are scanned. */
  lemma OrderShows<A>(f: A -> Pair, rows: seq<A>, i: nat, j: nat) returns (a: seq<A>, b: seq<A>)
    requires i < j < |rows| && f(rows[i]).0 == f(rows[j]).0 && f(rows[i]).1 != f(rows[j]).1
    ensures Rearranged(a, rows) && Rearranged(b, rows)
    ensures Digests(StableSort(Map(f, a))) != Digests(StableSort(Map(f, b)))
  {
    var rest := ToTheFront(rows, i, j);
    var x, y := rows[i], rows[j];
    a, b := [x, y] + rest, [y, x] + rest;
    assert Map(f, a) == [f(x), f(y)] + Map(f, rest);
    assert Map(f, b) == [f(y), f(x)] + Map(f, rest);
    ExchangeShows(f(x), f(y), Map(f, rest));
  }

  lemma Offenders<A>(f: A -> Pair, rows: seq<A>) returns (i: nat, j: nat)
    requires !Functional(Map(f, rows))
    ensures i < j < |rows| && f(rows[i]).0 == f(rows[j]).0 && f(rows[i]).1 != f(rows[j]).1
  {
    var p, q :| p in Map(f, rows) && q in Map(f, rows) && p.0 == q.0 && p.1 != q.1;
    i :| 0 <= i < |rows| && Map(f, rows)[i] == p;
    j :| 0 <= j < |rows| && Map(f, rows)[j] == q;
    if j < i { i, j := j, i; }
  }

  lemma OrderFreeExactly<A(!new)>(f: A -> Pair, rows: seq<A>)
    ensures OrderFree(f, rows) <==> Functional(Map(f, rows))
  {
    if Functional(Map(f, rows)) {
      forall scan | Rearranged(scan, rows)
        ensures Digests(StableSort(Map(f, scan))) == Digests(StableSort(Map(f, rows)))
      {
        FunctionalIsOrderFree(f, rows, scan);
      }
    } else {
      var i, j := Offenders(f, rows);
      var a, b := OrderShows(f, rows, i, j);
    }
  }
}
