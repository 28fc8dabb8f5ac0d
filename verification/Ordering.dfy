/** Sorting finite sets: the byte order of UTF-8 text and SQLite's BINARY collation, and the
    one ascending listing of a set. */
module Ordering {
  import opened Prelude

  // ---- Byte order ----

  predicate LexLe(a: bytes, b: bytes) {
    a == [] || (b != [] && (a[0] < b[0] || (a[0] == b[0] && LexLe(a[1..], b[1..]))))
  }

  lemma {:induction false} LexTotal(a: bytes, b: bytes)
    ensures LexLe(a, b) || LexLe(b, a)
    ensures LexLe(a, b) && LexLe(b, a) ==> a == b
  {
    if a != [] && b != [] && a[0] == b[0] {
      LexTotal(a[1..], b[1..]);
      assert a == [a[0]] + a[1..] && b == [b[0]] + b[1..];
    }
  }

  lemma {:induction false} LexTransitive(a: bytes, b: bytes, c: bytes)
    requires LexLe(a, b) && LexLe(b, c)
    ensures LexLe(a, c)
  {
    if a != [] && a[0] == b[0] == c[0] { LexTransitive(a[1..], b[1..], c[1..]); }
  }

  /** The order, said without recursion: a prefix comes first, and otherwise the smaller byte
      at the first place where the two differ decides. */
  ghost predicate Precedes(a: bytes, b: bytes) {
    a <= b || exists k: nat :: DecidedAt(a, b, k)
  }

  /** The two agree up to the place and the first has the smaller byte there. */
  ghost predicate DecidedAt(a: bytes, b: bytes, k: nat) {
    k < |a| && k < |b| && a[..k] == b[..k] && a[k] < b[k]
  }

  lemma {:induction false} LexExactly(a: bytes, b: bytes)
    ensures LexLe(a, b) <==> Precedes(a, b)
  {
    if a != [] && b != [] && a[0] == b[0] {
      LexExactly(a[1..], b[1..]);
      DecidedOneLater(a, b);
      assert a == [a[0]] + a[1..] && b == [b[0]] + b[1..];
      assert a <= b <==> a[1..] <= b[1..];
    } else if a != [] && b != [] {
      forall k: nat | DecidedAt(a, b, k) ensures k == 0 { FirstsDiffer(a, b, k); }
      assert DecidedAt(a, b, 0) <==> a[0] < b[0];
    }
  }

  lemma FirstsDiffer(a: bytes, b: bytes, k: nat)
    requires a != [] && b != [] && DecidedAt(a, b, k)
    ensures k == 0 || a[0] == b[0]
  {
    if k > 0 { assert a[0] == a[..k][0] && b[0] == b[..k][0]; }
  }

  lemma DecidedOneLater(a: bytes, b: bytes)
    requires a != [] && b != [] && a[0] == b[0]
    ensures (exists k: nat :: DecidedAt(a, b, k)) <==> exists k: nat :: DecidedAt(a[1..], b[1..], k)
  {
    forall k: nat | DecidedAt(a, b, k) ensures DecidedAt(a[1..], b[1..], k - 1) {
      assert a[1..][..k - 1] == a[..k][1..] && b[1..][..k - 1] == b[..k][1..];
    }
    forall k: nat | DecidedAt(a[1..], b[1..], k) ensures DecidedAt(a, b, k + 1) {
      assert a[..k + 1] == [a[0]] + a[1..][..k] && b[..k + 1] == [b[0]] + b[1..][..k];
    }
  }

  function ByteOrder(): (bytes, bytes) -> bool {
    (a, b) => LexLe(a, b)
  }

  /** `ORDER BY first, second`. */
  function PairOrder(): ((bytes, bytes), (bytes, bytes)) -> bool {
    (x: (bytes, bytes), y: (bytes, bytes)) => if x.0 == y.0 then LexLe(x.1, y.1) else LexLe(x.0, y.0)
  }

  /** Pairs are ordered by their first parts, and under one first part by the second. */
  lemma PairOrderExactly(x: (bytes, bytes), y: (bytes, bytes))
    ensures PairOrder()(x, y) <==>
      (x.0 != y.0 && Precedes(x.0, y.0)) || (x.0 == y.0 && Precedes(x.1, y.1))
  {
    LexExactly(x.0, y.0);
    LexExactly(x.1, y.1);
  }

  // ---- Ascending listings ----

  ghost predicate TotalOrder<T(!new)>(le: (T, T) -> bool) {
    && (forall a, b :: le(a, b) || le(b, a))
    && (forall a, b :: le(a, b) && le(b, a) ==> a == b)
    && (forall a, b, c :: le(a, b) && le(b, c) ==> le(a, c))
  }

  lemma ByteOrderIsTotal()
    ensures TotalOrder(ByteOrder())
  {
    forall a: bytes, b: bytes { LexTotal(a, b); }
    forall a: bytes, b: bytes, c: bytes | LexLe(a, b) && LexLe(b, c) { LexTransitive(a, b, c); }
  }

  lemma PairOrderIsTotal()
    ensures TotalOrder(PairOrder())
  {
    var le := PairOrder();
    forall a: (bytes, bytes), b: (bytes, bytes)
      ensures (le(a, b) || le(b, a)) && (le(a, b) && le(b, a) ==> a == b)
    {
      LexTotal(a.0, b.0);
      LexTotal(a.1, b.1);
    }
    forall a: (bytes, bytes), b: (bytes, bytes), c: (bytes, bytes) | le(a, b) && le(b, c) ensures le(a, c) {
      PairTransitive(a, b, c);
    }
  }

  lemma PairTransitive(a: (bytes, bytes), b: (bytes, bytes), c: (bytes, bytes))
    requires PairOrder()(a, b) && PairOrder()(b, c)
    ensures PairOrder()(a, c)
  {
    if a.0 == b.0 == c.0 {
      LexTransitive(a.1, b.1, c.1);
    } else if LexLe(a.0, b.0) && LexLe(b.0, c.0) {
      LexTransitive(a.0, b.0, c.0);
      LexTotal(a.0, b.0);
    } else {
      LexTotal(a.0, a.0);
    }
  }

  ghost predicate Ascending<T(!new)>(r: seq<T>, le: (T, T) -> bool) {
    forall i, j :: 0 <= i < j < |r| ==> le(r[i], r[j]) && r[i] != r[j]
  }

  predicate Least<T>(x: T, s: set<T>, le: (T, T) -> bool) {
    x in s && forall y :: y in s ==> le(x, y)
  }

  lemma {:induction false} HasLeast<T(!new)>(s: set<T>, le: (T, T) -> bool)
    requires TotalOrder(le) && s != {}
    ensures exists x :: Least(x, s, le)
  {
    var n :| n in s;
    var others := s - {n};
    assert s == others + {n};
    if others == {} {
      assert Least(n, s, le);
    } else {
      HasLeast(others, le);
      var m :| Least(m, others, le);
      assert Least(if le(n, m) then n else m, s, le);
    }
  }

  /** `sorted(s)`: the elements once each, in ascending order. */
  function Sorted<T(!new)>(s: set<T>, le: (T, T) -> bool): (r: seq<T>)
    requires TotalOrder(le)
    ensures forall x :: x in r <==> x in s
    ensures |r| == |s|
    ensures Ascending(r, le)
    decreases |s|
  {
    if s == {} then []
    else
      HasLeast(s, le);
      var x :| Least(x, s, le);
      assert s == (s - {x}) + {x};
      [x] + Sorted(s - {x}, le)
  }

  /** There is one ascending listing of a set, so reading a table in key order determines
      the table. */
  lemma {:induction false} AscendingIsUnique<T(!new)>(a: seq<T>, b: seq<T>, le: (T, T) -> bool)
    requires TotalOrder(le) && Ascending(a, le) && Ascending(b, le)
    requires forall x :: x in a <==> x in b
    ensures a == b
  {
    assert forall i :: 0 <= i < |a| ==> a[i] in b;
    assert forall i :: 0 <= i < |b| ==> b[i] in a;
    if a != [] && b != [] {
      assert a[0] == b[0];
      forall x ensures x in a[1..] <==> x in b[1..] {
        assert a == [a[0]] + a[1..] && b == [b[0]] + b[1..];
        assert x in a <==> x == a[0] || x in a[1..];
        assert x in b <==> x == b[0] || x in b[1..];
        assert x in a[1..] ==> x != a[0];
        assert x in b[1..] ==> x != b[0];
      }
      AscendingIsUnique(a[1..], b[1..], le);
      assert a == [a[0]] + a[1..] && b == [b[0]] + b[1..];
    }
  }
}
