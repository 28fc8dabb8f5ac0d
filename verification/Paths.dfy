/** Splitting and joining on a separator, shared by Git paths and archive members. */
module Paths {

  function Split<T(==)>(s: seq<T>, sep: T): (parts: seq<seq<T>>)
    ensures |parts| > 0 && forall p :: p in parts ==> sep !in p
  {
    if s == [] then [[]]
    else
      var rest := Split(s[1..], sep);
      if s[0] == sep then [[]] + rest else [[s[0]] + rest[0]] + rest[1..]
  }

  function Join<T>(parts: seq<seq<T>>, sep: T): seq<T>
    requires |parts| > 0
  {
    if |parts| == 1 then parts[0] else parts[0] + [sep] + Join(parts[1..], sep)
  }

  lemma {:induction false} JoinOfSplit<T>(s: seq<T>, sep: T)
    ensures Join(Split(s, sep), sep) == s
  {
    if s != [] {
      var rest := Split(s[1..], sep);
      JoinOfSplit(s[1..], sep);
      assert s == [s[0]] + s[1..];
      if s[0] == sep {
        assert Split(s, sep)[1..] == rest;
      } else {
        assert Split(s, sep)[1..] == rest[1..];
      }
    }
  }

  lemma {:induction false} SplitFirst<T>(p: seq<T>, s: seq<T>, sep: T)
    requires sep !in p
    ensures Split(p, sep) == [p] && Split(p + [sep] + s, sep) == [p] + Split(s, sep)
  {
    if p == [] {
      assert ([] + [sep] + s)[1..] == s;
    } else {
      SplitFirst(p[1..], s, sep);
      assert p == [p[0]] + p[1..];
      assert (p + [sep] + s)[1..] == p[1..] + [sep] + s;
    }
  }

  lemma {:induction false} SplitOfJoin<T>(parts: seq<seq<T>>, sep: T)
    requires |parts| > 0 && forall p :: p in parts ==> sep !in p
    ensures Split(Join(parts, sep), sep) == parts
  {
    if |parts| == 1 {
      SplitFirst(parts[0], [], sep);
    } else {
      SplitOfJoin(parts[1..], sep);
      SplitFirst(parts[0], Join(parts[1..], sep), sep);
    }
  }

  lemma JoinInjective<T>(a: seq<seq<T>>, b: seq<seq<T>>, sep: T)
    requires |a| > 0 && |b| > 0 && (forall p :: p in a ==> sep !in p) && (forall p :: p in b ==> sep !in p)
    ensures Join(a, sep) == Join(b, sep) <==> a == b
  {
    SplitOfJoin(a, sep);
    SplitOfJoin(b, sep);
  }

  lemma {:induction false} JoinAppend<T>(a: seq<seq<T>>, b: seq<seq<T>>, sep: T)
    requires |a| > 0 && |b| > 0
    ensures Join(a + b, sep) == Join(a, sep) + [sep] + Join(b, sep)
  {
    if |a| == 1 {
      assert (a + b)[1..] == b;
    } else {
      assert (a + b)[1..] == a[1..] + b;
      JoinAppend(a[1..], b, sep);
    }
  }

  /** A joined path extends another one followed by the separator exactly when its
      components properly extend the other's. */
  lemma JoinPrefix<T>(a: seq<seq<T>>, b: seq<seq<T>>, sep: T)
    requires |a| > 0 && |b| > 0 && (forall p :: p in a ==> sep !in p) && (forall p :: p in b ==> sep !in p)
    ensures Join(a, sep) + [sep] <= Join(b, sep) <==> a < b
  {
    var x, y := Join(a, sep), Join(b, sep);
    if a < b {
      assert b == a + b[|a|..];
      JoinAppend(a, b[|a|..], sep);
    }
    if x + [sep] <= y {
      var rest := y[|x| + 1..];
      assert y == x + [sep] + rest;
      JoinOfSplit(rest, sep);
      JoinAppend(a, Split(rest, sep), sep);
      JoinInjective(a + Split(rest, sep), b, sep);
    }
  }

  /** The components that `PurePosixPath` keeps: empty ones and `.` disappear. */
  function PosixParts<T(==)>(components: seq<seq<T>>, dot: seq<T>): seq<seq<T>> {
    if components == [] then []
    else
      var kept := if components[0] == [] || components[0] == dot then [] else [components[0]];
      kept + PosixParts(components[1..], dot)
  }

  lemma {:induction false} PosixPartsAll<T>(components: seq<seq<T>>, dot: seq<T>)
    ensures forall p :: p in PosixParts(components, dot) ==> p in components && p != [] && p != dot
    ensures (forall p :: p in components ==> p != [] && p != dot) ==> PosixParts(components, dot) == components
  {
    if components != [] {
      PosixPartsAll(components[1..], dot);
      assert components == [components[0]] + components[1..];
      assert components[0] in components && forall p :: p in components[1..] ==> p in components;
    }
  }
}
