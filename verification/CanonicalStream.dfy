/** What equal logical payloads say about the files of two source distributions, and about the
    member streams rebuilt from them. */
module CanonicalStream {
  import opened Hexadecimal
  import opened Ordering
  import opened PayloadIdentity
  import opened Prelude
  import opened StableSorting

  type Files = map<bytes, bytes>

  function FactsOf(sha: Hash, content: bytes): Facts {
    Facts(|content|, ToHex(sha(content)))
  }

  /** The inspection lists every file once, with its size and hash. */
  ghost predicate Describes(sha: Hash, i: Inspection, files: Files) {
    && (forall m :: m in i.members ==> m.0 in files && m.1 == FactsOf(sha, files[m.0]))
    && (forall p :: p in files ==> (p, FactsOf(sha, files[p])) in i.members)
    && Distinct(i.members)
  }

  /** A validated source distribution: everything below one root component. */
  ghost predicate IsSdist(sha: Hash, i: Inspection, files: Files) {
    i.kind == Sdist && i.root.Some? && Contained(i) && SLASH !in i.root.value && Describes(sha, i, files)
  }

  function Below(root: bytes, relative: bytes): bytes {
    root + [SLASH] + relative
  }

  lemma {:induction false} RenamedHas(i: Inspection, ms: seq<Member>, x: Member)
    requires i.kind == Sdist && forall m :: m in ms ==> !Escapes(i, m.0)
    ensures x in RenamedAll(i, ms) <==> exists m :: m in ms && Renamed(i, m) == [x]
  {
    if ms != [] {
      var init, last := ms[..|ms| - 1], ms[|ms| - 1];
      assert ms == init + [last];
      RenamedHas(i, init, x);
      assert x in RenamedAll(i, ms) <==> x in RenamedAll(i, init) || Renamed(i, last) == [x];
      if x in RenamedAll(i, init) {
        var m :| m in init && Renamed(i, m) == [x];
        assert m in ms;
      }
      if Renamed(i, last) == [x] { assert last in ms; }
    }
  }

  lemma RenamedBelow(i: Inspection, m: Member, relative: bytes)
    requires i.kind == Sdist && !Escapes(i, m.0)
    ensures Renamed(i, m) == [(relative, m.1)] <==> m.0 == Below(i.root.value, relative)
  {
    var n := |i.root.value| + 1;
    assert m.0 == m.0[..n] + m.0[n..] && m.0[..n] == i.root.value + [SLASH];
    assert Below(i.root.value, relative)[n..] == relative;
  }

  /** The logical payload lists exactly the files below the root. */
  lemma LogicalHas(sha: Hash, i: Inspection, files: Files, relative: bytes, f: Facts)
    requires IsSdist(sha, i, files)
    ensures (relative, f) in LogicalMembers(i) <==>
      Below(i.root.value, relative) in files && f == FactsOf(sha, files[Below(i.root.value, relative)])
  {
    var x, path := (relative, f), Below(i.root.value, relative);
    SortKeepsEntries(RenamedAll(i, i.members));
    assert x in LogicalMembers(i) <==> x in multiset(LogicalMembers(i));
    assert x in RenamedAll(i, i.members) <==> x in multiset(RenamedAll(i, i.members));
    RenamedHas(i, i.members, x);
    if x in LogicalMembers(i) {
      var m :| m in i.members && Renamed(i, m) == [x];
      assert m.1 == f;
      RenamedBelow(i, m, relative);
    }
    if path in files && f == FactsOf(sha, files[path]) {
      var m: Member := (path, f);
      assert m in i.members;
      RenamedBelow(i, m, relative);
    }
  }

  ghost predicate SameBelow(i: Inspection, p: Files, j: Inspection, q: Files)
    requires i.root.Some? && j.root.Some?
  {
    forall r :: Below(i.root.value, r) in p || Below(j.root.value, r) in q ==>
      && Below(i.root.value, r) in p && Below(j.root.value, r) in q
      && p[Below(i.root.value, r)] == q[Below(j.root.value, r)]
  }

  /** Equal logical payloads come from equal files below the roots. */
  lemma SameIdentitySameFiles(sha: Hash, i: Inspection, p: Files, j: Inspection, q: Files)
    requires IsSdist(sha, i, p) && IsSdist(sha, j, q) && LogicalMembers(i) == LogicalMembers(j)
    requires CollisionFree(sha, p.Values + q.Values)
    ensures SameBelow(i, p, j, q)
  {
    forall r | Below(i.root.value, r) in p || Below(j.root.value, r) in q
      ensures Below(i.root.value, r) in p && Below(j.root.value, r) in q
      ensures p[Below(i.root.value, r)] == q[Below(j.root.value, r)]
    {
      var x, y := Below(i.root.value, r), Below(j.root.value, r);
      var f := if x in p then FactsOf(sha, p[x]) else FactsOf(sha, q[y]);
      LogicalHas(sha, i, p, r, f);
      LogicalHas(sha, j, q, r, f);
      ToHexInjective(sha(p[x]), sha(q[y]));
      assert p[x] in p.Values && q[y] in q.Values;
    }
  }

  // ---- Wheels ----

  ghost predicate IsWheel(sha: Hash, i: Inspection, files: Files) {
    i.kind == Wheel && Describes(sha, i, files)
  }

  lemma WheelCount(i: Inspection, x: Member)
    requires i.kind == Wheel
    ensures multiset(LogicalMembers(i))[x] == if EndsInRecord(x.0) then 0 else multiset(i.members)[x]
  {
    SortKeepsEntries(RenamedAll(i, i.members));
    RenamedCount(i, i.members, x);
  }

  /** The logical payload of a wheel lists exactly the files other than RECORD. */
  lemma WheelHas(sha: Hash, i: Inspection, files: Files, path: bytes, f: Facts)
    requires IsWheel(sha, i, files)
    ensures (path, f) in LogicalMembers(i) <==>
      !EndsInRecord(path) && path in files && f == FactsOf(sha, files[path])
  {
    hide EndsInRecord, LogicalMembers;
    WheelCount(i, (path, f));
    assert (path, f) in LogicalMembers(i) <==> (path, f) in multiset(LogicalMembers(i));
    assert (path, f) in i.members <==> (path, f) in multiset(i.members);
  }

  ghost predicate SameButRecord(p: Files, q: Files) {
    forall path :: !EndsInRecord(path) && (path in p || path in q) ==> path in p && path in q && p[path] == q[path]
  }

  lemma WheelFunctional(sha: Hash, i: Inspection, files: Files)
    requires IsWheel(sha, i, files)
    ensures Functional(LogicalMembers(i))
  {
    hide EndsInRecord, LogicalMembers;
    forall x, y | x in LogicalMembers(i) && y in LogicalMembers(i) && x.0 == y.0 ensures x.1 == y.1 {
      WheelHas(sha, i, files, x.0, x.1);
      WheelHas(sha, i, files, y.0, y.1);
    }
  }

  /** Two wheels have equal logical payloads exactly when their files are equal apart from RECORD. */
  lemma SameWheelSameFiles(sha: Hash, i: Inspection, p: Files, j: Inspection, q: Files)
    requires IsWheel(sha, i, p) && IsWheel(sha, j, q) && CollisionFree(sha, p.Values + q.Values)
    ensures LogicalMembers(i) == LogicalMembers(j) <==> SameButRecord(p, q)
  {
    hide EndsInRecord, LogicalMembers;
    if LogicalMembers(i) == LogicalMembers(j) {
      forall path | !EndsInRecord(path) && (path in p || path in q)
        ensures path in p && path in q && p[path] == q[path]
      {
        var f := if path in p then FactsOf(sha, p[path]) else FactsOf(sha, q[path]);
        WheelHas(sha, i, p, path, f);
        WheelHas(sha, j, q, path, f);
        ToHexInjective(sha(p[path]), sha(q[path]));
        assert p[path] in p.Values && q[path] in q.Values;
      }
    }
    if SameButRecord(p, q) { SameFilesSameWheel(sha, i, p, j, q); }
  }

  lemma SameFilesSameWheel(sha: Hash, i: Inspection, p: Files, j: Inspection, q: Files)
    requires IsWheel(sha, i, p) && IsWheel(sha, j, q) && SameButRecord(p, q)
    ensures LogicalMembers(i) == LogicalMembers(j)
  {
    forall x ensures multiset(LogicalMembers(i))[x] == multiset(LogicalMembers(j))[x] {
      SameCountInBoth(sha, i, p, j, q, x);
    }
    WheelFunctional(sha, i, p);
    StableSortSorts(RenamedAll(i, i.members));
    StableSortSorts(RenamedAll(j, j.members));
    SortedIsUnique(LogicalMembers(i), LogicalMembers(j));
  }

  lemma SameCountInBoth(sha: Hash, i: Inspection, p: Files, j: Inspection, q: Files, x: Member)
    requires IsWheel(sha, i, p) && IsWheel(sha, j, q) && SameButRecord(p, q)
    ensures multiset(LogicalMembers(i))[x] == multiset(LogicalMembers(j))[x]
  {
    hide EndsInRecord, LogicalMembers;
    WheelCount(i, x);
    WheelCount(j, x);
    OccursOnce(i.members, x);
    OccursOnce(j.members, x);
    assert x == (x.0, x.1);
  }

  // ---- Canonical member streams ----

  /** A member of the canonical archive; mode 0644, owner 0, empty names, no PAX headers. */
  datatype Entry = Entry(path: bytes, content: bytes, mtime: nat)

  /** The files in ascending path order. */
  function MemberStream(files: Files, epoch: nat): (r: seq<Entry>)
    ensures |r| == |files|
  {
    ByteOrderIsTotal();
    var paths := Sorted(files.Keys, ByteOrder());
    seq(|paths|, k requires 0 <= k < |paths| => Entry(paths[k], files[paths[k]], epoch))
  }

  lemma StreamHas(files: Files, epoch: nat, e: Entry)
    ensures e in MemberStream(files, epoch) <==> e.path in files && e.content == files[e.path] && e.mtime == epoch
  {
    ByteOrderIsTotal();
    var paths := Sorted(files.Keys, ByteOrder());
    if e.path in files && e.content == files[e.path] && e.mtime == epoch {
      assert e.path in paths;
      var k :| 0 <= k < |paths| && paths[k] == e.path;
      assert MemberStream(files, epoch)[k] == e;
    }
  }

  /** The members come in the order of the bytes of their paths, each path once. */
  lemma StreamAscends(files: Files, epoch: nat)
    ensures var r := MemberStream(files, epoch);
      forall a, b :: 0 <= a < b < |r| ==> Precedes(r[a].path, r[b].path) && r[a].path != r[b].path
  {
    hide LexLe, Precedes, Sorted;
    ByteOrderIsTotal();
    var paths := Sorted(files.Keys, ByteOrder());
    assert Ascending(paths, ByteOrder());
    forall a, b | 0 <= a < b < |paths| ensures Precedes(paths[a], paths[b]) {
      assert ByteOrder()(paths[a], paths[b]);
      LexExactly(paths[a], paths[b]);
    }
  }

  /** The stream fixes the files. */
  lemma StreamFixesFiles(p: Files, q: Files, epoch: nat)
    requires MemberStream(p, epoch) == MemberStream(q, epoch)
    ensures p == q
  {
    hide *;
    forall path | path in p || path in q ensures path in p && path in q && p[path] == q[path] {
      var e := Entry(path, if path in p then p[path] else q[path], epoch);
      StreamHas(p, epoch, e);
      StreamHas(q, epoch, e);
    }
  }

  /** Every file is below the root. */
  lemma AllBelow(sha: Hash, i: Inspection, files: Files, path: bytes)
    requires IsSdist(sha, i, files) && path in files
    ensures |path| > |i.root.value| && path == Below(i.root.value, path[|i.root.value| + 1..])
  {
    var m: Member := (path, FactsOf(sha, files[path]));
    assert m in i.members && !Escapes(i, m.0);
    var n := |i.root.value| + 1;
    assert path == path[..n] + path[n..];
  }

  lemma SameRootSameFiles(sha: Hash, i: Inspection, p: Files, j: Inspection, q: Files)
    requires IsSdist(sha, i, p) && IsSdist(sha, j, q) && SameBelow(i, p, j, q) && i.root == j.root
    ensures p == q
  {
    forall path | path in p || path in q ensures path in p && path in q && p[path] == q[path] {
      if path in p { AllBelow(sha, i, p, path); } else { AllBelow(sha, j, q, path); }
    }
  }

  /** Two logically equal builds give one ordered member stream exactly when they have the
      same root.  Their metadata agree on the version; the distribution's name before it may
      still be spelled differently. */
  lemma EqualBuildsOneStream(sha: Hash, i: Inspection, p: Files, j: Inspection, q: Files, epoch: nat)
    requires IsSdist(sha, i, p) && IsSdist(sha, j, q) && LogicalMembers(i) == LogicalMembers(j) && p != map[]
    requires CollisionFree(sha, p.Values + q.Values)
    ensures MemberStream(p, epoch) == MemberStream(q, epoch) <==> i.root == j.root
  {
    SameIdentitySameFiles(sha, i, p, j, q);
    if i.root == j.root { SameRootSameFiles(sha, i, p, j, q); }
    if MemberStream(p, epoch) == MemberStream(q, epoch) {
      StreamFixesFiles(p, q, epoch);
      var path :| path in p;
      AllBelow(sha, i, p, path);
      AllBelow(sha, j, q, path);
      TerminatedSplit(i.root.value, j.root.value, path[|i.root.value| + 1..], path[|j.root.value| + 1..], SLASH);
    }
  }

  // ---- The order of the archive does not matter ----

  lemma {:induction false} DistinctRearranged<T>(a: seq<T>, b: seq<T>)
    requires Distinct(a) && Distinct(b) && forall x :: x in a <==> x in b
    ensures multiset(a) == multiset(b)
  {
    forall x ensures multiset(a)[x] == multiset(b)[x] {
      OccursOnce(a, x);
      OccursOnce(b, x);
    }
  }

  lemma {:induction false} OccursOnce<T>(a: seq<T>, x: T)
    requires Distinct(a)
    ensures multiset(a)[x] == if x in a then 1 else 0
  {
    if a != [] {
      assert a == [a[0]] + a[1..];
      OccursOnce(a[1..], x);
      assert a[0] !in a[1..];
    }
  }

  /** Without the root and its slash. */
  function Cut(n: nat): Member -> Member {
    (m: Member) => (m.0[Min(n, |m.0|)..], m.1)
  }

  lemma {:induction false} RenamedIsCut(i: Inspection, a: seq<Member>)
    requires i.kind == Sdist && i.root.Some? && forall m :: m in a ==> !Escapes(i, m.0)
    ensures RenamedAll(i, a) == Map(Cut(|i.root.value| + 1), a)
  {
    if a != [] {
      var init, last := a[..|a| - 1], a[|a| - 1];
      assert a == init + [last];
      RenamedIsCut(i, init);
      assert Renamed(i, last) == [Cut(|i.root.value| + 1)(last)];
    }
  }

  lemma RenamedFacts(sha: Hash, i: Inspection, files: Files, x: Member)
    requires IsSdist(sha, i, files) && x in RenamedAll(i, i.members)
    ensures Below(i.root.value, x.0) in files && x.1 == FactsOf(sha, files[Below(i.root.value, x.0)])
  {
    SortKeepsEntries(RenamedAll(i, i.members));
    assert x in multiset(RenamedAll(i, i.members)) && x in multiset(LogicalMembers(i)) && x == (x.0, x.1);
    LogicalHas(sha, i, files, x.0, x.1);
  }

  lemma RenamedFunctional(sha: Hash, i: Inspection, files: Files)
    requires IsSdist(sha, i, files)
    ensures Functional(RenamedAll(i, i.members))
  {
    forall x, y | x in RenamedAll(i, i.members) && y in RenamedAll(i, i.members) && x.0 == y.0 ensures x.1 == y.1 {
      RenamedFacts(sha, i, files, x);
      RenamedFacts(sha, i, files, y);
    }
  }

  /** Two archives of the same files under the same root, in whatever member order, have the
      same logical payload. */
  lemma SameFilesSameIdentity(sha: Hash, i: Inspection, j: Inspection, files: Files)
    requires IsSdist(sha, i, files) && IsSdist(sha, j, files) && i.root == j.root
    ensures LogicalMembers(i) == LogicalMembers(j)
  {
    forall m ensures m in i.members <==> m in j.members {
      assert m == (m.0, m.1);
    }
    DistinctRearranged(i.members, j.members);
    RenamedIsCut(i, i.members);
    RenamedIsCut(j, j.members);
    MapMultiset(Cut(|i.root.value| + 1), i.members, j.members);
    RenamedFunctional(sha, i, files);
    SortsAlike(RenamedAll(i, i.members), RenamedAll(j, j.members));
  }
}
