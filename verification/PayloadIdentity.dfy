/** The container-independent identity of a release artifact, and what its digest determines. */
module PayloadIdentity {
  import opened Hexadecimal
  import opened Ordering
  import opened Prelude
  import opened StableSorting

  type Hash = bytes -> bytes

  /** Size and SHA-256, in hexadecimal, of a file. */
  datatype Facts = Facts(size: nat, sha: bytes)

  type Member = Keyed<Facts>

  datatype Kind = Wheel | Sdist | Other

  datatype Inspection = Inspection(kind: Kind, root: Option<bytes>, members: seq<Member>)

  datatype Logical = Logical(kind: Kind, members: seq<Member>, digest: bytes)

  const SLASH: byte := 47

  /** ".dist-info/RECORD" */
  const RECORD_SUFFIX: bytes := [46, 100, 105, 115, 116, 45, 105, 110, 102, 111, 47, 82, 69, 67, 79, 82, 68]

  predicate StartsWith(path: bytes, prefix: bytes) {
    |prefix| <= |path| && path[..|prefix|] == prefix
  }

  predicate IsRecord(path: bytes) {
    |path| >= |RECORD_SUFFIX| && path[|path| - |RECORD_SUFFIX|..] == RECORD_SUFFIX
  }

  /** A source distribution's member outside the one root. */
  predicate Escapes(i: Inspection, path: bytes) {
    i.kind == Sdist && (i.root == None || !StartsWith(path, i.root.value + [SLASH]))
  }

  predicate Contained(i: Inspection) {
    i.kind != Other && forall m :: m in i.members ==> !Escapes(i, m.0)
  }

  /** A member under its name in the logical payload; a wheel's RECORD has none. */
  function Renamed(i: Inspection, m: Member): seq<Member>
    requires !Escapes(i, m.0)
  {
    match i.kind
    case Sdist => [(m.0[|i.root.value| + 1..], m.1)]
    case _ => if IsRecord(m.0) then [] else [m]
  }

  function RenamedAll(i: Inspection, ms: seq<Member>): seq<Member>
    requires forall m :: m in ms ==> !Escapes(i, m.0)
  {
    if ms == [] then [] else RenamedAll(i, ms[..|ms| - 1]) + Renamed(i, ms[|ms| - 1])
  }

  /** "wheel" or "sdist", and a zero byte. */
  function KindBytes(kind: Kind): bytes {
    if kind == Sdist then [115, 100, 105, 115, 116, 0] else [119, 104, 101, 101, 108, 0]
  }

  predicate HexText(s: bytes) {
    |s| == 64 && forall b :: b in s ==> IsHexDigit(b)
  }

  /** The length of a path, in four bytes. */
  function PathHeader(path: bytes): (b: bytes)
    ensures |b| == 4
  {
    BigEndian(|path|, 4)
  }

  function FactsBytes(f: Facts): (b: bytes)
    requires HexText(f.sha)
    ensures |b| == 40
  {
    BigEndian(f.size, 8) + FromHex(f.sha)
  }

  function MemberBytes(m: Member): bytes
    requires HexText(m.1.sha)
  {
    PathHeader(m.0) + m.0 + FactsBytes(m.1)
  }

  predicate Hashable(ms: seq<Member>) {
    forall m :: m in ms ==> HexText(m.1.sha)
  }

  function MembersBytes(ms: seq<Member>): bytes
    requires Hashable(ms)
  {
    if ms == [] then [] else MemberBytes(ms[0]) + MembersBytes(ms[1..])
  }

  function LogicalMembers(i: Inspection): (r: seq<Member>)
    requires Contained(i)
  {
    StableSort(RenamedAll(i, i.members))
  }

  lemma {:induction false} RenamedHashable(i: Inspection, ms: seq<Member>)
    requires Hashable(ms) && forall m :: m in ms ==> !Escapes(i, m.0)
    ensures Hashable(RenamedAll(i, ms))
  {
    if ms != [] { RenamedHashable(i, ms[..|ms| - 1]); }
  }

  lemma SortedHashable(ms: seq<Member>)
    requires Hashable(ms)
    ensures Hashable(StableSort(ms))
  {
    SortKeepsEntries(ms);
    assert forall m :: m in StableSort(ms) ==> m in multiset(ms);
  }

  /** The loop that drops, renames or refuses members. */
  method RenameMembers(i: Inspection) returns (r: Option<seq<Member>>)
    requires i.kind != Other
    ensures r.Some? <==> Contained(i)
    ensures r.Some? ==> r.value == RenamedAll(i, i.members)
    ensures r.Some? <==> IsArtifact(i)
    ensures r.Some? ==> forall x :: Occurs(i, i.members, r.value, x)
  {
    RenamedExactly(i);
    hide IsArtifact, Occurs, IsRecord, StartsWith;
    var members: seq<Member> := [];
    var all := i.members;
    for k := 0 to |all|
      invariant forall m :: m in all[..k] ==> !Escapes(i, m.0)
      invariant members == RenamedAll(i, all[..k])
    {
      assert all[..k + 1][..k] == all[..k];
      var path := all[k].0;
      if i.kind == Wheel && IsRecord(path) { continue; }
      if i.kind == Sdist {
        if i.root == None || !StartsWith(path, i.root.value + [SLASH]) { return None; }
        path := path[|i.root.value| + 1..];
      }
      members := members + [(path, all[k].1)];
    }
    assert all[..|all|] == all;
    return Some(members);
  }

  lemma {:induction false} MembersBytesSnoc(ms: seq<Member>, m: Member)
    requires Hashable(ms + [m])
    ensures Hashable(ms) && HexText(m.1.sha) && MembersBytes(ms + [m]) == MembersBytes(ms) + MemberBytes(m)
  {
    assert m in ms + [m] && forall x :: x in ms ==> x in ms + [m];
    if ms == [] {
      assert [m][1..] == [];
    } else {
      assert (ms + [m])[1..] == ms[1..] + [m];
      MembersBytesSnoc(ms[1..], m);
      Regroup(MemberBytes(ms[0]), MembersBytes(ms[1..]), MemberBytes(m));
    }
  }

  /** The loop that feeds the digest. */
  method DigestMembers(h: Hash, kind: Kind, ordered: seq<Member>) returns (digest: bytes)
    requires Hashable(ordered)
    ensures digest == h(KindBytes(kind) + MembersBytes(ordered))
  {
    var data := KindBytes(kind);
    assert ordered[..0] == [];
    for k := 0 to |ordered|
      invariant data == KindBytes(kind) + MembersBytes(ordered[..k])
    {
      var m := ordered[k];
      assert ordered[..k + 1] == ordered[..k] + [m];
      MembersBytesSnoc(ordered[..k], m);
      Regroup(KindBytes(kind), MembersBytes(ordered[..k]), MemberBytes(m));
      data := data + (PathHeader(m.0) + m.0 + FactsBytes(m.1));
    }
    assert ordered[..|ordered|] == ordered;
    digest := h(data);
  }

  function LogicalOf(h: Hash, i: Inspection): Logical
    requires Contained(i) && Hashable(LogicalMembers(i))
  {
    Logical(i.kind, LogicalMembers(i), h(KindBytes(i.kind) + MembersBytes(LogicalMembers(i))))
  }

  lemma LogicalHashable(i: Inspection)
    requires Contained(i) && Hashable(i.members)
    ensures Hashable(LogicalMembers(i))
  {
    RenamedHashable(i, i.members);
    SortedHashable(RenamedAll(i, i.members));
  }

  // ---- The same in terms of the archive's own members ----

  /** The path ends in `.dist-info/RECORD`. */
  ghost predicate EndsInRecord(path: bytes) {
    exists stem: bytes ::
      path == stem + [46, 100, 105, 115, 116, 45, 105, 110, 102, 111, 47, 82, 69, 67, 79, 82, 68]
  }

  /** The path is in the directory of this name, under the relative path. */
  ghost predicate IsUnder(path: bytes, root: bytes, relative: bytes) {
    path == root + [47] + relative
  }

  /** A wheel, or a source distribution all of whose members are under its root. */
  ghost predicate IsArtifact(i: Inspection) {
    i.kind == Wheel || (i.kind == Sdist && forall m :: m in i.members ==>
      i.root.Some? && exists relative :: IsUnder(m.0, i.root.value, relative))
  }

  /** How often a member is in the payload: a wheel's as often as in the archive, except RECORD,
      and a source distribution's as often as the file of that name under the root. */
  ghost predicate Occurs(i: Inspection, archive: seq<Member>, members: seq<Member>, x: Member) {
    match i.kind
    case Wheel => multiset(members)[x] == if EndsInRecord(x.0) then 0 else multiset(archive)[x]
    case _ =>
      if i.root == None then multiset(members)[x] == 0
      else multiset(members)[x] == multiset(archive)[(i.root.value + [47] + x.0, x.1)]
  }

  /** The length of the path in four bytes, the path, the size in eight, and the raw hash. */
  ghost function MemberText(m: Member): bytes
    requires HexText(m.1.sha)
  {
    BigEndian(|m.0|, 4) + m.0 + BigEndian(m.1.size, 8) + FromHex(m.1.sha)
  }

  ghost function Texts(ms: seq<Member>): seq<bytes>
    requires Hashable(ms)
  {
    seq(|ms|, k requires 0 <= k < |ms| => MemberText(ms[k]))
  }

  /** The members under their logical names, by name, and the hash of "wheel" or "sdist", a zero
      byte and their texts. */
  ghost predicate IsPayload(h: Hash, i: Inspection, p: Logical) {
    && p.kind == i.kind && (forall x :: Occurs(i, i.members, p.members, x))
    && (forall a, b :: 0 <= a < b < |p.members| ==> Precedes(p.members[a].0, p.members[b].0))
    && Hashable(p.members)
    && var name: bytes := if i.kind == Wheel then [119, 104, 101, 101, 108] else [115, 100, 105, 115, 116];
      p.digest == h(name + [0] + Concat(Texts(p.members)))
  }

  lemma RecordExactly(path: bytes)
    ensures IsRecord(path) <==> EndsInRecord(path)
  {
    if IsRecord(path) { assert path == path[..|path| - |RECORD_SUFFIX|] + RECORD_SUFFIX; }
  }

  lemma EscapesExactly(i: Inspection, path: bytes)
    requires i.kind == Sdist
    ensures !Escapes(i, path) <==> i.root.Some? && exists relative :: IsUnder(path, i.root.value, relative)
  {
    if i.root.Some? {
      var prefix := i.root.value + [SLASH];
      if StartsWith(path, prefix) {
        assert path == prefix + path[|prefix|..];
        assert IsUnder(path, i.root.value, path[|prefix|..]);
      }
    }
  }

  lemma ContainedExactly(i: Inspection)
    ensures Contained(i) <==> IsArtifact(i)
  {
    hide IsUnder, StartsWith;
    if i.kind == Sdist {
      forall m | m in i.members
        ensures !Escapes(i, m.0) <==> i.root.Some? && exists relative :: IsUnder(m.0, i.root.value, relative)
      {
        EscapesExactly(i, m.0);
      }
    }
  }

  lemma {:induction false} RenamedCount(i: Inspection, ms: seq<Member>, x: Member)
    requires i.kind != Other && forall m :: m in ms ==> !Escapes(i, m.0)
    ensures Occurs(i, ms, RenamedAll(i, ms), x)
  {
    hide Occurs, Renamed, Escapes;
    if ms != [] {
      var init, last := ms[..|ms| - 1], ms[|ms| - 1];
      assert ms == init + [last] && last in ms;
      RenamedCount(i, init, x);
      OneMoreRenamed(i, init, last, RenamedAll(i, init), x);
    } else {
      NoneRenamed(i, x);
    }
  }

  lemma RenamedExactly(i: Inspection)
    requires i.kind != Other
    ensures Contained(i) <==> IsArtifact(i)
    ensures Contained(i) ==> forall x :: Occurs(i, i.members, RenamedAll(i, i.members), x)
  {
    ContainedExactly(i);
    if Contained(i) {
      forall x ensures Occurs(i, i.members, RenamedAll(i, i.members), x) { RenamedCount(i, i.members, x); }
    }
  }

  lemma NoneRenamed(i: Inspection, x: Member)
    ensures Occurs(i, [], [], x)
  {
  }

  lemma OneMoreRenamed(i: Inspection, archive: seq<Member>, m: Member, members: seq<Member>, x: Member)
    requires i.kind != Other && !Escapes(i, m.0) && Occurs(i, archive, members, x)
    ensures Occurs(i, archive + [m], members + Renamed(i, m), x)
  {
    if i.kind == Sdist {
      UnderExactly(i, m, x);
    } else {
      hide IsRecord, EndsInRecord;
      RecordExactly(m.0);
    }
  }

  lemma UnderExactly(i: Inspection, m: Member, x: Member)
    requires i.kind == Sdist && !Escapes(i, m.0)
    ensures Renamed(i, m) == [x] <==> m == (i.root.value + [47] + x.0, x.1)
  {
    var n := |i.root.value| + 1;
    assert m.0 == m.0[..n] + m.0[n..] && m.0[..n] == i.root.value + [47];
    assert (i.root.value + [47] + x.0)[n..] == x.0;
  }

  lemma {:induction false} MembersBytesAreTexts(ms: seq<Member>)
    requires Hashable(ms)
    ensures MembersBytes(ms) == Concat(Texts(ms))
  {
    if ms != [] {
      MembersBytesAreTexts(ms[1..]);
      assert Texts(ms)[1..] == Texts(ms[1..]);
      Regroup(PathHeader(ms[0].0) + ms[0].0, BigEndian(ms[0].1.size, 8), FromHex(ms[0].1.sha));
    }
  }

  /** What the payload of an artifact holds, and what its digest is the hash of. */
  lemma LogicalExactly(h: Hash, i: Inspection)
    requires Contained(i) && Hashable(LogicalMembers(i))
    ensures IsPayload(h, i, LogicalOf(h, i))
  {
    hide IsRecord, Escapes, LexLe, Precedes, HexText, MemberText, MembersBytes, RenamedAll, StableSort, Occurs;
    hide Concat, Texts;
    var members := LogicalMembers(i);
    SortKeepsEntries(RenamedAll(i, i.members));
    forall x ensures Occurs(i, i.members, members, x) {
      RenamedCount(i, i.members, x);
      SameCounts(i, RenamedAll(i, i.members), members, x);
    }
    StableSortSorts(RenamedAll(i, i.members));
    forall a, b | 0 <= a < b < |members| ensures Precedes(members[a].0, members[b].0) {
      LexExactly(members[a].0, members[b].0);
    }
    MembersBytesAreTexts(members);
    var name: bytes := if i.kind == Wheel then [119, 104, 101, 101, 108] else [115, 100, 105, 115, 116];
    assert name + [0] == KindBytes(i.kind);
  }

  lemma SameCounts(i: Inspection, a: seq<Member>, b: seq<Member>, x: Member)
    requires multiset(a) == multiset(b)
    ensures Occurs(i, i.members, a, x) <==> Occurs(i, i.members, b, x)
  {
  }

  /** `logical_payload`: refused for other archives and for a member outside the root. */
  method LogicalPayload(h: Hash, i: Inspection) returns (r: Option<Logical>)
    requires Hashable(i.members)
    ensures r.Some? <==> Contained(i)
    ensures r.Some? ==> Hashable(LogicalMembers(i)) && r.value == LogicalOf(h, i)
    ensures r.Some? <==> IsArtifact(i)
    ensures r.Some? ==> IsPayload(h, i, r.value)
  {
    ContainedExactly(i);
    if Contained(i) {
      LogicalHashable(i);
      LogicalExactly(h, i);
    }
    hide IsArtifact, IsPayload;
    if i.kind == Other { return None; }
    var members := RenameMembers(i);
    if members == None { return None; }
    LogicalHashable(i);
    var ordered := StableSort(members.value);
    var digest := DigestMembers(h, i.kind, ordered);
    return Some(Logical(i.kind, ordered, digest));
  }

  // ---- What the digest determines ----

  predicate Framable(ms: seq<Member>) {
    Hashable(ms) && forall m :: m in ms ==> |m.0| < Power256(4) && m.1.size < Power256(8)
  }

  lemma PathHeaderInjective(a: bytes, b: bytes)
    requires |a| < Power256(4) && |b| < Power256(4) && PathHeader(a) == PathHeader(b)
    ensures |a| == |b|
  {
    BigEndianInjective(|a|, |b|, 4);
  }

  lemma FactsBytesInjective(f: Facts, g: Facts)
    requires HexText(f.sha) && HexText(g.sha) && f.size < Power256(8) && g.size < Power256(8)
    requires FactsBytes(f) == FactsBytes(g)
    ensures f == g
  {
    FixedSplit(BigEndian(f.size, 8), BigEndian(g.size, 8), FromHex(f.sha), FromHex(g.sha));
    BigEndianInjective(f.size, g.size, 8);
    ToHexOfFromHex(f.sha);
    ToHexOfFromHex(g.sha);
  }

  lemma MemberSplit(m: Member, n: Member, x: bytes, y: bytes)
    requires Framable([m]) && Framable([n]) && MemberBytes(m) + x == MemberBytes(n) + y
    ensures m == n && x == y
  {
    assert m in [m] && n in [n];
    Regroup(PathHeader(m.0) + m.0, FactsBytes(m.1), x);
    Regroup(PathHeader(n.0) + n.0, FactsBytes(n.1), y);
    Regroup(PathHeader(m.0), m.0, FactsBytes(m.1) + x);
    Regroup(PathHeader(n.0), n.0, FactsBytes(n.1) + y);
    FixedSplit(PathHeader(m.0), PathHeader(n.0), m.0 + (FactsBytes(m.1) + x), n.0 + (FactsBytes(n.1) + y));
    PathHeaderInjective(m.0, n.0);
    FixedSplit(m.0, n.0, FactsBytes(m.1) + x, FactsBytes(n.1) + y);
    FixedSplit(FactsBytes(m.1), FactsBytes(n.1), x, y);
    FactsBytesInjective(m.1, n.1);
  }

  lemma {:induction false} MembersBytesInjective(a: seq<Member>, b: seq<Member>)
    requires Framable(a) && Framable(b) && MembersBytes(a) == MembersBytes(b)
    ensures a == b
  {
    if a != [] && b != [] {
      MemberSplit(a[0], b[0], MembersBytes(a[1..]), MembersBytes(b[1..]));
      MembersBytesInjective(a[1..], b[1..]);
      assert a == [a[0]] + a[1..] && b == [b[0]] + b[1..];
    }
  }

  /** Equal digests come from the same kind of artifact with the same files, facts and names. */
  lemma DigestFixesMembers(h: Hash, i: Inspection, j: Inspection)
    requires Contained(i) && Contained(j) && Framable(LogicalMembers(i)) && Framable(LogicalMembers(j))
    requires CollisionFree(h,
      {KindBytes(i.kind) + MembersBytes(LogicalMembers(i)), KindBytes(j.kind) + MembersBytes(LogicalMembers(j))})
    ensures LogicalOf(h, i).digest == LogicalOf(h, j).digest <==> LogicalOf(h, i) == LogicalOf(h, j)
  {
    var a, b := MembersBytes(LogicalMembers(i)), MembersBytes(LogicalMembers(j));
    if LogicalOf(h, i).digest == LogicalOf(h, j).digest {
      assert KindBytes(i.kind) + a == KindBytes(j.kind) + b;
      FixedSplit(KindBytes(i.kind), KindBytes(j.kind), a, b);
      assert KindBytes(i.kind)[0] == KindBytes(j.kind)[0];
      MembersBytesInjective(LogicalMembers(i), LogicalMembers(j));
    }
  }
}
