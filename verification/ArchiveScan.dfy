/** The TAR scan: every member named, typed, counted, read in full and kept, or the whole
    archive refused. */
module ArchiveScan {
  import opened Prelude
  import opened ArchivePaths
  import opened BoundedReads

  datatype Kind = RegularFile | DirectoryMember | Link | SparseFile | SpecialMember

  /** What the archive library yields for one member: its header, and the bytes its stream
      would return, in however short reads. */
  datatype TarMember = TarMember(name: string, kind: Kind, size: int, content: bytes, short: (nat, nat) -> nat)

  datatype Policy = Policy(bounds: Bounds, path: string -> bool, payload: (string, bytes) -> bool, fold: Folding)

  function NameOf(m: TarMember): Member { Member(m.name, m.kind == DirectoryMember) }

  function Names(ms: seq<TarMember>): seq<Member> {
    seq(|ms|, i requires 0 <= i < |ms| => NameOf(ms[i]))
  }

  function PathOf(m: TarMember, policy: Policy): string {
    match NormalPath(m.name, m.kind == DirectoryMember, policy.bounds)
    case None => m.name
    case Some(path) => path
  }

  predicate KindAllowed(m: TarMember) { m.kind == RegularFile || m.kind == DirectoryMember }

  /** A regular member holds exactly the declared bytes, not too many, and clean ones. */
  predicate FileAllowed(m: TarMember, policy: Policy) {
    m.kind == RegularFile ==>
      |m.content| == m.size <= policy.bounds.maxMemberBytes && policy.payload(PathOf(m, policy), m.content)
  }

  function TotalSize(ms: seq<TarMember>): int {
    if ms == [] then 0
    else TotalSize(ms[..|ms| - 1]) + if ms[|ms| - 1].kind == RegularFile then |ms[|ms| - 1].content| else 0
  }

  ghost predicate ScanAccepts(ms: seq<TarMember>, policy: Policy) {
    && |ms| <= policy.bounds.maxMembers
    && ConflictFree(Names(ms), policy.bounds, policy.path, policy.fold)
    && (forall m :: m in ms ==> (m.kind == RegularFile || m.kind == DirectoryMember) && FileAllowed(m, policy))
    && TotalSize(ms) <= policy.bounds.maxTotalBytes
  }

  /** The payloads are the contents of the regular members, each under its own path. */
  ghost predicate Kept(ms: seq<TarMember>, policy: Policy, payloads: map<string, bytes>) {
    && (forall m :: m in ms && m.kind == RegularFile ==>
         PathOf(m, policy) in payloads && payloads[PathOf(m, policy)] == m.content)
    && (forall p :: p in payloads ==> exists m :: m in ms && m.kind == RegularFile && PathOf(m, policy) == p)
  }

  lemma {:induction false} TotalGrows(ms: seq<TarMember>, i: nat)
    requires i <= |ms|
    ensures TotalSize(ms[..i]) <= TotalSize(ms)
  {
    if i < |ms| {
      TotalGrows(ms[..|ms| - 1], i);
      assert ms[..|ms| - 1][..i] == ms[..i];
    } else {
      assert ms[..i] == ms;
    }
  }

  lemma PrefixAccepted(ms: seq<TarMember>, i: nat, policy: Policy)
    requires i <= |ms| && ScanAccepts(ms, policy)
    ensures ScanAccepts(ms[..i], policy)
  {
    TotalGrows(ms, i);
    PrefixConflictFree(Names(ms), i, policy.bounds, policy.path, policy.fold);
    assert Names(ms[..i]) == Names(ms)[..i];
  }

  /** What the registry decides about the next member. */
  ghost predicate NameFits(ms: seq<TarMember>, m: TarMember, policy: Policy) {
    && Admissible(NameOf(m), policy.bounds, policy.path)
    && forall e :: e in EntriesOf(Names(ms), policy.bounds, policy.fold) ==>
         !Conflict(e, EntryOf(NameOf(m), policy.bounds, policy.fold))
  }

  lemma OneMoreScanned(ms: seq<TarMember>, m: TarMember, policy: Policy)
    requires ScanAccepts(ms, policy)
    ensures ScanAccepts(ms + [m], policy) <==>
      && |ms| < policy.bounds.maxMembers && NameFits(ms, m, policy) && KindAllowed(m) && FileAllowed(m, policy)
      && TotalSize(ms + [m]) <= policy.bounds.maxTotalBytes
    ensures TotalSize(ms + [m]) == TotalSize(ms) + if m.kind == RegularFile then |m.content| else 0
  {
    hide NormalPath, ConflictFree, Conflict, EntryOf, EntriesOf, Admissible;
    var all := ms + [m];
    assert all[..|ms|] == ms && Names(all) == Names(ms) + [NameOf(m)];
    assert forall x :: x in all <==> x in ms || x == m;
    OneMoreMember(Names(ms), NameOf(m), policy.bounds, policy.path, policy.fold);
  }

  lemma NewPath(ms: seq<TarMember>, m: TarMember, x: TarMember, policy: Policy)
    requires NameFits(ms, m, policy) && ScanAccepts(ms, policy) && x in ms
    ensures PathOf(x, policy) != PathOf(m, policy)
  {
    var i :| 0 <= i < |ms| && ms[i] == x;
    assert Names(ms)[i] == NameOf(x) && NameOf(x) in Names(ms);
    assert EntryOf(NameOf(x), policy.bounds, policy.fold) in EntriesOf(Names(ms), policy.bounds, policy.fold);
  }

  lemma KeepOneMore(ms: seq<TarMember>, m: TarMember, policy: Policy, payloads: map<string, bytes>)
    requires ScanAccepts(ms, policy) && NameFits(ms, m, policy) && Kept(ms, policy, payloads)
    ensures Kept(ms + [m], policy, if m.kind == RegularFile then payloads[PathOf(m, policy) := m.content] else payloads)
  {
    hide NormalPath, PathOf, ConflictFree, NameFits, ScanAccepts;
    var all := ms + [m];
    var more := if m.kind == RegularFile then payloads[PathOf(m, policy) := m.content] else payloads;
    assert all[|ms|] == m && forall x :: x in all <==> x in ms || x == m;
    forall x | x in all && x.kind == RegularFile
      ensures PathOf(x, policy) in more && more[PathOf(x, policy)] == x.content
    {
      if x in ms { NewPath(ms, m, x, policy); }
    }
    forall p | p in more ensures exists x :: x in all && x.kind == RegularFile && PathOf(x, policy) == p {
      if p in payloads {
        var x :| x in ms && x.kind == RegularFile && PathOf(x, policy) == p;
        assert x in all;
      } else {
        assert m in all;
      }
    }
  }

  /** What the registry checks and records for a member, in the terms of the whole scan. */
  lemma RegistryDecides(ms: seq<TarMember>, m: TarMember, policy: Policy)
    ensures var directory := m.kind == DirectoryMember;
      var normal := NormalPath(m.name, directory, policy.bounds);
      NameFits(ms, m, policy) <==>
        && normal.Some? && policy.path(normal.value)
        && forall e :: e in EntriesOf(Names(ms), policy.bounds, policy.fold) ==>
             !Conflict(e, Entry(FoldedParts(normal.value, policy.fold), directory))
    ensures var normal := NormalPath(m.name, m.kind == DirectoryMember, policy.bounds);
      normal.Some? ==>
        && PathOf(m, policy) == normal.value
        && EntryOf(NameOf(m), policy.bounds, policy.fold)
           == Entry(FoldedParts(normal.value, policy.fold), m.kind == DirectoryMember)
  {
  }

  lemma EmptyScan(policy: Policy)
    ensures ScanAccepts([], policy) && Kept([], policy, map[]) && TotalSize([]) == 0
    ensures EntriesOf(Names([]), policy.bounds, policy.fold) == {}
  {
  }

  /** The scan accepts exactly the archives within every bound whose members are pairwise
      apart and hold what their headers declare, and it keeps each file's bytes. */
  method ScanTar(ms: seq<TarMember>, policy: Policy) returns (r: Option<map<string, bytes>>)
    requires KeepsComponents(policy.fold)
    ensures r.Some? <==> ScanAccepts(ms, policy)
    ensures r.Some? ==> Kept(ms, policy, r.value)
  {
    hide NormalPath, ConflictFree, Conflict, EntryOf, EntriesOf, Kept, NameFits, PathOf;
    EmptyScan(policy);
    assert ms[..0] == [];
    var registry := new PathRegistry(policy.bounds, policy.path, policy.fold);
    var total: nat, payloads: map<string, bytes> := 0, map[];
    for i := 0 to |ms|
      invariant registry.Valid() && fresh(registry)
      invariant registry.bounds == policy.bounds && registry.policy == policy.path && registry.fold == policy.fold
      invariant ScanAccepts(ms[..i], policy) && Kept(ms[..i], policy, payloads)
      invariant registry.Entries() == EntriesOf(Names(ms[..i]), policy.bounds, policy.fold)
      invariant total == TotalSize(ms[..i])
    {
      var m := ms[i];
      assert ms[..i + 1] == ms[..i] + [m];
      OneMoreScanned(ms[..i], m, policy);
      RegistryDecides(ms[..i], m, policy);
      OneMoreEntry(Names(ms[..i]), NameOf(m), policy.bounds, policy.fold);
      assert Names(ms[..i + 1]) == Names(ms[..i]) + [NameOf(m)];
      if ScanAccepts(ms, policy) { PrefixAccepted(ms, i + 1, policy); }
      if i + 1 > policy.bounds.maxMembers { return None; }
      var name := registry.Add(m.name, m.kind == DirectoryMember);
      if name.Err? || !KindAllowed(m) { return None; }
      KeepOneMore(ms[..i], m, policy, payloads);
      if m.kind == RegularFile {
        var payload := ReadPayload(m, name.value, total, policy);
        if payload == None { return None; }
        total := total + |payload.value|;
        payloads := payloads[name.value := payload.value];
      }
    }
    assert ms[..|ms|] == ms;
    return Some(payloads);
  }

  /** Size accounting, the exact read and the payload policy for one regular member. */
  method ReadPayload(m: TarMember, path: string, total: nat, policy: Policy) returns (r: Option<bytes>)
    ensures r.Some? <==> (|m.content| == m.size <= policy.bounds.maxMemberBytes
                          && total + |m.content| <= policy.bounds.maxTotalBytes && policy.payload(path, m.content))
    ensures r.Some? ==> r.value == m.content
  {
    var updated := UpdatedTotal(m.size, total, policy.bounds);
    if updated.Err? { return None; }
    var stream := new Stream(m.content, m.short);
    var payload := ReadMember(stream, m.size, policy.bounds);
    if payload.Err? || !policy.payload(path, payload.value) { return None; }
    return Some(payload.value);
  }
}
