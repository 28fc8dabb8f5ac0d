/** Archive member names: what makes one safe, and the registry that keeps every pair of
    members apart whatever the letter case of a file system. */
module ArchivePaths {
  import opened Prelude
  import opened Paths

  /** The limits of an archive inspection; all are positive. */
  datatype Bounds = Bounds(
    maxMembers: nat, maxMemberBytes: nat, maxTotalBytes: nat,
    maxPathLength: nat, maxPathDepth: nat, maxTarStreamBytes: nat)

  // ---- Normal paths ----

  function Upper(c: char): char {
    if 'a' <= c <= 'z' then c - 'a' + 'A' else c
  }

  function UpperAll(s: string): string {
    seq(|s|, i requires 0 <= i < |s| => Upper(s[i]))
  }

  predicate IsReserved(stem: string) {
    || stem in {"CON", "PRN", "AUX", "NUL"}
    || (|stem| == 4 && stem[..3] in {"COM", "LPT"} && '1' <= stem[3] <= '9')
  }

  predicate ValidSegment(s: string) {
    && s != "" && s != "." && s != ".."
    && s[|s| - 1] != ' ' && s[|s| - 1] != '.'
    && (forall c :: c in s ==> c >= ' ')
    && !IsReserved(UpperAll(Split(s, '.')[0]))
    && ':' !in s
  }

  function NormalPath(raw: string, directory: bool, bounds: Bounds): (r: Option<string>)
    ensures r.Some? ==> r.value != "" && (raw == r.value || raw == r.value + "/")
  {
    if raw == "" || '\0' in raw || '\\' in raw || |raw| > bounds.maxPathLength || raw[0] == '/' then None
    else
      var last := |raw| - 1;
      var normalized := if directory && raw[last] == '/' then raw[..last] else raw;
      var parts := Split(normalized, '/');
      if normalized == "" || normalized[|normalized| - 1] == '/' || |parts| > bounds.maxPathDepth
        || (exists p :: p in parts && !ValidSegment(p))
        || PosixParts(parts, ".") == [] || Join(PosixParts(parts, "."), '/') != normalized
      then None
      else
        assert raw[last] == '/' ==> raw == raw[..last] + "/";
        Some(normalized)
  }

  // ---- The same rules in literal names and characters ----

  /** Equal but for the case of ASCII letters; the name is in capitals and digits. */
  ghost predicate SpellsName(s: string, name: string) {
    |s| == |name| && forall i :: 0 <= i < |s| ==>
      s[i] == name[i] || ('A' <= name[i] <= 'Z' && s[i] as int == name[i] as int + 32)
  }

  /** CON, PRN, AUX, NUL, or COM or LPT and a digit from 1 to 9, in any letter case. */
  ghost predicate IsDevice(s: string) {
    || SpellsName(s, "CON") || SpellsName(s, "PRN") || SpellsName(s, "AUX") || SpellsName(s, "NUL")
    || (|s| == 4 && (SpellsName(s[..3], "COM") || SpellsName(s[..3], "LPT")) && '1' <= s[3] <= '9')
  }

  /** The segment is the stem, or the stem before its first dot. */
  ghost predicate HasStem(s: string, stem: string) {
    '.' !in stem && (s == stem || stem + "." <= s)
  }

  /** A name that is safe on every file system: not empty, no dot alone, no dot or space at the
      end, no control character and no colon, and not a device's name before its first dot. */
  ghost predicate IsPortable(s: string) {
    && s != "" && s != "." && s != ".." && s[|s| - 1] != '.' && s[|s| - 1] != ' '
    && (forall c :: c in s ==> c as int >= 32 && c != ':')
    && forall stem :: HasStem(s, stem) ==> !IsDevice(stem)
  }

  lemma UpperSpells(s: string, name: string)
    requires forall c :: c in name ==> 'A' <= c <= 'Z' || '0' <= c <= '9'
    ensures UpperAll(s) == name <==> SpellsName(s, name)
  {
    if SpellsName(s, name) {
      assert forall i :: 0 <= i < |s| ==> name[i] in name;
      assert forall i :: 0 <= i < |s| ==> UpperAll(s)[i] == name[i];
    }
    if UpperAll(s) == name {
      forall i | 0 <= i < |s|
        ensures s[i] == name[i] || ('A' <= name[i] <= 'Z' && s[i] as int == name[i] as int + 32)
      {
        assert name[i] == UpperAll(s)[i] == Upper(s[i]);
      }
    }
  }

  lemma NamesSpell(s: string)
    ensures forall name :: name in {"CON", "PRN", "AUX", "NUL", "COM", "LPT"} ==>
      (UpperAll(s) == name <==> SpellsName(s, name))
  {
    UpperSpells(s, "CON");
    UpperSpells(s, "PRN");
    UpperSpells(s, "AUX");
    UpperSpells(s, "NUL");
    UpperSpells(s, "COM");
    UpperSpells(s, "LPT");
  }

  lemma ReservedExactly(s: string)
    ensures IsReserved(UpperAll(s)) <==> IsDevice(s)
  {
    hide SpellsName;
    NamesSpell(s);
    if |s| == 4 {
      NamesSpell(s[..3]);
      assert UpperAll(s)[..3] == UpperAll(s[..3]) && UpperAll(s)[3] == Upper(s[3]);
    }
  }

  lemma StemExactly(s: string, stem: string)
    ensures Split(s, '.')[0] == stem <==> HasStem(s, stem)
  {
    var parts := Split(s, '.');
    JoinOfSplit(s, '.');
    assert parts[0] in parts;
    if '.' !in stem {
      SplitFirst(stem, if stem + "." <= s then s[|stem| + 1..] else "", '.');
      if stem + "." <= s { assert s == stem + ['.'] + s[|stem| + 1..]; }
    }
    if |parts| > 1 { assert parts[0] + "." <= s; }
  }

  lemma ValidSegmentExactly(s: string)
    ensures ValidSegment(s) <==> IsPortable(s)
  {
    var first := Split(s, '.')[0];
    StemExactly(s, first);
    forall stem ensures HasStem(s, stem) <==> stem == first { StemExactly(s, stem); }
    ReservedExactly(first);
  }

  /** Where the components lead from a root: `None` once they step above it. */
  function Resolve(parts: seq<string>, depth: nat): Option<nat> {
    if parts == [] then Some(depth)
    else if parts[0] == "" || parts[0] == "." then Resolve(parts[1..], depth)
    else if parts[0] == ".." then (if depth == 0 then None else Resolve(parts[1..], depth - 1))
    else Resolve(parts[1..], depth + 1)
  }

  lemma {:induction false} ResolvesForward(parts: seq<string>, depth: nat)
    requires forall p :: p in parts ==> ValidSegment(p)
    ensures Resolve(parts, depth) == Some(depth + |parts|)
  {
    if parts != [] {
      assert parts[0] in parts;
      ResolvesForward(parts[1..], depth + 1);
    }
  }

  /** Every leading part of a normal path stays strictly below the root, one level per
      component, and the path is not absolute. */
  lemma NormalPathStaysBelow(raw: string, directory: bool, bounds: Bounds, k: nat)
    requires NormalPath(raw, directory, bounds).Some?
    requires k <= |Split(NormalPath(raw, directory, bounds).value, '/')|
    ensures NormalPath(raw, directory, bounds).value[0] != '/'
    ensures Resolve(Split(NormalPath(raw, directory, bounds).value, '/')[..k], 0) == Some(k)
  {
    var path := NormalPath(raw, directory, bounds).value;
    var parts := Split(path, '/');
    assert path[0] == raw[0];
    forall p | p in parts[..k] ensures ValidSegment(p) {
      assert p in parts;
    }
    ResolvesForward(parts[..k], 0);
  }

  lemma {:induction false} ParentGoesBack(parts: seq<string>, name: string, depth: nat)
    requires name != "" && name != "." && name != ".."
    ensures Resolve(parts + [name, ".."], depth) == Resolve(parts, depth)
  {
    if parts == [] {
      assert [name, ".."][1..] == [".."] && [".."][1..] == [];
      assert Resolve([".."], depth + 1) == Resolve([], depth);
    } else {
      var next := (parts + [name, ".."])[1..];
      assert next == parts[1..] + [name, ".."];
      if parts[0] == "" || parts[0] == "." {
        ParentGoesBack(parts[1..], name, depth);
      } else if parts[0] != ".." {
        ParentGoesBack(parts[1..], name, depth + 1);
      } else if depth > 0 {
        ParentGoesBack(parts[1..], name, depth - 1);
      }
    }
  }

  /** The raw name, without the slash that a directory's may end in: relative, within both limits,
      without zero bytes and backslashes, and portable in every component. */
  ghost predicate IsNormal(raw: string, directory: bool, bounds: Bounds, path: string) {
    && (raw == path || (directory && raw == path + "/"))
    && |raw| <= bounds.maxPathLength && (forall c :: c in raw ==> c as int != 0 && c != '\\')
    && |Split(path, '/')| <= bounds.maxPathDepth && forall p :: p in Split(path, '/') ==> IsPortable(p)
  }

  lemma {:induction false} JoinEnds(parts: seq<string>)
    requires |parts| > 0 && forall p :: p in parts ==> p != "" && '/' !in p
    ensures var path := Join(parts, '/'); path != "" && path[0] != '/' && path[|path| - 1] != '/'
  {
    var first := parts[0];
    assert first in parts && first[0] in first && first[|first| - 1] in first;
    if |parts| > 1 {
      forall p | p in parts[1..] ensures p in parts {}
      JoinEnds(parts[1..]);
    }
  }

  lemma PortableParts(path: string)
    requires forall p :: p in Split(path, '/') ==> IsPortable(p)
    ensures path != "" && path[0] != '/' && path[|path| - 1] != '/'
    ensures PosixParts(Split(path, '/'), ".") == Split(path, '/') && Join(Split(path, '/'), '/') == path
  {
    hide IsDevice, HasStem, Split, Join, PosixParts;
    JoinOfSplit(path, '/');
    PosixPartsAll(Split(path, '/'), ".");
    JoinEnds(Split(path, '/'));
  }

  /** A member name is normal exactly when it is relative, within the limits and portable. */
  lemma NormalPathExactly(raw: string, directory: bool, bounds: Bounds, path: string)
    ensures NormalPath(raw, directory, bounds) == Some(path) <==> IsNormal(raw, directory, bounds, path)
  {
    hide ValidSegment, IsPortable, Split, Join, PosixParts;
    forall p: string ensures ValidSegment(p) <==> IsPortable(p) { ValidSegmentExactly(p); }
    if IsNormal(raw, directory, bounds, path) {
      PortableParts(path);
      assert raw == path + "/" ==> raw[..|raw| - 1] == path;
    }
  }

  // ---- Folding and conflicts ----

  /** Unicode normalisation followed by case folding, component by component. */
  type Folding = string -> string

  ghost predicate KeepsComponents(fold: Folding) {
    forall s: string :: '/' !in s ==> '/' !in fold(s)
  }

  function FoldAll(parts: seq<string>, fold: Folding): (r: seq<string>)
    ensures |r| == |parts|
  {
    seq(|parts|, i requires 0 <= i < |parts| => fold(parts[i]))
  }

  function FoldedParts(path: string, fold: Folding): (parts: seq<string>)
    ensures |parts| > 0
  {
    FoldAll(Split(path, '/'), fold)
  }

  function Folded(path: string, fold: Folding): string {
    Join(FoldedParts(path, fold), '/')
  }

  datatype Member = Member(raw: string, directory: bool)

  datatype Entry = Entry(parts: seq<string>, directory: bool)

  /** Two members collide: the same folded path, or a file where the other needs a directory. */
  predicate Conflict(a: Entry, b: Entry) {
    || a.parts == b.parts
    || (!a.directory && a.parts < b.parts)
    || (!b.directory && b.parts < a.parts)
  }

  lemma FoldedPartsClean(path: string, fold: Folding)
    requires KeepsComponents(fold)
    ensures forall p :: p in FoldedParts(path, fold) ==> '/' !in p
    ensures Split(Folded(path, fold), '/') == FoldedParts(path, fold)
  {
    var parts := Split(path, '/');
    forall p | p in FoldedParts(path, fold) ensures '/' !in p {
      var i :| 0 <= i < |parts| && p == fold(parts[i]);
      assert parts[i] in parts;
    }
    SplitOfJoin(FoldedParts(path, fold), '/');
  }

  datatype PathError = UnsafePath | CasefoldCollision | PrefixCollision | PolicyRejected

  /** The members registered so far, by folded path. */
  class PathRegistry {
    const bounds: Bounds
    const policy: string -> bool
    const fold: Folding
    var paths: map<string, (string, bool)>

    ghost predicate Valid()
      reads this
    {
      && KeepsComponents(fold)
      && forall k :: k in paths ==> k == Folded(paths[k].0, fold)
    }

    /** The registered members as folded components. */
    ghost function Entries(): (r: set<Entry>)
      reads this
    {
      set k | k in paths :: Entry(FoldedParts(paths[k].0, fold), paths[k].1)
    }

    constructor (bounds: Bounds, policy: string -> bool, fold: Folding)
      requires KeepsComponents(fold)
      ensures Valid() && Entries() == {} && paths == map[]
      ensures this.bounds == bounds && this.policy == policy && this.fold == fold
    {
      this.bounds, this.policy, this.fold := bounds, policy, fold;
      paths := map[];
    }

    /** No registered member collides with this one. */
    ghost predicate Free(path: string, directory: bool)
      reads this
    {
      forall e :: e in Entries() ==> !Conflict(e, Entry(FoldedParts(path, fold), directory))
    }

    /** Accepts a safe member that collides with no registered one and that the policy
        admits; whatever the policy says, a member that got that far is registered. */
    method Add(raw: string, directory: bool) returns (r: Result<string, PathError>)
      requires Valid()
      modifies this
      ensures Valid()
      ensures var path := NormalPath(raw, directory, bounds);
        && (r.Ok? <==> path.Some? && old(Free(path.value, directory)) && policy(path.value))
        && (r == Err(PolicyRejected) <==> path.Some? && old(Free(path.value, directory)) && !policy(path.value))
        && (r.Ok? ==> r.value == path.value)
        && Entries() == if r.Ok? || r == Err(PolicyRejected)
                        then old(Entries()) + {Entry(FoldedParts(path.value, fold), directory)} else old(Entries())
    {
      hide Split, Join, NormalPath, Conflict;
      var normal := NormalPath(raw, directory, bounds);
      if normal == None { return Err(UnsafePath); }
      var path := normal.value;
      var folded := Folded(path, fold);
      if folded in paths {
        SameFoldConflicts(folded, path, directory);
        return Err(CasefoldCollision);
      }
      var parts := Split(folded, '/');
      FoldedPartsClean(path, fold);
      for depth := 1 to |parts|
        invariant forall d :: 1 <= d < depth ==> !(Join(parts[..d], '/') in paths && !paths[Join(parts[..d], '/')].1)
      {
        var parent := Join(parts[..depth], '/');
        if parent in paths && !paths[parent].1 {
          ParentConflicts(path, directory, depth);
          return Err(PrefixCollision);
        }
      }
      if !directory && exists key :: key in paths.Keys && folded + "/" <= key {
        ChildConflicts(path);
        return Err(PrefixCollision);
      }
      NoConflict(path, directory);
      Registered(path, directory);
      paths := paths[folded := (path, directory)];
      if !policy(path) { return Err(PolicyRejected); }
      return Ok(path);
    }

    lemma SameFoldConflicts(folded: string, path: string, directory: bool)
      requires Valid() && folded == Folded(path, fold) && folded in paths
      ensures exists e :: e in Entries() && Conflict(e, Entry(FoldedParts(path, fold), directory))
    {
      FoldedPartsClean(path, fold);
      FoldedPartsClean(paths[folded].0, fold);
      assert Entry(FoldedParts(paths[folded].0, fold), paths[folded].1) in Entries();
    }

    lemma ParentConflicts(path: string, directory: bool, depth: nat)
      requires Valid() && 1 <= depth < |FoldedParts(path, fold)|
      requires var parent := Join(FoldedParts(path, fold)[..depth], '/'); parent in paths && !paths[parent].1
      ensures exists e :: e in Entries() && Conflict(e, Entry(FoldedParts(path, fold), directory))
    {
      var parts := FoldedParts(path, fold);
      var parent := Join(parts[..depth], '/');
      FoldedPartsClean(path, fold);
      FoldedPartsClean(paths[parent].0, fold);
      forall p | p in parts[..depth] ensures '/' !in p { assert p in parts; }
      JoinInjective(FoldedParts(paths[parent].0, fold), parts[..depth], '/');
      assert Entry(parts[..depth], false) in Entries();
    }

    lemma ChildConflicts(path: string)
      requires Valid() && exists key :: key in paths.Keys && Folded(path, fold) + "/" <= key
      ensures exists e :: e in Entries() && Conflict(e, Entry(FoldedParts(path, fold), false))
    {
      var key :| key in paths.Keys && Folded(path, fold) + "/" <= key;
      FoldedPartsClean(path, fold);
      FoldedPartsClean(paths[key].0, fold);
      JoinPrefix(FoldedParts(path, fold), FoldedParts(paths[key].0, fold), '/');
      assert Entry(FoldedParts(paths[key].0, fold), paths[key].1) in Entries();
    }

    lemma NoConflict(path: string, directory: bool)
      requires Valid() && Folded(path, fold) !in paths
      requires forall d :: 1 <= d < |FoldedParts(path, fold)| ==>
        !(Join(FoldedParts(path, fold)[..d], '/') in paths && !paths[Join(FoldedParts(path, fold)[..d], '/')].1)
      requires directory || !exists key :: key in paths.Keys && Folded(path, fold) + "/" <= key
      ensures forall e :: e in Entries() ==> !Conflict(e, Entry(FoldedParts(path, fold), directory))
    {
      var parts := FoldedParts(path, fold);
      forall e | e in Entries() ensures !Conflict(e, Entry(parts, directory)) {
        var key :| key in paths && e == Entry(FoldedParts(paths[key].0, fold), paths[key].1);
        FoldedPartsClean(path, fold);
        FoldedPartsClean(paths[key].0, fold);
        assert key == Join(e.parts, '/');
        JoinPrefix(parts, e.parts, '/');
        if e.parts < parts { assert e.parts == parts[..|e.parts|]; }
      }
    }

    lemma Registered(path: string, directory: bool)
      requires Valid() && Folded(path, fold) !in paths
      ensures var more := paths[Folded(path, fold) := (path, directory)];
        (set k | k in more :: Entry(FoldedParts(more[k].0, fold), more[k].1))
        == Entries() + {Entry(FoldedParts(path, fold), directory)}
    {
      var more := paths[Folded(path, fold) := (path, directory)];
      var all := set k | k in more :: Entry(FoldedParts(more[k].0, fold), more[k].1);
      forall e ensures e in all <==> e in Entries() + {Entry(FoldedParts(path, fold), directory)} {
        if e in Entries() {
          var k :| k in paths && e == Entry(FoldedParts(paths[k].0, fold), paths[k].1);
          assert k in more && more[k] == paths[k];
        }
        if e == Entry(FoldedParts(path, fold), directory) { assert Folded(path, fold) in more; }
      }
    }
  }

  // ---- A whole archive ----

  /** The folded components of a member; only those of a normal path are ever compared. */
  function EntryOf(m: Member, bounds: Bounds, fold: Folding): Entry {
    match NormalPath(m.raw, m.directory, bounds)
    case None => Entry(FoldedParts(m.raw, fold), m.directory)
    case Some(path) => Entry(FoldedParts(path, fold), m.directory)
  }

  predicate Admissible(m: Member, bounds: Bounds, policy: string -> bool) {
    NormalPath(m.raw, m.directory, bounds).Some? && policy(NormalPath(m.raw, m.directory, bounds).value)
  }

  /** Each member is admissible and no two of them collide. */
  ghost predicate ConflictFree(members: seq<Member>, bounds: Bounds, policy: string -> bool, fold: Folding) {
    && (forall m :: m in members ==> Admissible(m, bounds, policy))
    && (forall i, j :: 0 <= i < j < |members| ==>
         !Conflict(EntryOf(members[i], bounds, fold), EntryOf(members[j], bounds, fold)))
  }

  /** Registering members one after another succeeds exactly when they are conflict-free. */
  method RegisterAll(members: seq<Member>, bounds: Bounds, policy: string -> bool, fold: Folding)
    returns (accepted: bool)
    requires KeepsComponents(fold)
    ensures accepted <==> ConflictFree(members, bounds, policy, fold)
  {
    hide NormalPath, Conflict, FoldedParts;
    var registry := new PathRegistry(bounds, policy, fold);
    for i := 0 to |members|
      invariant registry.Valid() && registry.bounds == bounds && registry.policy == policy && registry.fold == fold
      invariant fresh(registry)
      invariant ConflictFree(members[..i], bounds, policy, fold)
      invariant registry.Entries() == EntriesOf(members[..i], bounds, fold)
    {
      OneMoreMember(members[..i], members[i], bounds, policy, fold);
      OneMoreEntry(members[..i], members[i], bounds, fold);
      assert members[..i + 1] == members[..i] + [members[i]];
      if ConflictFree(members, bounds, policy, fold) { PrefixConflictFree(members, i + 1, bounds, policy, fold); }
      var r := registry.Add(members[i].raw, members[i].directory);
      if r.Err? { return false; }
    }
    assert members[..|members|] == members;
    return true;
  }

  lemma PrefixConflictFree(members: seq<Member>, i: nat, bounds: Bounds, policy: string -> bool, fold: Folding)
    requires i <= |members| && ConflictFree(members, bounds, policy, fold)
    ensures ConflictFree(members[..i], bounds, policy, fold)
  {
  }

  function EntriesOf(members: seq<Member>, bounds: Bounds, fold: Folding): set<Entry> {
    set m | m in members :: EntryOf(m, bounds, fold)
  }

  lemma OneMoreEntry(members: seq<Member>, m: Member, bounds: Bounds, fold: Folding)
    ensures EntriesOf(members + [m], bounds, fold) == EntriesOf(members, bounds, fold) + {EntryOf(m, bounds, fold)}
  {
    var all := members + [m];
    assert all[|members|] == m && forall i :: 0 <= i < |members| ==> all[i] == members[i];
    assert forall x :: x in all <==> x in members || x == m;
  }

  lemma OneMoreMember(members: seq<Member>, m: Member, bounds: Bounds, policy: string -> bool, fold: Folding)
    requires ConflictFree(members, bounds, policy, fold)
    ensures ConflictFree(members + [m], bounds, policy, fold) <==>
      && Admissible(m, bounds, policy)
      && forall e :: e in EntriesOf(members, bounds, fold) ==> !Conflict(e, EntryOf(m, bounds, fold))
  {
    var all := members + [m];
    assert all[|members|] == m && forall i :: 0 <= i < |members| ==> all[i] == members[i];
    assert forall x :: x in all <==> x in members || x == m;
    if ConflictFree(all, bounds, policy, fold) {
      forall x | x in members ensures !Conflict(EntryOf(x, bounds, fold), EntryOf(m, bounds, fold)) {
        var i :| 0 <= i < |members| && members[i] == x;
        assert !Conflict(EntryOf(all[i], bounds, fold), EntryOf(all[|members|], bounds, fold));
      }
    }
    if forall e :: e in EntriesOf(members, bounds, fold) ==> !Conflict(e, EntryOf(m, bounds, fold)) {
      forall i | 0 <= i < |members| ensures !Conflict(EntryOf(all[i], bounds, fold), EntryOf(m, bounds, fold)) {
        assert members[i] in members;
      }
    }
  }

  /** So the order in which an archive lists its members never decides acceptance. */
  lemma OrderIsIrrelevant(a: seq<Member>, b: seq<Member>, bounds: Bounds, policy: string -> bool, fold: Folding)
    requires multiset(a) == multiset(b)
    ensures ConflictFree(a, bounds, policy, fold) <==> ConflictFree(b, bounds, policy, fold)
  {
    if ConflictFree(a, bounds, policy, fold) { Reordered(a, b, bounds, policy, fold); }
    if ConflictFree(b, bounds, policy, fold) { Reordered(b, a, bounds, policy, fold); }
  }

  lemma Reordered(a: seq<Member>, b: seq<Member>, bounds: Bounds, policy: string -> bool, fold: Folding)
    requires multiset(a) == multiset(b) && ConflictFree(a, bounds, policy, fold)
    ensures ConflictFree(b, bounds, policy, fold)
  {
    forall m | m in b ensures m in a { assert m in multiset(b) && m in multiset(a); }
    forall i, j | 0 <= i < j < |b| ensures !Conflict(EntryOf(b[i], bounds, fold), EntryOf(b[j], bounds, fold)) {
      var k, l := TwoPlaces(a, b, i, j);
      assert if k < l then !Conflict(EntryOf(a[k], bounds, fold), EntryOf(a[l], bounds, fold))
        else !Conflict(EntryOf(a[l], bounds, fold), EntryOf(a[k], bounds, fold));
    }
  }
}
