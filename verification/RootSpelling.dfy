/** The root of a source distribution is compared up to the spelling of the distribution's
    name, and a logical payload does not contain it: what that leaves open. */
module RootSpelling {
  import opened CanonicalStream
  import opened PayloadIdentity
  import opened Prelude
  import opened StableSorting

  const DASH: byte := 45

  const UNDERSCORE: byte := 95

  /** "neocortex" */
  const NEOCORTEX: bytes := [110, 101, 111, 99, 111, 114, 116, 101, 120]

  /** "framework" */
  const FRAMEWORK: bytes := [102, 114, 97, 109, 101, 119, 111, 114, 107]

  /** "neocortex-framework" */
  const DISTRIBUTION: bytes := NEOCORTEX + [DASH] + FRAMEWORK

  /** "neocortex_framework" */
  const WHEEL_DISTRIBUTION: bytes := NEOCORTEX + [UNDERSCORE] + FRAMEWORK

  /** A dash, an underscore or a dot. */
  predicate IsSeparator(b: byte) {
    b == 45 || b == 95 || b == 46
  }

  function Lower(b: byte): byte {
    if 65 <= b <= 90 then b + 32 else b
  }

  /** `_canonical_distribution` on ASCII names: runs of separators become one dash. */
  function Canonical(name: bytes): bytes {
    if name == [] then []
    else if !IsSeparator(name[0]) then [Lower(name[0])] + Canonical(name[1..])
    else if |name| > 1 && IsSeparator(name[1]) then Canonical(name[1..])
    else [DASH] + Canonical(name[1..])
  }

  /** A run of dashes, underscores and dots becomes one dash. */
  lemma {:induction false} RunIsOneDash(run: bytes)
    requires run != [] && forall b :: b in run ==> b == 45 || b == 95 || b == 46
    ensures Canonical(run) == [45]
  {
    assert run[0] in run;
    if |run| > 1 {
      assert run[1] in run && forall b :: b in run[1..] ==> b in run;
      RunIsOneDash(run[1..]);
    } else {
      assert run[1..] == [];
    }
  }

  /** Any other byte stands for itself, a capital letter for the small one. */
  lemma LetterIsLowered(b: byte)
    requires b != 45 && b != 95 && b != 46
    ensures Canonical([b]) == [if 65 <= b <= 90 then b + 32 else b]
  {
    assert [b][1..] == [];
  }

  /** What the parts of a name become stands side by side, unless a run is cut. */
  lemma {:induction false} CanonicalAppend(a: bytes, b: bytes)
    requires a != [] && b != []
    requires a[|a| - 1] !in {45, 95, 46} || b[0] !in {45, 95, 46}
    ensures Canonical(a + b) == Canonical(a) + Canonical(b)
  {
    assert (a + b)[1..] == a[1..] + b;
    if |a| == 1 {
      assert a[1..] == [] && [] + b == b;
    } else {
      CanonicalAppend(a[1..], b);
    }
  }

  predicate IsWord(s: bytes) {
    forall b :: b in s ==> !IsSeparator(b) && Lower(b) == b
  }

  lemma {:induction false} WordIsCanonical(word: bytes)
    requires IsWord(word)
    ensures Canonical(word) == word
  {
    if word != [] { WordIsCanonical(word[1..]); }
  }

  lemma {:induction false} WordsAreCanonical(first: bytes, separator: byte, second: bytes)
    requires IsWord(first) && IsWord(second) && second != [] && IsSeparator(separator)
    ensures Canonical(first + [separator] + second) == first + [DASH] + second
  {
    hide IsSeparator;
    var name := first + [separator] + second;
    if first == [] {
      assert name[1..] == second && second[0] in second;
      WordIsCanonical(second);
    } else {
      assert name[0] == first[0] && first[0] in first && name[1..] == first[1..] + [separator] + second;
      WordsAreCanonical(first[1..], separator, second);
    }
  }

  /** The root's last dash separates a spelling of the distribution's name from the version. */
  predicate ValidRoot(root: bytes, version: bytes) {
    && DASH !in version && |version| < |root|
    && root[|root| - |version| - 1..] == [DASH] + version
    && Canonical(root[..|root| - |version| - 1]) == DISTRIBUTION
  }

  lemma RootOf(name: bytes, version: bytes)
    requires DASH !in version
    ensures ValidRoot(name + [DASH] + version, version) <==> Canonical(name) == DISTRIBUTION
  {
    var root := name + [DASH] + version;
    assert root[..|root| - |version| - 1] == name;
    assert root[|root| - |version| - 1..] == [DASH] + version;
  }

  /** A root is valid exactly when it is a spelling of "neocortex-framework", a dash and the
      version, which holds no dash. */
  lemma ValidRootExactly(root: bytes, version: bytes)
    ensures ValidRoot(root, version) <==>
      45 !in version && exists name :: root == name + [45] + version && Canonical(name) == Ascii("neocortex-framework")
  {
    NameSpelled();
    hide Ascii, Canonical;
    if ValidRoot(root, version) {
      var name := root[..|root| - |version| - 1];
      assert root == name + ([DASH] + version) == name + [45] + version;
    }
    forall name | 45 !in version && root == name + [45] + version ensures
        ValidRoot(root, version) <==> Canonical(name) == DISTRIBUTION {
      RootOf(name, version);
    }
  }

  lemma NameSpelled()
    ensures DISTRIBUTION == Ascii("neocortex-framework")
  {
  }

  // ---- The same build under another root ----

  /** A member of `i` below another root. */
  function Moved(i: Inspection, root: bytes): Member -> Member
    requires i.root.Some?
  {
    (m: Member) => (Below(root, m.0[Min(|i.root.value| + 1, |m.0|)..]), m.1)
  }

  function MovedInspection(i: Inspection, root: bytes): Inspection
    requires i.root.Some?
  {
    Inspection(i.kind, Some(root), Map(Moved(i, root), i.members))
  }

  /** The files below one root, put below another. */
  function MovedFiles(files: Files, from: bytes, to: bytes): Files
    requires forall p :: p in files ==> StartsWith(p, from + [SLASH])
  {
    map path | path in MovedPaths(files, from, to) && Below(from, path[Min(|to| + 1, |path|)..]) in files
      :: files[Below(from, path[Min(|to| + 1, |path|)..])]
  }

  function MovedPaths(files: Files, from: bytes, to: bytes): set<bytes> {
    set path | path in files :: Below(to, path[Min(|from| + 1, |path|)..])
  }

  lemma MovedHas(files: Files, from: bytes, to: bytes, r: bytes)
    requires forall p :: p in files ==> StartsWith(p, from + [SLASH])
    ensures Below(to, r) in MovedFiles(files, from, to) <==> Below(from, r) in files
    ensures Below(from, r) in files ==> MovedFiles(files, from, to)[Below(to, r)] == files[Below(from, r)]
  {
    assert Below(to, r)[|to| + 1..] == r && Below(from, r)[|from| + 1..] == r;
    if Below(from, r) in files {
      assert Below(to, Below(from, r)[Min(|from| + 1, |Below(from, r)|)..]) in MovedPaths(files, from, to);
    }
  }

  lemma MovedAreBelow(files: Files, from: bytes, to: bytes, path: bytes) returns (r: bytes)
    requires forall p :: p in files ==> StartsWith(p, from + [SLASH])
    requires path in MovedFiles(files, from, to)
    ensures path == Below(to, r) && Below(from, r) in files
  {
    var p :| p in files && path == Below(to, p[Min(|from| + 1, |p|)..]);
    r := p[Min(|from| + 1, |p|)..];
    assert p == p[..|from| + 1] + r;
  }

  /** A member below the root is the root, a slash and a relative path. */
  lemma MovedMember(i: Inspection, root: bytes, m: Member) returns (r: bytes)
    requires i.kind == Sdist && i.root.Some? && !Escapes(i, m.0)
    ensures m.0 == Below(i.root.value, r) && Moved(i, root)(m) == (Below(root, r), m.1)
    ensures Cut(|root| + 1)(Moved(i, root)(m)) == Cut(|i.root.value| + 1)(m)
    ensures StartsWith(Below(root, r), root + [SLASH])
  {
    r := m.0[|i.root.value| + 1..];
    assert m.0 == m.0[..|i.root.value| + 1] + r;
    assert Below(root, r)[|root| + 1..] == r;
  }

  lemma MovedLogical(i: Inspection, root: bytes)
    requires i.kind == Sdist && i.root.Some? && Contained(i)
    ensures Contained(MovedInspection(i, root)) && LogicalMembers(MovedInspection(i, root)) == LogicalMembers(i)
  {
    var j := MovedInspection(i, root);
    forall k | 0 <= k < |i.members|
      ensures !Escapes(j, j.members[k].0)
      ensures Cut(|root| + 1)(j.members[k]) == Cut(|i.root.value| + 1)(i.members[k])
    {
      assert i.members[k] in i.members;
      var r := MovedMember(i, root, i.members[k]);
    }
    RenamedIsCut(i, i.members);
    RenamedIsCut(j, j.members);
    assert RenamedAll(i, i.members) == RenamedAll(j, j.members);
  }

  lemma FilesAreBelow(sha: Hash, i: Inspection, files: Files)
    requires IsSdist(sha, i, files)
    ensures forall p :: p in files ==> StartsWith(p, i.root.value + [SLASH])
  {
    forall p | p in files ensures StartsWith(p, i.root.value + [SLASH]) {
      var m: Member := (p, FactsOf(sha, files[p]));
      assert m in i.members && !Escapes(i, m.0);
    }
  }

  /** A moved member is a moved file with its facts. */
  lemma MovedMembersAreFiles(sha: Hash, i: Inspection, files: Files, root: bytes, k: nat)
    requires IsSdist(sha, i, files) && k < |i.members|
    requires forall p :: p in files ==> StartsWith(p, i.root.value + [SLASH])
    ensures var m, moved := Moved(i, root)(i.members[k]), MovedFiles(files, i.root.value, root);
      m.0 in moved && m.1 == FactsOf(sha, moved[m.0])
  {
    hide LogicalMembers, MovedFiles, Moved;
    assert i.members[k] in i.members;
    var r := MovedMember(i, root, i.members[k]);
    MovedHas(files, i.root.value, root, r);
  }

  /** Every moved file is a moved member. */
  lemma MovedFilesAreMembers(sha: Hash, i: Inspection, files: Files, root: bytes, path: bytes) returns (k: nat)
    requires IsSdist(sha, i, files)
    requires forall p :: p in files ==> StartsWith(p, i.root.value + [SLASH])
    requires path in MovedFiles(files, i.root.value, root)
    ensures k < |i.members|
    ensures Moved(i, root)(i.members[k]) == (path, FactsOf(sha, MovedFiles(files, i.root.value, root)[path]))
  {
    hide LogicalMembers, MovedFiles;
    var r := MovedAreBelow(files, i.root.value, root, path);
    MovedHas(files, i.root.value, root, r);
    var m: Member := (Below(i.root.value, r), FactsOf(sha, files[Below(i.root.value, r)]));
    assert m in i.members;
    k :| 0 <= k < |i.members| && i.members[k] == m;
    assert m.0[|i.root.value| + 1..] == r;
  }

  lemma MovedStaysDistinct(i: Inspection, root: bytes, m: Member, n: Member)
    requires i.kind == Sdist && i.root.Some? && !Escapes(i, m.0) && !Escapes(i, n.0)
    requires Moved(i, root)(m) == Moved(i, root)(n)
    ensures m == n
  {
    var x := MovedMember(i, root, m);
    var y := MovedMember(i, root, n);
    assert Below(root, x)[|root| + 1..] == x && Below(root, y)[|root| + 1..] == y;
  }

  lemma MovedIsSdist(sha: Hash, i: Inspection, files: Files, root: bytes)
    requires IsSdist(sha, i, files) && SLASH !in root
    requires forall p :: p in files ==> StartsWith(p, i.root.value + [SLASH])
    ensures IsSdist(sha, MovedInspection(i, root), MovedFiles(files, i.root.value, root))
  {
    hide LogicalMembers, MovedFiles, Moved, StartsWith, FactsOf;
    var j, moved := MovedInspection(i, root), MovedFiles(files, i.root.value, root);
    MovedLogical(i, root);
    forall m | m in j.members ensures m.0 in moved && m.1 == FactsOf(sha, moved[m.0]) {
      var k :| 0 <= k < |j.members| && j.members[k] == m;
      MovedMembersAreFiles(sha, i, files, root, k);
    }
    forall p | p in moved ensures (p, FactsOf(sha, moved[p])) in j.members {
      var k := MovedFilesAreMembers(sha, i, files, root, p);
      assert j.members[k] == (p, FactsOf(sha, moved[p]));
    }
    forall a, b | 0 <= a < b < |j.members| ensures j.members[a] != j.members[b] {
      assert i.members[a] in i.members && i.members[b] in i.members;
      if j.members[a] == j.members[b] { MovedStaysDistinct(i, root, i.members[a], i.members[b]); }
    }
  }

  /** Every build with a file has a twin under any other root: the logical payloads are equal,
      digest included, and the member streams are not. */
  lemma RootIsNotCompared(sha: Hash, i: Inspection, files: Files, root: bytes, epoch: nat)
    returns (j: Inspection, twin: Files)
    requires IsSdist(sha, i, files) && files != map[] && SLASH !in root && i.root != Some(root)
    requires Hashable(LogicalMembers(i))
    ensures IsSdist(sha, j, twin) && j.root == Some(root) && SameBelow(i, files, j, twin)
    ensures LogicalMembers(j) == LogicalMembers(i) && LogicalOf(sha, j) == LogicalOf(sha, i)
    ensures MemberStream(twin, epoch) != MemberStream(files, epoch)
  {
    hide LogicalMembers, MemberStream, MovedFiles, MembersBytes, Map, Describes, Contained;
    FilesAreBelow(sha, i, files);
    j, twin := MovedInspection(i, root), MovedFiles(files, i.root.value, root);
    MovedIsSdist(sha, i, files, root);
    MovedLogical(i, root);
    forall r ensures Below(root, r) in twin <==> Below(i.root.value, r) in files
      ensures Below(root, r) in twin ==> twin[Below(root, r)] == files[Below(i.root.value, r)]
    {
      MovedHas(files, i.root.value, root, r);
    }
    if twin == files {
      var path :| path in files;
      AllBelow(sha, i, files, path);
      AllBelow(sha, j, twin, path);
      TerminatedSplit(i.root.value, root, path[|i.root.value| + 1..], path[|root| + 1..], SLASH);
    }
    if MemberStream(twin, epoch) == MemberStream(files, epoch) { StreamFixesFiles(twin, files, epoch); }
  }

  lemma NamesSpelled()
    ensures DISTRIBUTION + [DASH] == Ascii("neocortex-framework-")
    ensures WHEEL_DISTRIBUTION + [DASH] == Ascii("neocortex_framework-")
  {
  }

  /** Two roots of one version that both pass the validation: builds under them can be
      logically equal and still give different archives. */
  lemma TwoSpellings(version: bytes)
    requires DASH !in version
    ensures ValidRoot(DISTRIBUTION + [DASH] + version, version)
    ensures ValidRoot(WHEEL_DISTRIBUTION + [DASH] + version, version)
    ensures DISTRIBUTION + [DASH] + version != WHEEL_DISTRIBUTION + [DASH] + version
  {
    WordsAreCanonical(NEOCORTEX, DASH, FRAMEWORK);
    WordsAreCanonical(NEOCORTEX, UNDERSCORE, FRAMEWORK);
    RootOf(DISTRIBUTION, version);
    RootOf(WHEEL_DISTRIBUTION, version);
    assert (DISTRIBUTION + [DASH] + version)[|NEOCORTEX|] != (WHEEL_DISTRIBUTION + [DASH] + version)[|NEOCORTEX|];
  }

  /** The failing input: any build under the underscored spelling and its twin under the dashed
      one are both valid and logically equal, and give two canonical member streams. */
  lemma ValidTwinsDiffer(sha: Hash, i: Inspection, files: Files, version: bytes, epoch: nat)
    returns (j: Inspection, twin: Files)
    requires DASH !in version && SLASH !in version && files != map[]
    requires IsSdist(sha, i, files) && i.root == Some(WHEEL_DISTRIBUTION + [DASH] + version)
    requires Hashable(LogicalMembers(i))
    ensures IsSdist(sha, j, twin) && ValidRoot(i.root.value, version) && ValidRoot(j.root.value, version)
    ensures LogicalMembers(j) == LogicalMembers(i) && LogicalOf(sha, j) == LogicalOf(sha, i)
    ensures MemberStream(twin, epoch) != MemberStream(files, epoch)
    ensures i.root == Some(Ascii("neocortex_framework-") + version)
    ensures j.root == Some(Ascii("neocortex-framework-") + version)
  {
    hide LogicalMembers, MemberStream, MembersBytes, Map, Describes, Contained, ValidRoot, Ascii;
    TwoSpellings(version);
    NamesSpelled();
    j, twin := RootIsNotCompared(sha, i, files, DISTRIBUTION + [DASH] + version, epoch);
  }
}
