/** Sanitized exports of a Git commit: which files they hold, what validation demands of them,
    and how it binds them to the commit. */
module ExportProfile {
  import opened Hexadecimal
  import opened Prelude
  import opened Paths
  import opened Ordering
  import opened GitTree
  import opened TreeDigest
  import opened LinkEdits
  import opened LinkRewriting

  type Path = bytes

  const MAX_SOURCE_FILES: nat := 20_000
  const MAX_SOURCE_BYTES: nat := 2 * 1024 * 1024 * 1024
  const MAX_FILE_BYTES: nat := 512 * 1024 * 1024
  const MAX_MANIFEST_BYTES: nat := 32 * 1024 * 1024
  const MEGABYTE: nat := 1024 * 1024

  const COMMIT: bytes := [99, 111, 109, 109, 105, 116]
  const BLOB: bytes := [98, 108, 111, 98]
  const DOT_MD: bytes := [46, 109, 100]
  const CODEX: bytes := [46, 99, 111, 100, 101, 120, 47]
  const MANIFEST_NAME: bytes :=
    [110, 101, 111, 99, 111, 114, 116, 101, 120, 45, 101, 120, 112, 111, 114, 116, 45,
     112, 114, 111, 102, 105, 108, 101, 46, 106, 115, 111, 110]
  const AGENTS: bytes := [65, 71, 69, 78, 84, 83, 46, 109, 100]
  const AGENTS_OVERRIDE: bytes := [65, 71, 69, 78, 84, 83, 46, 111, 118, 101, 114, 114, 105, 100, 101, 46, 109, 100]

  datatype Profile = Checkout | Sanitized | Release

  datatype Reason = SourceOnlyDocument | SourceOnlyAgentControl

  /** The two hashes, strict UTF-8, the link grammar of a repository URL and commit, the URL
      check, and the canonical document inventory. */
  datatype Tools = Tools(
    sha1: Sha1,
    sha256: bytes -> bytes,
    decode: bytes -> Option<string>,
    encode: string -> bytes,
    pathText: Path -> string,
    markdown: (bytes, bytes) -> Markdown,
    repositoryUrl: bytes -> Option<bytes>,
    active: set<Path>,
    sourceOnly: set<Path>)
  {
    ghost predicate Sound() {
      && TwentyBytes(sha1)
      && (forall b: bytes, s: string :: decode(b) == Some(s) <==> encode(s) == b)
      && (forall url: bytes, commit: bytes :: markdown(url, commit).Sound())
      && (forall u: bytes, v: bytes :: repositoryUrl(u) == Some(v) ==> repositoryUrl(v) == Some(v))
    }
  }

  datatype FileRecord = FileRecord(sourceHash: bytes, hash: bytes, size: int)

  datatype Manifest = Manifest(
    name: Profile,
    url: bytes,
    commit: bytes,
    commitObject: bytes,
    treeHash: bytes,
    entries: Catalog,
    excluded: map<Path, Reason>,
    allowed: seq<Path>,
    required: seq<Path>,
    files: map<Path, FileRecord>,
    transformations: map<Path, Edits>)

  datatype Member = Regular(content: bytes, executable: bool) | Directory | Symlink | Special

  /** Everything below the export's root except the manifest itself, in listing order. */
  type Listing = seq<(Path, Member)>

  // ---- Pure parts ----

  function Keys(entries: Catalog): set<Path> {
    set x | x in entries :: x.0
  }

  function Get(entries: Catalog, path: Path): (e: Entry)
    requires path in Keys(entries)
    ensures (path, e) in entries
  {
    if entries[0].0 == path then entries[0].1
    else
      assert entries == [entries[0]] + entries[1..];
      Get(entries[1..], path)
  }

  predicate EndsWith(s: bytes, suffix: bytes) { |suffix| <= |s| && s[|s| - |suffix|..] == suffix }

  /** `PurePosixPath(path).name` of a safe path. */
  function BaseName(path: Path): bytes {
    var parts := Split(path, SLASH); parts[|parts| - 1]
  }

  predicate IsExcluded(tools: Tools, path: Path) {
    path in tools.sourceOnly || CODEX <= path || BaseName(path) == AGENTS || BaseName(path) == AGENTS_OVERRIDE
  }

  function Exclusions(tools: Tools, profile: Profile, paths: set<Path>): map<Path, Reason> {
    if profile == Sanitized then
      map path | path in paths && IsExcluded(tools, path) ::
        if path in tools.sourceOnly then SourceOnlyDocument else SourceOnlyAgentControl
    else map[]
  }

  function SortedPaths(paths: set<Path>): (r: seq<Path>)
    ensures forall p :: p in r <==> p in paths
    ensures |r| == |paths| && Distinct(r)
  {
    ByteOrderIsTotal();
    Sorted(paths, ByteOrder())
  }

  function Allowed(tools: Tools, profile: Profile, paths: set<Path>): seq<Path> {
    SortedPaths(paths - Exclusions(tools, profile, paths).Keys)
  }

  function FirstLine(data: bytes): Option<bytes> {
    if data == [] then None
    else if data[0] == 10 || data[0] == 13 then Some([])
    else match FirstLine(data[1..]) case None => Some(data) case Some(rest) => Some([data[0]] + rest)
  }

  function SizeSum(entries: Catalog): int {
    if entries == [] then 0 else entries[0].1.size + SizeSum(entries[1..])
  }

  function LinkContext(tools: Tools, m: Manifest, excluded: map<Path, Reason>, path: Path): Context {
    Context(tools.markdown(m.url, m.commit), tools.pathText(path), set p | p in excluded.Keys :: tools.pathText(p))
  }

  predicate IsRewritten(profile: Profile, path: Path) {
    profile == Sanitized && EndsWith(path, DOT_MD)
  }

  function Transformation(m: Manifest, path: Path): Edits {
    if path in m.transformations then m.transformations[path] else []
  }

  // ---- What validation demands ----

  /** The source text behind an emitted file, once its recorded edits are undone. */
  function SourceOf(tools: Tools, emitted: bytes, edits: Edits): Option<bytes> {
    if edits == [] then Some(emitted)
    else
      match tools.decode(emitted)
      case None => None
      case Some(text) =>
        match Restored(text, edits)
        case None => None
        case Some(source) => Some(tools.encode(source))
  }

  predicate CanonicalRewrite(tools: Tools, m: Manifest, excluded: map<Path, Reason>, path: Path, source: bytes,
    emitted: bytes)
    requires tools.Sound()
  {
    var ctx := LinkContext(tools, m, excluded, path);
    match tools.decode(source)
    case None => false
    case Some(text) =>
      && tools.encode(ApplyReversed(text, FoundEdits(ctx, text))) == emitted
      && Transformation(m, path) == FoundEdits(ctx, text)
  }

  predicate FileAccepted(tools: Tools, m: Manifest, profile: Profile, path: Path, member: Member)
    requires tools.Sound() && path in m.files && path in Keys(m.entries)
  {
    var record, e, edits := m.files[path], Get(m.entries, path), Transformation(m, path);
    && member.Regular?
    && |member.content| <= MAX_FILE_BYTES + MEGABYTE
    && (member.executable <==> e.mode == MODE_EXECUTABLE)
    && |member.content| == record.size && tools.sha256(member.content) == record.hash
    && var source := SourceOf(tools, member.content, edits);
      && source.Some?
      && |source.value| == e.size && tools.sha256(source.value) == record.sourceHash
      && GitHash(tools.sha1, BLOB, source.value) == e.blob
      && (if IsRewritten(profile, path)
          then
            CanonicalRewrite(tools, m, Exclusions(tools, profile, Keys(m.entries)), path, source.value, member.content)
          else edits == [])
  }

  predicate Bound(tools: Tools, m: Manifest) {
    && GitHash(tools.sha1, COMMIT, m.commitObject) == m.commit
    && FirstLine(m.commitObject) == Some(TREE + [SPACE] + m.treeHash)
    && TreeHashOf(tools.sha1, m.entries) == Ok(m.treeHash)
  }

  predicate WithinLimits(entries: Catalog) {
    && |entries| <= MAX_SOURCE_FILES
    && (forall x :: x in entries ==> 0 <= x.1.size <= MAX_FILE_BYTES)
    && SizeSum(entries) <= MAX_SOURCE_BYTES
  }

  function PathSet(paths: seq<Path>): (s: set<Path>)
    ensures forall p :: p in s <==> p in paths
  {
    set p | p in paths
  }

  /** The manifest states exactly the given exclusions and allowed files. */
  predicate SameInventory(m: Manifest, excluded: map<Path, Reason>, allowed: seq<Path>) {
    && m.excluded == excluded
    && m.allowed == allowed && m.required == allowed
    && m.files.Keys == PathSet(allowed)
    && m.transformations.Keys <= PathSet(allowed)
  }

  predicate InventoryMatches(tools: Tools, m: Manifest, profile: Profile) {
    && tools.active + tools.sourceOnly <= Keys(m.entries)
    && SameInventory(m, Exclusions(tools, profile, Keys(m.entries)), Allowed(tools, profile, Keys(m.entries)))
  }

  function FilesListed(listing: Listing): set<Path> {
    set x | x in listing && x.1.Regular? :: x.0
  }

  predicate ListingMatches(listing: Listing, allowed: seq<Path>) {
    && (forall x :: x in listing ==> x.1.Regular? || x.1.Directory?)
    && FilesListed(listing) == PathSet(allowed)
  }

  /** What is demanded of the manifest alone, of the given size. */
  predicate ManifestAccepted(tools: Tools, m: Manifest, size: nat, profile: Profile, commit: Option<bytes>) {
    && size <= MAX_MANIFEST_BYTES
    && tools.repositoryUrl(m.url) == Some(m.url)
    && m.name == profile && profile != Release
    && IsOid(m.commit) && (commit.Some? ==> m.commit == commit.value)
    && WithinLimits(m.entries)
    && Bound(tools, m)
    && InventoryMatches(tools, m, profile)
  }

  ghost predicate MembersAccepted(tools: Tools, listing: Listing, m: Manifest, profile: Profile, paths: seq<Path>)
    requires tools.Sound()
  {
    forall x :: x in listing && x.1.Regular? && x.0 in paths ==>
      x.0 in m.files && x.0 in Keys(m.entries) && FileAccepted(tools, m, profile, x.0, x.1)
  }

  /** The whole of `validate_export_directory`. */
  ghost predicate Validates(tools: Tools, listing: Listing, m: Manifest, size: nat, profile: Profile,
    commit: Option<bytes>)
    requires tools.Sound()
  {
    && ManifestAccepted(tools, m, size, profile, commit)
    && ListingMatches(listing, Allowed(tools, profile, Keys(m.entries)))
    && MembersAccepted(tools, listing, m, profile, Allowed(tools, profile, Keys(m.entries)))
  }

  // ---- The same demands in literal bytes ----

  /** The last slash-separated component of the path, for a name without a slash. */
  ghost predicate IsCalled(path: Path, name: bytes) {
    path == name || (|name| < |path| && path[|path| - |name| - 1..] == [47] + name)
  }

  /** Below `.codex/`, or called `AGENTS.md` or `AGENTS.override.md`. */
  ghost predicate IsAgentControl(path: Path) {
    || [46, 99, 111, 100, 101, 120, 47] <= path
    || IsCalled(path, [65, 71, 69, 78, 84, 83, 46, 109, 100])
    || IsCalled(path, [65, 71, 69, 78, 84, 83, 46, 111, 118, 101, 114, 114, 105, 100, 101, 46, 109, 100])
  }

  /** How a profile divides a catalogue: a checkout leaves nothing out; a sanitized export leaves
      out the source-only documents and the agent control files, each with its reason. */
  ghost predicate Divides(tools: Tools, profile: Profile, paths: set<Path>, excluded: map<Path, Reason>,
    kept: set<Path>)
  {
    && (forall p :: p in kept <==>
          p in paths && (profile != Sanitized || (p !in tools.sourceOnly && !IsAgentControl(p))))
    && (forall p :: p in excluded <==> p in paths && p !in kept)
    && (forall p :: p in excluded ==> (excluded[p] == SourceOnlyDocument <==> p in tools.sourceOnly))
  }

  /** Each path once, in the order of the bytes. */
  ghost predicate Ascends(paths: seq<Path>) {
    forall i, j :: 0 <= i < j < |paths| ==> Precedes(paths[i], paths[j]) && paths[i] != paths[j]
  }

  lemma BaseNameExactly(path: Path, name: bytes)
    requires 47 !in name
    ensures BaseName(path) == name <==> IsCalled(path, name)
  {
    hide *;
    BaseNameIsLast(path);
    CalledOrBelow(path, name);
    forall dir: bytes | path == dir + [47] + name ensures BaseName(path) == name { CalledByLast(dir, name); }
  }

  lemma CalledOrBelow(path: Path, name: bytes)
    ensures IsCalled(path, name) <==> path == name || exists dir: bytes :: path == dir + [47] + name
    ensures 47 !in name && path == name ==> BaseName(path) == name
  {
    if |name| < |path| && path[|path| - |name| - 1..] == [47] + name {
      var dir := path[..|path| - |name| - 1];
      assert path == dir + ([47] + name) == dir + [47] + name;
    }
    forall dir: bytes | path == dir + [47] + name ensures IsCalled(path, name) {
      assert path == dir + ([47] + name);
    }
    if 47 !in name && path == name { SplitFirst(name, [], SLASH); }
  }

  lemma BaseNameIsLast(path: Path)
    ensures path == BaseName(path) || exists dir: bytes :: path == dir + [47] + BaseName(path)
  {
    var parts := Split(path, SLASH);
    var init, last := parts[..|parts| - 1], parts[|parts| - 1];
    JoinOfSplit(path, SLASH);
    assert parts == init + [last];
    if |init| > 0 { JoinAppend(init, [last], SLASH); }
  }

  lemma CalledByLast(dir: bytes, name: bytes)
    requires 47 !in name
    ensures BaseName(dir + [47] + name) == name
  {
    var parts := Split(dir, SLASH);
    JoinOfSplit(dir, SLASH);
    JoinAppend(parts, [name], SLASH);
    SplitOfJoin(parts + [name], SLASH);
  }

  lemma IsExcludedExactly(tools: Tools, path: Path)
    ensures IsExcluded(tools, path) <==> path in tools.sourceOnly || IsAgentControl(path)
  {
    BaseNameExactly(path, [65, 71, 69, 78, 84, 83, 46, 109, 100]);
    BaseNameExactly(path,
      [65, 71, 69, 78, 84, 83, 46, 111, 118, 101, 114, 114, 105, 100, 101, 46, 109, 100]);
  }

  lemma ExclusionsDivide(tools: Tools, profile: Profile, paths: set<Path>)
    ensures var excluded := Exclusions(tools, profile, paths);
      Divides(tools, profile, paths, excluded, paths - excluded.Keys)
  {
    hide IsExcluded, IsAgentControl;
    forall p: Path ensures IsExcluded(tools, p) <==> p in tools.sourceOnly || IsAgentControl(p) {
      IsExcludedExactly(tools, p);
    }
  }

  lemma SortedAscends(paths: set<Path>)
    ensures PathSet(SortedPaths(paths)) == paths && Ascends(SortedPaths(paths))
  {
    hide LexLe, Precedes, Sorted;
    ByteOrderIsTotal();
    var sorted := SortedPaths(paths);
    assert Ascending(sorted, ByteOrder());
    forall i, j | 0 <= i < j < |sorted| ensures Precedes(sorted[i], sorted[j]) {
      assert ByteOrder()(sorted[i], sorted[j]);
      LexExactly(sorted[i], sorted[j]);
    }
  }

  /** What a profile excludes and keeps, and the order in which it lists what it keeps. */
  lemma ProfileDivides(tools: Tools, profile: Profile, paths: set<Path>)
    ensures var allowed := Allowed(tools, profile, paths);
      Divides(tools, profile, paths, Exclusions(tools, profile, paths), PathSet(allowed)) && Ascends(allowed)
  {
    hide Divides, SortedPaths, Exclusions;
    ExclusionsDivide(tools, profile, paths);
    SortedAscends(paths - Exclusions(tools, profile, paths).Keys);
  }

  /** The line without its end: the data's beginning up to a line feed, a carriage return or the end. */
  ghost predicate IsFirstLine(data: bytes, line: bytes) {
    && data != [] && line <= data && 10 !in line && 13 !in line
    && (|line| < |data| ==> data[|line|] == 10 || data[|line|] == 13)
  }

  lemma {:induction false} FirstLineExactly(data: bytes, line: bytes)
    ensures FirstLine(data) == Some(line) <==> IsFirstLine(data, line)
  {
    if data != [] && data[0] != 10 && data[0] != 13 {
      var tail := data[1..];
      assert data == [data[0]] + tail;
      if line != [] {
        FirstLineExactly(tail, line[1..]);
        assert line == [line[0]] + line[1..];
        assert line <= data <==> line[0] == data[0] && line[1..] <= tail;
      }
      if tail == [] {
        assert FirstLine(data) == Some(data);
      } else {
        assert FirstLine(tail).Some?;
      }
    }
  }

  /** The object name of a file's bytes or a commit's, by its kind and a space. */
  ghost predicate IsObjectName(sha1: Sha1, oid: bytes, kind: bytes, data: bytes) {
    oid == ToHex(sha1(kind + Decimal(|data|) + [0] + data))
  }

  ghost function Sizes(entries: Catalog): seq<int> {
    seq(|entries|, i requires 0 <= i < |entries| => entries[i].1.size)
  }

  lemma {:induction false} SizeSumIsSum(entries: Catalog)
    ensures SizeSum(entries) == Sum(Sizes(entries))
  {
    if entries != [] {
      SizeSumIsSum(entries[1..]);
      assert Sizes(entries)[1..] == Sizes(entries[1..]);
    }
  }

  /** At most 20000 files, none over 512 MiB, and together at most 2 GiB. */
  ghost predicate IsBounded(entries: Catalog) {
    && |entries| <= 20_000 && (forall x :: x in entries ==> 0 <= x.1.size <= 536_870_912)
    && Sum(Sizes(entries)) <= 2_147_483_648
  }

  /** What the manifest says about its own inventory: the division of the profile, its kept
      paths in order, a record for each and edits for none but them. */
  ghost predicate IsInventory(tools: Tools, m: Manifest, profile: Profile) {
    && tools.active + tools.sourceOnly <= Keys(m.entries)
    && Divides(tools, profile, Keys(m.entries), m.excluded, PathSet(m.allowed)) && Ascends(m.allowed)
    && m.required == m.allowed && m.files.Keys == PathSet(m.allowed)
    && m.transformations.Keys <= PathSet(m.allowed)
  }

  /** A manifest of at most 32 MiB that binds its catalogue to the commit: the commit's bytes
      have the commit's name, their first line names the tree, and the tree is the catalogue's. */
  ghost predicate Certifies(tools: Tools, m: Manifest, size: nat, profile: Profile, commit: Option<bytes>) {
    && size <= 33_554_432 && tools.repositoryUrl(m.url) == Some(m.url)
    && m.name == profile && (profile == Checkout || profile == Sanitized)
    && |m.commit| == 40 && (forall b :: b in m.commit ==> 48 <= b <= 57 || 97 <= b <= 102)
    && (commit == None || commit == Some(m.commit))
    && IsBounded(m.entries)
    && IsObjectName(tools.sha1, m.commit, [99, 111, 109, 109, 105, 116, 32], m.commitObject)
    && IsFirstLine(m.commitObject, [116, 114, 101, 101, 32] + m.treeHash)
    && TreeHashOf(tools.sha1, m.entries) == Ok(m.treeHash)
    && IsInventory(tools, m, profile)
  }

  lemma {:induction false} OneDivision(tools: Tools, profile: Profile, paths: set<Path>,
    a: map<Path, Reason>, p: set<Path>, b: map<Path, Reason>, q: set<Path>)
    requires Divides(tools, profile, paths, a, p) && Divides(tools, profile, paths, b, q)
    ensures a == b && p == q
  {
    hide IsAgentControl;
    forall x ensures x in p <==> x in q {}
    assert p == q;
    forall x | x in a ensures x in b && a[x] == b[x] {}
    assert a.Keys == b.Keys;
  }

  lemma OneAscent(a: seq<Path>, b: seq<Path>)
    requires Ascends(a) && Ascends(b) && PathSet(a) == PathSet(b)
    ensures a == b
  {
    hide Precedes, LexLe;
    ByteOrderIsTotal();
    forall s: seq<Path> | Ascends(s) ensures Ascending(s, ByteOrder()) {
      forall i, j | 0 <= i < j < |s| ensures ByteOrder()(s[i], s[j]) { LexExactly(s[i], s[j]); }
    }
    assert forall x :: x in a <==> x in PathSet(a);
    assert forall x :: x in b <==> x in PathSet(b);
    AscendingIsUnique(a, b, ByteOrder());
  }

  lemma InventoryExactly(tools: Tools, m: Manifest, profile: Profile)
    ensures InventoryMatches(tools, m, profile) <==> IsInventory(tools, m, profile)
  {
    hide Divides, Ascends, Exclusions, Allowed;
    var paths := Keys(m.entries);
    var excluded, allowed := Exclusions(tools, profile, paths), Allowed(tools, profile, paths);
    ProfileDivides(tools, profile, paths);
    if IsInventory(tools, m, profile) {
      OneDivision(tools, profile, paths, excluded, PathSet(allowed), m.excluded, PathSet(m.allowed));
      OneAscent(allowed, m.allowed);
    }
  }

  lemma BoundPlainly(tools: Tools, m: Manifest)
    ensures Bound(tools, m) <==>
      && IsObjectName(tools.sha1, m.commit, [99, 111, 109, 109, 105, 116, 32], m.commitObject)
      && IsFirstLine(m.commitObject, [116, 114, 101, 101, 32] + m.treeHash)
      && TreeHashOf(tools.sha1, m.entries) == Ok(m.treeHash)
  {
    hide IsFirstLine, FirstLine, TreeHashOf, ToHex, Decimal;
    FirstLineExactly(m.commitObject, [116, 114, 101, 101, 32] + m.treeHash);
    assert COMMIT + [SPACE] == [99, 111, 109, 109, 105, 116, 32];
    assert TREE + [SPACE] == [116, 114, 101, 101, 32];
  }

  /** A manifest is accepted exactly when it certifies its inventory. */
  lemma ManifestPlainly(tools: Tools, m: Manifest, size: nat, profile: Profile, commit: Option<bytes>)
    ensures ManifestAccepted(tools, m, size, profile, commit) <==> Certifies(tools, m, size, profile, commit)
  {
    hide InventoryMatches, IsInventory, Bound, IsObjectName, IsFirstLine, TreeHashOf, Sizes, SizeSum;
    InventoryExactly(tools, m, profile);
    BoundPlainly(tools, m);
    SizeSumIsSum(m.entries);
  }

  /** Which files have their links rewritten: in a sanitized export those ending in `.md`. */
  ghost predicate IsMarkdown(profile: Profile, path: Path) {
    profile == Sanitized && exists stem: bytes :: path == stem + [46, 109, 100]
  }

  /** The emitted file is the given blob of the commit, with its links to excluded documents
      rewritten and the edits recorded if it is Markdown, and otherwise byte for byte. */
  ghost predicate IsEmitted(tools: Tools, m: Manifest, profile: Profile, path: Path, e: Entry, source: bytes,
    member: Member)
    requires tools.Sound() && path in m.files
  {
    && member.Regular? && (member.executable <==> e.mode == [49, 48, 48, 55, 53, 53])
    && |source| == e.size && IsObjectName(tools.sha1, e.blob, [98, 108, 111, 98, 32], source)
    && m.files[path] == FileRecord(tools.sha256(source), tools.sha256(member.content), |member.content|)
    && var edits := if path in m.transformations then m.transformations[path] else [];
      if IsMarkdown(profile, path) then IsRewriting(tools, m, path, source, member.content, edits)
      else edits == [] && member.content == source
  }

  ghost predicate IsRewriting(tools: Tools, m: Manifest, path: Path, source: bytes, emitted: bytes, edits: Edits)
    requires tools.Sound()
  {
    var excluded := set p | p in m.excluded :: tools.pathText(p);
    var ctx := Context(tools.markdown(m.url, m.commit), tools.pathText(path), excluded);
    match tools.decode(source)
    case None => false
    case Some(text) => edits == FoundEdits(ctx, text) && emitted == tools.encode(ApplyReversed(text, edits))
  }

  /** At most 512 MiB and one more, and no edit begins before an earlier one ends. */
  ghost predicate IsReversible(m: Manifest, path: Path, member: Member) {
    && member.Regular? && |member.content| <= 537_919_488
    && (path in m.transformations ==> Disjoint(m.transformations[path]))
  }

  lemma MarkdownExactly(profile: Profile, path: Path)
    ensures IsRewritten(profile, path) <==> IsMarkdown(profile, path)
  {
    if IsRewritten(profile, path) {
      assert path == path[..|path| - 3] + [46, 109, 100];
    }
  }

  /** The record of a rewrite undoes it exactly when its targets are disjoint. */
  lemma RewrittenFile(tools: Tools, ctx: Context, content: bytes, text: string)
    requires tools.Sound() && ctx.md.Sound() && tools.decode(content) == Some(text)
    ensures var edits := FoundEdits(ctx, text); var emitted := tools.encode(ApplyReversed(text, edits));
      && tools.decode(emitted) == Some(ApplyReversed(text, edits))
      && SourceOf(tools, emitted, edits) == if Disjoint(edits) then Some(content) else None
  {
    RewriteIsReversible(ctx, text);
    var edits := FoundEdits(ctx, text);
    var emitted := tools.encode(ApplyReversed(text, edits));
    assert tools.decode(emitted) == Some(ApplyReversed(text, edits));
    assert tools.encode(text) == content;
    if edits == [] { assert ApplyReversed(text, edits) == text; }
  }

  lemma ObjectNamePlainly(tools: Tools, oid: bytes, source: bytes)
    ensures GitHash(tools.sha1, BLOB, source) == oid <==>
      IsObjectName(tools.sha1, oid, [98, 108, 111, 98, 32], source)
  {
    assert BLOB + [SPACE] == [98, 108, 111, 98, 32];
  }

  lemma EmittedIsAccepted(tools: Tools, m: Manifest, profile: Profile, path: Path, source: bytes, member: Member)
    requires tools.Sound() && path in m.files && path in Keys(m.entries)
    requires m.excluded == Exclusions(tools, profile, Keys(m.entries)) && IsReversible(m, path, member)
    requires IsEmitted(tools, m, profile, path, Get(m.entries, path), source, member)
    ensures FileAccepted(tools, m, profile, path, member)
  {
    hide GitHash, Exclusions, FoundEdits, IsObjectName, Disjoint, IsRewritten, IsMarkdown, Tools.Sound;
    MarkdownExactly(profile, path);
    DisjointNone();
    ObjectNamePlainly(tools, Get(m.entries, path).blob, source);
    if IsRewritten(profile, path) { RewrittenBack(tools, m, path, source, member.content); }
  }

  lemma AcceptedIsEmitted(tools: Tools, m: Manifest, profile: Profile, path: Path, member: Member)
    returns (source: bytes)
    requires tools.Sound() && path in m.files && path in Keys(m.entries)
    requires m.excluded == Exclusions(tools, profile, Keys(m.entries)) && FileAccepted(tools, m, profile, path, member)
    ensures IsReversible(m, path, member)
    ensures IsEmitted(tools, m, profile, path, Get(m.entries, path), source, member)
  {
    hide GitHash, Exclusions, FoundEdits, IsObjectName, Disjoint, IsRewritten, IsMarkdown, Tools.Sound;
    source := SourceOf(tools, member.content, Transformation(m, path)).value;
    MarkdownExactly(profile, path);
    DisjointNone();
    ObjectNamePlainly(tools, Get(m.entries, path).blob, source);
    if IsRewritten(profile, path) { RewrittenBack(tools, m, path, source, member.content); }
  }

  /** An emitted blob of the catalogue, whose rewriting can be undone. */
  ghost predicate IsFileOf(tools: Tools, m: Manifest, profile: Profile, path: Path, member: Member)
    requires tools.Sound()
  {
    && path in m.files && path in Keys(m.entries) && IsReversible(m, path, member)
    && exists source :: IsEmitted(tools, m, profile, path, Get(m.entries, path), source, member)
  }

  /** A file is accepted exactly when it is an emitted blob of the catalogue whose rewriting can
      be undone. */
  lemma FileExactly(tools: Tools, m: Manifest, profile: Profile, path: Path, member: Member)
    requires tools.Sound() && path in m.files && path in Keys(m.entries)
    requires m.excluded == Exclusions(tools, profile, Keys(m.entries))
    ensures FileAccepted(tools, m, profile, path, member) <==> IsFileOf(tools, m, profile, path, member)
  {
    hide FileAccepted, IsReversible, IsEmitted, Exclusions;
    if FileAccepted(tools, m, profile, path, member) {
      var source := AcceptedIsEmitted(tools, m, profile, path, member);
    }
    forall source | IsReversible(m, path, member)
        && IsEmitted(tools, m, profile, path, Get(m.entries, path), source, member)
      ensures FileAccepted(tools, m, profile, path, member)
    {
      EmittedIsAccepted(tools, m, profile, path, source, member);
    }
  }

  lemma DisjointNone()
    ensures Disjoint([])
  {
  }

  /** A canonical rewrite is a rewriting, and its record undoes it exactly when it is disjoint. */
  lemma RewrittenBack(tools: Tools, m: Manifest, path: Path, source: bytes, emitted: bytes)
    requires tools.Sound()
    ensures CanonicalRewrite(tools, m, m.excluded, path, source, emitted)
       <==> IsRewriting(tools, m, path, source, emitted, Transformation(m, path))
    ensures IsRewriting(tools, m, path, source, emitted, Transformation(m, path)) ==>
      SourceOf(tools, emitted, Transformation(m, path))
        == if Disjoint(Transformation(m, path)) then Some(source) else None
  {
    hide FoundEdits, Disjoint;
    var ctx := LinkContext(tools, m, m.excluded, path);
    assert ctx == Context(tools.markdown(m.url, m.commit), tools.pathText(path),
        set p | p in m.excluded :: tools.pathText(p));
    if tools.decode(source).Some? { RewrittenFile(tools, ctx, source, tools.decode(source).value); }
  }

  ghost predicate IsListedFile(listing: Listing, path: Path) {
    exists x :: x in listing && x.0 == path && x.1.Regular?
  }

  /** A manifest that certifies its inventory, beside exactly the files it lists, each of them an
      emitted blob of the commit, and beside directories. */
  ghost predicate IsExport(tools: Tools, listing: Listing, m: Manifest, size: nat, profile: Profile,
    commit: Option<bytes>)
    requires tools.Sound()
  {
    && Certifies(tools, m, size, profile, commit)
    && (forall x :: x in listing ==> x.1.Regular? || x.1.Directory?)
    && (forall p :: p in m.allowed <==> IsListedFile(listing, p))
    && forall x :: x in listing && x.1.Regular? ==> IsFileOf(tools, m, profile, x.0, x.1)
  }

  lemma ListingPlainly(listing: Listing, allowed: seq<Path>)
    ensures ListingMatches(listing, allowed) <==>
      && (forall x :: x in listing ==> x.1.Regular? || x.1.Directory?)
      && (forall p :: p in allowed <==> IsListedFile(listing, p))
  {
    assert forall p :: p in FilesListed(listing) <==> IsListedFile(listing, p);
    assert forall p :: p in PathSet(allowed) <==> p in allowed;
  }

  lemma FileOfCatalog(tools: Tools, m: Manifest, profile: Profile, path: Path, member: Member)
    requires tools.Sound()
    ensures IsFileOf(tools, m, profile, path, member) ==> path in m.files && path in Keys(m.entries)
  {
  }

  lemma MembersPlainly(tools: Tools, listing: Listing, m: Manifest, profile: Profile)
    requires tools.Sound() && m.excluded == Exclusions(tools, profile, Keys(m.entries))
    requires forall x :: x in listing && x.1.Regular? ==> x.0 in m.allowed
    ensures MembersAccepted(tools, listing, m, profile, m.allowed)
       <==> forall x :: x in listing && x.1.Regular? ==> IsFileOf(tools, m, profile, x.0, x.1)
  {
    hide FileAccepted, IsFileOf, Exclusions, Keys;
    forall x | x in listing
      ensures IsFileOf(tools, m, profile, x.0, x.1) <==>
        x.0 in m.files && x.0 in Keys(m.entries) && FileAccepted(tools, m, profile, x.0, x.1)
    {
      FileOfCatalog(tools, m, profile, x.0, x.1);
      if x.0 in m.files && x.0 in Keys(m.entries) { FileExactly(tools, m, profile, x.0, x.1); }
    }
  }

  /** Validation accepts exactly the exports. */
  lemma ValidatesPlainly(tools: Tools, listing: Listing, m: Manifest, size: nat, profile: Profile,
    commit: Option<bytes>)
    requires tools.Sound()
    ensures Validates(tools, listing, m, size, profile, commit)
       <==> IsExport(tools, listing, m, size, profile, commit)
  {
    hide *;
    ManifestPlainly(tools, m, size, profile, commit);
    ValidatesSplit(tools, listing, m, size, profile, commit);
    if ManifestAccepted(tools, m, size, profile, commit) {
      AcceptedInventory(tools, m, size, profile, commit);
      ListingPlainly(listing, m.allowed);
      if forall p :: p in m.allowed <==> IsListedFile(listing, p) {
        ListedAreAllowed(listing, m.allowed);
        MembersPlainly(tools, listing, m, profile);
      }
    }
  }

  lemma ListedAreAllowed(listing: Listing, allowed: seq<Path>)
    requires forall p :: p in allowed <==> IsListedFile(listing, p)
    ensures forall x :: x in listing && x.1.Regular? ==> x.0 in allowed
  {
    assert forall x :: x in listing && x.1.Regular? ==> IsListedFile(listing, x.0);
  }

  lemma AcceptedInventory(tools: Tools, m: Manifest, size: nat, profile: Profile, commit: Option<bytes>)
    requires ManifestAccepted(tools, m, size, profile, commit)
    ensures m.excluded == Exclusions(tools, profile, Keys(m.entries))
    ensures m.allowed == Allowed(tools, profile, Keys(m.entries))
    ensures forall p :: p in m.allowed ==> p in m.files && p in Keys(m.entries)
  {
    hide Exclusions, Bound, Keys;
    assert forall p :: p in m.allowed ==> p in PathSet(m.allowed);
  }

  lemma ValidatesSplit(tools: Tools, listing: Listing, m: Manifest, size: nat, profile: Profile,
    commit: Option<bytes>)
    requires tools.Sound()
    ensures var allowed := Allowed(tools, profile, Keys(m.entries));
      Validates(tools, listing, m, size, profile, commit) <==>
        && ManifestAccepted(tools, m, size, profile, commit) && ListingMatches(listing, allowed)
        && MembersAccepted(tools, listing, m, profile, allowed)
    ensures IsExport(tools, listing, m, size, profile, commit) <==>
      && Certifies(tools, m, size, profile, commit)
      && (forall x :: x in listing ==> x.1.Regular? || x.1.Directory?)
      && (forall p :: p in m.allowed <==> IsListedFile(listing, p))
      && forall x :: x in listing && x.1.Regular? ==> IsFileOf(tools, m, profile, x.0, x.1)
  {
    hide ManifestAccepted, ListingMatches, MembersAccepted, Certifies, IsFileOf, IsListedFile, Allowed, Keys;
  }

  // ---- The validator itself ----

  datatype ExportError =
    | ManifestTooLarge | UrlNotCanonical | ProfileMismatch | CommitMismatch | CatalogTooLarge
    | BindingInvalid | DocumentsMissing | UnsupportedProfile | InventoryChanged | ForeignTransformation
    | SymlinkMember | NonRegularMember | AdditionalFiles | InventoryMismatch
    | MemberModeOrSize | MemberHash | Undecodable | RewriteRejected | SourceProofFailed
    | NoncanonicalTransformation | UnexpectedTransformation

  /** A directory holds one member per name. */
  ghost predicate WellListed(listing: Listing) {
    forall x, y :: x in listing && y in listing && x.0 == y.0 ==> x == y
  }

  function MemberAt(listing: Listing, path: Path): (member: Member)
    requires exists x :: x in listing && x.0 == path
    ensures (path, member) in listing
  {
    if listing[0].0 == path then listing[0].1
    else
      assert listing == [listing[0]] + listing[1..];
      MemberAt(listing[1..], path)
  }

  /** Every name below the root, refusing links and special members as they are met. */
  method ListedFiles(listing: Listing, allowed: seq<Path>) returns (r: Result<set<Path>, ExportError>)
    ensures r.Ok? ==> r.value == FilesListed(listing)
    ensures r.Ok? <==>
      |FilesListed(listing)| <= |allowed| && forall x :: x in listing ==> x.1.Regular? || x.1.Directory?
  {
    var actual: set<Path> := {};
    for i := 0 to |listing|
      invariant actual == FilesListed(listing[..i]) && |actual| <= |allowed|
      invariant forall x :: x in listing[..i] ==> x.1.Regular? || x.1.Directory?
    {
      var x := listing[i];
      assert listing[..i + 1] == listing[..i] + [x];
      ListedOneMore(listing[..i], x);
      ListedMore(listing, i + 1);
      match x.1 {
        case Symlink => return Err(SymlinkMember);
        case Special => return Err(NonRegularMember);
        case Regular(_, _) => actual := actual + {x.0};
        case Directory =>
      }
      if |actual| > |allowed| { return Err(AdditionalFiles); }
    }
    assert listing[..|listing|] == listing;
    return Ok(actual);
  }

  lemma ListedOneMore(listing: Listing, x: (Path, Member))
    ensures FilesListed(listing + [x]) == FilesListed(listing) + (if x.1.Regular? then {x.0} else {})
  {
    var more := listing + [x];
    assert x == more[|listing|];
    forall y | y in listing ensures y in more {
      var i :| 0 <= i < |listing| && listing[i] == y;
      assert more[i] == y;
    }
  }

  lemma ListedMore(listing: Listing, i: nat)
    requires i <= |listing|
    ensures |FilesListed(listing[..i])| <= |FilesListed(listing)|
  {
    SubsetSize(FilesListed(listing[..i]), FilesListed(listing));
  }

  method CheckFile(tools: Tools, m: Manifest, profile: Profile, path: Path, member: Member)
    returns (r: Option<ExportError>)
    requires tools.Sound() && path in m.files && path in Keys(m.entries)
    ensures r == None <==> FileAccepted(tools, m, profile, path, member)
  {
    var record, e, edits := m.files[path], Get(m.entries, path), Transformation(m, path);
    if !member.Regular? || |member.content| > MAX_FILE_BYTES + MEGABYTE { return Some(MemberModeOrSize); }
    if member.executable != (e.mode == MODE_EXECUTABLE) { return Some(MemberModeOrSize); }
    var emitted := member.content;
    if |emitted| != record.size || tools.sha256(emitted) != record.hash {
      return Some(MemberHash);
    }
    var source := emitted;
    if edits != [] {
      var text := tools.decode(emitted);
      if text == None { return Some(Undecodable); }
      var restored := RestoreLinks(text.value, edits);
      if restored.Err? { return Some(RewriteRejected); }
      source := tools.encode(restored.value);
    }
    assert SourceOf(tools, emitted, edits) == Some(source);
    if |source| != e.size || tools.sha256(source) != record.sourceHash || GitHash(tools.sha1, BLOB, source) != e.blob {
      return Some(SourceProofFailed);
    }
    if IsRewritten(profile, path) {
      var text := tools.decode(source);
      if text == None { return Some(Undecodable); }
      var rewritten, expected := RewriteLinks(LinkContext(tools, m, Exclusions(tools, profile, Keys(m.entries)), path),
        text.value);
      if tools.encode(rewritten) != emitted || edits != expected { return Some(NoncanonicalTransformation); }
    } else if edits != [] {
      return Some(UnexpectedTransformation);
    }
    return None;
  }

  method CheckManifest(tools: Tools, m: Manifest, size: nat, profile: Profile, expected: Option<bytes>)
    returns (r: Option<ExportError>)
    requires tools.Sound()
    ensures r == None <==> ManifestAccepted(tools, m, size, profile, expected)
    ensures r == None <==> Certifies(tools, m, size, profile, expected)
  {
    ManifestPlainly(tools, m, size, profile, expected);
    hide Certifies;
    if size > MAX_MANIFEST_BYTES { return Some(ManifestTooLarge); }
    if tools.repositoryUrl(m.url) != Some(m.url) { return Some(UrlNotCanonical); }
    if m.name != profile { return Some(ProfileMismatch); }
    if !IsOid(m.commit) || (expected.Some? && m.commit != expected.value) { return Some(CommitMismatch); }
    if !WithinLimits(m.entries) { return Some(CatalogTooLarge); }
    var treeHash := TreeHash(tools.sha1, m.entries);
    if GitHash(tools.sha1, COMMIT, m.commitObject) != m.commit
      || FirstLine(m.commitObject) != Some(TREE + [SPACE] + m.treeHash) || treeHash != Ok(m.treeHash) {
      return Some(BindingInvalid);
    }
    if !(tools.active + tools.sourceOnly <= Keys(m.entries)) { return Some(DocumentsMissing); }
    if profile == Release { return Some(UnsupportedProfile); }
    r := CheckInventory(m, Exclusions(tools, profile, Keys(m.entries)), Allowed(tools, profile, Keys(m.entries)));
  }

  method CheckInventory(m: Manifest, excluded: map<Path, Reason>, allowed: seq<Path>) returns (r: Option<ExportError>)
    ensures r == None <==> SameInventory(m, excluded, allowed)
  {
    if m.excluded != excluded || m.allowed != allowed || m.required != allowed || m.files.Keys != PathSet(allowed) {
      return Some(InventoryChanged);
    }
    if !(m.transformations.Keys <= PathSet(allowed)) { return Some(ForeignTransformation); }
    return None;
  }

  method CheckMembers(tools: Tools, listing: Listing, m: Manifest, profile: Profile, allowed: seq<Path>)
    returns (r: Option<ExportError>)
    requires tools.Sound() && WellListed(listing)
    requires forall p :: p in allowed ==> p in m.files && p in Keys(m.entries) && p in FilesListed(listing)
    ensures r == None <==> MembersAccepted(tools, listing, m, profile, allowed)
  {
    for i := 0 to |allowed|
      invariant MembersAccepted(tools, listing, m, profile, allowed[..i])
    {
      var path := allowed[i];
      assert allowed[..i + 1] == allowed[..i] + [path];
      assert path in allowed;
      ghost var x :| x in listing && x.1.Regular? && x.0 == path;
      var member := MemberAt(listing, path);
      assert (path, member) in listing && x == (path, member);
      var failure := CheckFile(tools, m, profile, path, member);
      if failure.Some? { return failure; }
    }
    assert allowed[..|allowed|] == allowed;
    return None;
  }

  method ValidateExport(tools: Tools, listing: Listing, m: Manifest, size: nat, profile: Profile,
    expected: Option<bytes>)
    returns (r: Result<seq<Path>, ExportError>)
    requires tools.Sound() && WellListed(listing)
    ensures r.Ok? <==> Validates(tools, listing, m, size, profile, expected)
    ensures r.Ok? <==> IsExport(tools, listing, m, size, profile, expected)
    ensures r.Ok? ==> r.value == m.allowed == Allowed(tools, profile, Keys(m.entries))
  {
    hide *;
    ValidatesPlainly(tools, listing, m, size, profile, expected);
    ValidatesSplit(tools, listing, m, size, profile, expected);
    var failure := CheckManifest(tools, m, size, profile, expected);
    if failure.Some? { return Err(failure.value); }
    AcceptedInventory(tools, m, size, profile, expected);
    var allowed := Allowed(tools, profile, Keys(m.entries));
    SizeOfAllowed(tools, profile, Keys(m.entries));
    ListingSplit(listing, allowed);
    var actual := ListedFiles(listing, allowed);
    if actual.Err? { return Err(actual.error); }
    if actual.value != PathSet(allowed) { return Err(InventoryMismatch); }
    failure := CheckMembers(tools, listing, m, profile, allowed);
    if failure.Some? { return Err(failure.value); }
    return Ok(allowed);
  }

  lemma ListingSplit(listing: Listing, allowed: seq<Path>)
    ensures ListingMatches(listing, allowed) <==>
      (forall x :: x in listing ==> x.1.Regular? || x.1.Directory?) && FilesListed(listing) == PathSet(allowed)
    ensures FilesListed(listing) == PathSet(allowed) ==> forall p :: p in allowed ==> p in FilesListed(listing)
  {
  }

  lemma SizeOfAllowed(tools: Tools, profile: Profile, paths: set<Path>)
    ensures |PathSet(Allowed(tools, profile, paths))| == |Allowed(tools, profile, paths)|
  {
    var left := paths - Exclusions(tools, profile, paths).Keys;
    assert PathSet(SortedPaths(left)) == left;
  }

  // ---- At most one set of files passes validation ----

  ghost function CatalogObjects(h: Sha1, entries: Catalog): set<bytes> {
    if Build(entries).Ok? && ValidNode(Build(entries).value) then Hashed(h, Build(entries).value) else {}
  }

  /** Every Git object that validating this export hashes. */
  ghost function GitObjects(tools: Tools, listing: Listing, m: Manifest): set<bytes> {
    {Object(COMMIT, m.commitObject)} + CatalogObjects(tools.sha1, m.entries) + SourceObjects(tools, listing, m)
  }

  ghost function SourceObjects(tools: Tools, listing: Listing, m: Manifest): set<bytes> {
    set x | x in listing && x.1.Regular? && SourceOf(tools, x.1.content, Transformation(m, x.0)).Some?
      :: Object(BLOB, SourceOf(tools, x.1.content, Transformation(m, x.0)).value)
  }

  lemma CommitFixesTreeHash(tools: Tools, a: Manifest, b: Manifest, objects: set<bytes>)
    requires Bound(tools, a) && Bound(tools, b) && a.commit == b.commit
    requires CollisionFree(tools.sha1, objects)
    requires {Object(COMMIT, a.commitObject), Object(COMMIT, b.commitObject)} <= objects
    ensures a.treeHash == b.treeHash
  {
    var x, y := Object(COMMIT, a.commitObject), Object(COMMIT, b.commitObject);
    ToHexInjective(tools.sha1(x), tools.sha1(y));
    assert x in objects && y in objects;
    ObjectUnique(COMMIT, a.commitObject, b.commitObject);
    FixedSplit(TREE + [SPACE], TREE + [SPACE], a.treeHash, b.treeHash);
  }

  /** The commit fixes the tree, and the tree fixes paths, modes and blobs. */
  lemma CommitFixesCatalog(tools: Tools, a: Manifest, b: Manifest, objects: set<bytes>)
    requires tools.Sound() && Bound(tools, a) && Bound(tools, b) && a.commit == b.commit
    requires CollisionFree(tools.sha1, objects)
    requires {Object(COMMIT, a.commitObject), Object(COMMIT, b.commitObject)} <= objects
    requires CatalogObjects(tools.sha1, a.entries) + CatalogObjects(tools.sha1, b.entries) <= objects
    ensures Covers(a.entries, b.entries) && Covers(b.entries, a.entries)
  {
    CommitFixesTreeHash(tools, a, b, objects);
    BuildValid(a.entries);
    BuildValid(b.entries);
    TreeHashDeterminesCatalog(tools.sha1, a.entries, b.entries);
  }

  lemma CoveredKeys(a: Catalog, b: Catalog)
    requires Covers(a, b)
    ensures Keys(a) <= Keys(b)
  {
    forall p | p in Keys(a) ensures p in Keys(b) {
      var x :| x in a && x.0 == p;
      var y :| y in b && SameFile(x, y);
    }
  }

  /** In an accepted catalogue a path has one entry only. */
  lemma OneEntryPerPath(entries: Catalog, x: (Path, Entry), y: (Path, Entry))
    requires Acceptable(entries) && x in entries && y in entries && x.0 == y.0
    ensures x == y
  {
    var i :| 0 <= i < |entries| && entries[i] == x;
    var j :| 0 <= j < |entries| && entries[j] == y;
    assert Conflict(PartsOf(x.0), PartsOf(y.0));
  }

  lemma SameEntry(a: Catalog, b: Catalog, path: Path)
    requires Covers(a, b) && Acceptable(b) && path in Keys(a) && path in Keys(b)
    ensures Get(a, path).mode == Get(b, path).mode && Get(a, path).blob == Get(b, path).blob
  {
    var x := (path, Get(a, path));
    var y :| y in b && SameFile(x, y);
    OneEntryPerPath(b, y, (path, Get(b, path)));
  }

  /** The blob fixes the source, and the source fixes the rewritten output. */
  lemma BlobFixesOutput(tools: Tools, profile: Profile, a: Manifest, b: Manifest, path: Path, x: Member, y: Member,
    objects: set<bytes>)
    requires tools.Sound() && CollisionFree(tools.sha1, objects)
    requires path in a.files && path in b.files && path in Keys(a.entries) && path in Keys(b.entries)
    requires FileAccepted(tools, a, profile, path, x) && FileAccepted(tools, b, profile, path, y)
    requires Get(a.entries, path).mode == Get(b.entries, path).mode
    requires Get(a.entries, path).blob == Get(b.entries, path).blob
    requires Exclusions(tools, profile, Keys(a.entries)) == Exclusions(tools, profile, Keys(b.entries))
    requires a.url == b.url && a.commit == b.commit
    requires Object(BLOB, SourceOf(tools, x.content, Transformation(a, path)).value) in objects
    requires Object(BLOB, SourceOf(tools, y.content, Transformation(b, path)).value) in objects
    ensures x == y
  {
    var s := SourceOf(tools, x.content, Transformation(a, path)).value;
    var t := SourceOf(tools, y.content, Transformation(b, path)).value;
    ToHexInjective(tools.sha1(Object(BLOB, s)), tools.sha1(Object(BLOB, t)));
    ObjectUnique(BLOB, s, t);
    if IsRewritten(profile, path) {
      var excluded := Exclusions(tools, profile, Keys(a.entries));
      assert LinkContext(tools, a, excluded, path) == LinkContext(tools, b, excluded, path);
    }
  }

  /** The regular files of an export: path, bytes and executable bit. */
  ghost function RegularFiles(listing: Listing): set<(Path, Member)> {
    set x | x in listing && x.1.Regular?
  }

  lemma AcceptedIn(tools: Tools, listing: Listing, m: Manifest, profile: Profile, x: (Path, Member))
    requires tools.Sound() && ListingMatches(listing, Allowed(tools, profile, Keys(m.entries)))
    requires MembersAccepted(tools, listing, m, profile, Allowed(tools, profile, Keys(m.entries)))
    requires x in listing && x.1.Regular?
    ensures x.0 in m.files && x.0 in Keys(m.entries) && FileAccepted(tools, m, profile, x.0, x.1)
    ensures Object(BLOB, SourceOf(tools, x.1.content, Transformation(m, x.0)).value) in SourceObjects(tools, listing, m)
  {
    assert x.0 in FilesListed(listing);
  }

  lemma ListedIn(listing: Listing, other: Listing, allowed: seq<Path>, x: (Path, Member)) returns (y: (Path, Member))
    requires ListingMatches(listing, allowed) && ListingMatches(other, allowed) && x in listing && x.1.Regular?
    ensures y in other && y.1.Regular? && y.0 == x.0
  {
    assert x.0 in FilesListed(listing) && x.0 in FilesListed(other);
    y :| y in other && y.1.Regular? && y.0 == x.0;
  }

  lemma SharedFile(tools: Tools, profile: Profile, listing: Listing, m: Manifest, other: Listing, n: Manifest,
    x: (Path, Member))
    requires tools.Sound() && x in listing && x.1.Regular?
    requires Covers(m.entries, n.entries) && Keys(m.entries) == Keys(n.entries) && Acceptable(n.entries)
    requires m.commit == n.commit && m.url == n.url
    requires CollisionFree(tools.sha1, SourceObjects(tools, listing, m) + SourceObjects(tools, other, n))
    requires var allowed := Allowed(tools, profile, Keys(m.entries));
      && ListingMatches(listing, allowed) && MembersAccepted(tools, listing, m, profile, allowed)
      && ListingMatches(other, allowed) && MembersAccepted(tools, other, n, profile, allowed)
    ensures x in other
  {
    var y := ListedIn(listing, other, Allowed(tools, profile, Keys(m.entries)), x);
    AcceptedIn(tools, listing, m, profile, x);
    AcceptedIn(tools, other, n, profile, y);
    SameEntry(m.entries, n.entries, x.0);
    BlobFixesOutput(tools, profile, m, n, x.0, x.1, y.1,
      SourceObjects(tools, listing, m) + SourceObjects(tools, other, n));
  }

  lemma FewerInputs<D(!new)>(h: bytes -> D, fewer: set<bytes>, inputs: set<bytes>)
    requires CollisionFree(h, inputs) && fewer <= inputs
    ensures CollisionFree(h, fewer)
  {
  }

  lemma EitherOrder<D(!new)>(h: bytes -> D, a: set<bytes>, b: set<bytes>)
    requires CollisionFree(h, a + b)
    ensures CollisionFree(h, b + a)
  {
    assert a + b == b + a;
  }

  lemma SourcesAreHashed(tools: Tools, listing: Listing, m: Manifest)
    ensures SourceObjects(tools, listing, m) <= GitObjects(tools, listing, m)
    ensures CatalogObjects(tools.sha1, m.entries) <= GitObjects(tools, listing, m)
    ensures Object(COMMIT, m.commitObject) in GitObjects(tools, listing, m)
  {
  }

  lemma BoundIsAcceptable(tools: Tools, m: Manifest)
    requires Bound(tools, m)
    ensures Acceptable(m.entries)
  {
    BuildExactly(m.entries);
  }

  lemma SharedCatalog(tools: Tools, listing: Listing, m: Manifest, other: Listing, n: Manifest)
    requires tools.Sound() && Bound(tools, m) && Bound(tools, n) && m.commit == n.commit
    requires CollisionFree(tools.sha1, GitObjects(tools, listing, m) + GitObjects(tools, other, n))
    ensures Covers(m.entries, n.entries) && Keys(m.entries) == Keys(n.entries) && Acceptable(n.entries)
    ensures CollisionFree(tools.sha1, SourceObjects(tools, listing, m) + SourceObjects(tools, other, n))
  {
    var objects := GitObjects(tools, listing, m) + GitObjects(tools, other, n);
    SourcesAreHashed(tools, listing, m);
    SourcesAreHashed(tools, other, n);
    CommitFixesCatalog(tools, m, n, objects);
    FewerInputs(tools.sha1, SourceObjects(tools, listing, m) + SourceObjects(tools, other, n), objects);
    CoveredKeys(m.entries, n.entries);
    CoveredKeys(n.entries, m.entries);
    BoundIsAcceptable(tools, n);
  }

  lemma ValidatedFilesAreShared(tools: Tools, profile: Profile,
    listing: Listing, m: Manifest, size: nat, other: Listing, n: Manifest, otherSize: nat, commit: Option<bytes>)
    requires tools.Sound()
    requires Validates(tools, listing, m, size, profile, commit)
    requires Validates(tools, other, n, otherSize, profile, commit)
    requires m.commit == n.commit && m.url == n.url
    requires CollisionFree(tools.sha1, GitObjects(tools, listing, m) + GitObjects(tools, other, n))
    ensures RegularFiles(listing) <= RegularFiles(other)
  {
    SharedCatalog(tools, listing, m, other, n);
    forall x | x in RegularFiles(listing) ensures x in other {
      SharedFile(tools, profile, listing, m, other, n, x);
    }
  }

  /** For a profile, a commit and a repository URL, validation accepts at most one set of
      emitted files, bytes and executable bits included. */
  lemma ValidationIsUnique(tools: Tools, profile: Profile,
    listing: Listing, m: Manifest, size: nat, other: Listing, n: Manifest, otherSize: nat, commit: Option<bytes>)
    requires tools.Sound() && WellListed(listing) && WellListed(other)
    requires Validates(tools, listing, m, size, profile, commit)
    requires Validates(tools, other, n, otherSize, profile, commit)
    requires m.commit == n.commit && m.url == n.url
    requires CollisionFree(tools.sha1, GitObjects(tools, listing, m) + GitObjects(tools, other, n))
    ensures RegularFiles(listing) == RegularFiles(other)
  {
    EitherOrder(tools.sha1, GitObjects(tools, listing, m), GitObjects(tools, other, n));
    ValidatedFilesAreShared(tools, profile, listing, m, size, other, n, otherSize, commit);
    ValidatedFilesAreShared(tools, profile, other, n, otherSize, listing, m, size, commit);
  }
}
