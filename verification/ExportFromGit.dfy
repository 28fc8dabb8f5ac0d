/** Writing an export from verified Git objects, and exactly when it passes the validation
    that ends it. */
module ExportFromGit {
  import opened Prelude
  import opened Paths
  import opened GitTree
  import opened TreeDigest
  import opened LinkEdits
  import opened LinkRewriting
  import opened LinkTargets
  import opened ExportProfile

  /** What Git answered for the source reference: the commit object, the `ls-tree` rows and
      the blob contents. */
  datatype GitSource = GitSource(commit: bytes, commitObject: bytes, entries: Catalog, blobs: map<bytes, bytes>)

  function RemovePrefix(s: bytes, prefix: bytes): bytes {
    if prefix <= s then s[|prefix|..] else s
  }

  /** The tree named by the commit's first line, whether or not it carries the prefix. */
  function NamedTree(source: GitSource): Option<bytes> {
    match FirstLine(source.commitObject)
    case None => None
    case Some(line) => Some(RemovePrefix(line, TREE + [SPACE]))
  }

  /** The checks of the source catalogue. */
  predicate SourceVerified(tools: Tools, source: GitSource) {
    && IsOid(source.commit)
    && (forall x :: x in source.entries ==>
          SafePath(x.0).Some? && x.0 != MANIFEST_NAME && (x.1.mode == MODE_FILE || x.1.mode == MODE_EXECUTABLE))
    && WithinLimits(source.entries)
    && NamedTree(source).Some? && TreeHashOf(tools.sha1, source.entries) == Ok(NamedTree(source).value)
    && GitHash(tools.sha1, COMMIT, source.commitObject) == source.commit
    && tools.active + tools.sourceOnly <= Keys(source.entries)
  }

  /** The same in literal bytes: no file is called `neocortex-export-profile.json`, every mode is
      100644 or 100755, and the first line of the commit, with or without "tree ", is the hash of
      the catalogue. */
  ghost predicate IsVerified(tools: Tools, source: GitSource) {
    && |source.commit| == 40 && (forall b :: b in source.commit ==> 48 <= b <= 57 || 97 <= b <= 102)
    && IsObjectName(tools.sha1, source.commit, [99, 111, 109, 109, 105, 116, 32], source.commitObject)
    && (forall x :: x in source.entries ==> Admissible(x.0, x.1) && x.0 != [110, 101, 111, 99, 111, 114, 116, 101, 120,
          45, 101, 120, 112, 111, 114, 116, 45, 112, 114, 111, 102, 105, 108, 101, 46, 106, 115, 111, 110])
    && IsBounded(source.entries) && tools.active + tools.sourceOnly <= Keys(source.entries)
    && exists tree: bytes :: TreeHashOf(tools.sha1, source.entries) == Ok(tree) && NamesTree(source.commitObject, tree)
  }

  ghost predicate NamesTree(data: bytes, tree: bytes) {
    || IsFirstLine(data, [116, 114, 101, 101, 32] + tree)
    || (IsFirstLine(data, tree) && !([116, 114, 101, 101, 32] <= tree))
  }

  lemma NamedTreeExactly(source: GitSource, tree: bytes)
    ensures NamedTree(source) == Some(tree) <==> NamesTree(source.commitObject, tree)
  {
    hide FirstLine, IsFirstLine;
    var prefix: bytes := [116, 114, 101, 101, 32];
    assert TREE + [SPACE] == prefix;
    FirstLineExactly(source.commitObject, prefix + tree);
    FirstLineExactly(source.commitObject, tree);
    assert RemovePrefix(prefix + tree, prefix) == tree;
    if NamedTree(source) == Some(tree) {
      var line := FirstLine(source.commitObject).value;
      if prefix <= line { assert line == prefix + tree; }
    }
  }

  lemma SourceVerifiedExactly(tools: Tools, source: GitSource)
    ensures SourceVerified(tools, source) <==> IsVerified(tools, source)
  {
    hide NamedTree, NamesTree, TreeHashOf, SafePath, Admissible, Decimal, Sizes, SizeSum, Keys;
    forall tree: bytes ensures NamedTree(source) == Some(tree) <==> NamesTree(source.commitObject, tree) {
      NamedTreeExactly(source, tree);
    }
    SizeSumIsSum(source.entries);
    assert COMMIT + [SPACE] == [99, 111, 109, 109, 105, 116, 32];
    if TreeHashOf(tools.sha1, source.entries).Ok? { HashedIsAdmissible(tools, source.entries); }
  }

  /** A catalogue that has a tree hash is acceptable, so each of its entries is. */
  lemma HashedIsAdmissible(tools: Tools, entries: Catalog)
    requires TreeHashOf(tools.sha1, entries).Ok?
    ensures forall x :: x in entries ==>
      && Admissible(x.0, x.1) && SafePath(x.0).Some? && (x.1.mode == MODE_FILE || x.1.mode == MODE_EXECUTABLE)
  {
    hide Build;
    BuildExactly(entries);
    forall x | x in entries ensures SafePath(x.0).Some? && ValidEntry(x.1) { AdmissibleExactly(x.0, x.1); }
  }

  /** One emitted file: its source, its bytes and its recorded edits. */
  datatype Emission = Emission(source: bytes, emitted: bytes, edits: Edits)

  function ExportContext(tools: Tools, source: GitSource, profile: Profile, url: bytes, path: Path): Context {
    Context(tools.markdown(url, source.commit), tools.pathText(path),
      set p | p in Exclusions(tools, profile, Keys(source.entries)).Keys :: tools.pathText(p))
  }

  function Emit(tools: Tools, source: GitSource, profile: Profile, url: bytes, path: Path): Option<Emission>
    requires tools.Sound() && path in Keys(source.entries)
  {
    var e := Get(source.entries, path);
    if e.blob !in source.blobs then None
    else
      var content := source.blobs[e.blob];
      if |content| != e.size || GitHash(tools.sha1, BLOB, content) != e.blob then None
      else if !IsRewritten(profile, path) then Some(Emission(content, content, []))
      else
        match tools.decode(content)
        case None => None
        case Some(text) =>
          var edits := FoundEdits(ExportContext(tools, source, profile, url, path), text);
          Some(Emission(content, tools.encode(ApplyReversed(text, edits)), edits))
  }

  function ExportedPaths(tools: Tools, source: GitSource, profile: Profile): seq<Path> {
    Allowed(tools, profile, Keys(source.entries))
  }

  /** The manifest and the files written for the given paths. */
  ghost predicate Describes(tools: Tools, source: GitSource, profile: Profile, url: bytes, paths: seq<Path>,
    files: map<Path, FileRecord>, transformations: map<Path, Edits>, written: map<Path, Member>)
    requires tools.Sound()
  {
    && files.Keys == written.Keys == PathSet(paths)
    && transformations.Keys <= PathSet(paths)
    && forall p :: p in paths ==> DescribesAt(tools, source, profile, url, files, transformations, written, p)
  }

  ghost predicate DescribesAt(tools: Tools, source: GitSource, profile: Profile, url: bytes,
    files: map<Path, FileRecord>, transformations: map<Path, Edits>, written: map<Path, Member>, p: Path)
    requires tools.Sound()
  {
    && p in Keys(source.entries) && p in files && p in written
    && Emit(tools, source, profile, url, p).Some?
    && DescribesFile(tools, Get(source.entries, p), Emit(tools, source, profile, url, p).value,
         files[p], (if p in transformations then transformations[p] else []), written[p])
  }

  predicate DescribesFile(tools: Tools, e: Entry, x: Emission, record: FileRecord, edits: Edits, member: Member) {
    && record == FileRecord(tools.sha256(x.source), tools.sha256(x.emitted), |x.emitted|)
    && edits == x.edits
    && member == Regular(x.emitted, e.mode == MODE_EXECUTABLE)
  }

  lemma DescribesElsewhere(tools: Tools, source: GitSource, profile: Profile, url: bytes, p: Path, path: Path,
    record: FileRecord, edits: Edits, member: Member,
    files: map<Path, FileRecord>, transformations: map<Path, Edits>, written: map<Path, Member>)
    requires tools.Sound() && p != path && DescribesAt(tools, source, profile, url, files, transformations, written, p)
    ensures DescribesAt(tools, source, profile, url, files[path := record],
      if edits != [] then transformations[path := edits] else transformations, written[path := member], p)
  {
  }

  lemma DescribesHere(tools: Tools, source: GitSource, profile: Profile, url: bytes, path: Path, record: FileRecord,
    edits: Edits, member: Member,
    files: map<Path, FileRecord>, transformations: map<Path, Edits>, written: map<Path, Member>)
    requires tools.Sound() && path in Keys(source.entries) && path !in transformations
    requires Emit(tools, source, profile, url, path).Some?
    requires DescribesFile(tools, Get(source.entries, path), Emit(tools, source, profile, url, path).value,
      record, edits, member)
    ensures DescribesAt(tools, source, profile, url, files[path := record],
      if edits != [] then transformations[path := edits] else transformations, written[path := member], path)
  {
  }

  /** What the loop has produced so far. */
  datatype Output = Output(files: map<Path, FileRecord>, transformations: map<Path, Edits>, written: map<Path, Member>)

  function Extended(o: Output, path: Path, record: FileRecord, edits: Edits, member: Member): Output {
    var transformations := if edits != [] then o.transformations[path := edits] else o.transformations;
    Output(o.files[path := record], transformations, o.written[path := member])
  }

  lemma ExtendedKeys(o: Output, paths: seq<Path>, path: Path, record: FileRecord, edits: Edits, member: Member)
    requires o.files.Keys == o.written.Keys == PathSet(paths) && o.transformations.Keys <= PathSet(paths)
    ensures var more := Extended(o, path, record, edits, member);
      && more.files.Keys == more.written.Keys == PathSet(paths + [path])
      && more.transformations.Keys <= PathSet(paths + [path])
  {
    assert PathSet(paths + [path]) == PathSet(paths) + {path};
  }

  lemma DescribesOneMore(tools: Tools, source: GitSource, profile: Profile, url: bytes, paths: seq<Path>, path: Path,
    record: FileRecord, edits: Edits, member: Member, o: Output)
    requires tools.Sound() && Describes(tools, source, profile, url, paths, o.files, o.transformations, o.written)
    requires path in Keys(source.entries) && path !in paths && Emit(tools, source, profile, url, path).Some?
    requires DescribesFile(tools, Get(source.entries, path), Emit(tools, source, profile, url, path).value,
      record, edits, member)
    ensures var more := Extended(o, path, record, edits, member);
      Describes(tools, source, profile, url, paths + [path], more.files, more.transformations, more.written)
  {
    var more := Extended(o, path, record, edits, member);
    ExtendedKeys(o, paths, path, record, edits, member);
    assert path !in o.transformations;
    DescribesHere(tools, source, profile, url, path, record, edits, member, o.files, o.transformations, o.written);
    forall p | p in paths
      ensures DescribesAt(tools, source, profile, url, more.files, more.transformations, more.written, p)
    {
      DescribesElsewhere(tools, source, profile, url, p, path, record, edits, member, o.files, o.transformations,
        o.written);
    }
  }

  lemma FaultsInTurn(fails: nat -> bool, n: nat)
    ensures NoFault(fails, 0, n + 2) <==> !fails(0) && NoFault(fails, 1, n + 1) && !fails(n + 1)
  {
    if !fails(0) && NoFault(fails, 1, n + 1) && !fails(n + 1) {
      forall t: nat | t < n + 2 ensures !fails(t) {
        assert t == 0 || t == n + 1 || 1 <= t < n + 1;
      }
    }
  }

  /** The loop that reads, checks, rewrites and writes every allowed file; the operating system
      may fail any of the writes, which are numbered from 1. */
  method ExportFiles(tools: Tools, source: GitSource, profile: Profile, url: bytes, allowed: seq<Path>,
    fails: nat -> bool)
    returns (ok: bool, files: map<Path, FileRecord>, transformations: map<Path, Edits>, written: map<Path, Member>)
    requires tools.Sound() && Distinct(allowed) && forall p :: p in allowed ==> p in Keys(source.entries)
    ensures ok <==>
      (forall p :: p in allowed ==> Emit(tools, source, profile, url, p).Some?) && NoFault(fails, 1, |allowed| + 1)
    ensures ok ==> Describes(tools, source, profile, url, allowed, files, transformations, written)
  {
    hide Emit, DescribesFile;
    ok, files, transformations, written := true, map[], map[], map[];
    for i := 0 to |allowed|
      invariant Describes(tools, source, profile, url, allowed[..i], files, transformations, written)
      invariant NoFault(fails, 1, i + 1)
    {
      var path := allowed[i];
      assert allowed[..i + 1] == allowed[..i] + [path] && path in allowed;
      var emission := EmitFile(tools, source, profile, url, path);
      if emission == None || fails(i + 1) {
        ok := false;
        return;
      }
      var e, x := Get(source.entries, path), emission.value;
      var record := FileRecord(tools.sha256(x.source), tools.sha256(x.emitted), |x.emitted|);
      var member := Regular(x.emitted, e.mode == MODE_EXECUTABLE);
      var o := Output(files, transformations, written);
      DescribesOneMore(tools, source, profile, url, allowed[..i], path, record, x.edits, member, o);
      files := files[path := record];
      transformations := if x.edits != [] then transformations[path := x.edits] else transformations;
      written := written[path := member];
    }
    assert allowed[..|allowed|] == allowed;
  }

  method EmitFile(tools: Tools, source: GitSource, profile: Profile, url: bytes, path: Path)
    returns (r: Option<Emission>)
    requires tools.Sound() && path in Keys(source.entries)
    ensures r == Emit(tools, source, profile, url, path)
  {
    var e := Get(source.entries, path);
    if e.blob !in source.blobs { return None; }
    var content := source.blobs[e.blob];
    if |content| != e.size || GitHash(tools.sha1, BLOB, content) != e.blob { return None; }
    if !IsRewritten(profile, path) { return Some(Emission(content, content, [])); }
    var text := tools.decode(content);
    if text == None { return None; }
    var rewritten, edits := RewriteLinks(ExportContext(tools, source, profile, url, path), text.value);
    return Some(Emission(content, tools.encode(rewritten), edits));
  }

  /** The manifest that the export writes. */
  function ExportManifest(tools: Tools, source: GitSource, profile: Profile, url: bytes,
    files: map<Path, FileRecord>, transformations: map<Path, Edits>): Manifest
    requires NamedTree(source).Some?
  {
    var allowed := ExportedPaths(tools, source, profile);
    Manifest(profile, url, source.commit, source.commitObject, NamedTree(source).value, source.entries,
      Exclusions(tools, profile, Keys(source.entries)), allowed, allowed, files, transformations)
  }

  /** Where the export goes: a resolved path, by components, and whether something is there. */
  datatype Target = Target(path: seq<bytes>, occupied: bool)

  /** The destination is new, and neither in the source checkout nor around it. */
  predicate IsNewAndOutside(target: Target, repository: seq<bytes>) {
    !target.occupied && !(repository <= target.path) && !(target.path <= repository)
  }

  lemma ManifestRecords(tools: Tools, source: GitSource, profile: Profile, url: bytes,
    files: map<Path, FileRecord>, transformations: map<Path, Edits>)
    requires NamedTree(source).Some?
    ensures ExportManifest(tools, source, profile, url, files, transformations).files == files
    ensures ExportManifest(tools, source, profile, url, files, transformations).transformations == transformations
  {
  }

  lemma ExportedPathsAreThere(tools: Tools, source: GitSource, profile: Profile)
    ensures Distinct(ExportedPaths(tools, source, profile))
    ensures forall p :: p in ExportedPaths(tools, source, profile) ==> p in Keys(source.entries)
  {
  }

  /** Making the directory (operation 0), every allowed file, and the manifest that describes
      them; any of these may fail. */
  method WriteExport(tools: Tools, source: GitSource, profile: Profile, url: bytes, fails: nat -> bool)
    returns (r: Option<(Manifest, map<Path, Member>)>)
    requires tools.Sound() && NamedTree(source).Some?
    ensures r.Some? <==>
      && NoFault(fails, 0, |ExportedPaths(tools, source, profile)| + 2)
      && forall p :: p in ExportedPaths(tools, source, profile) ==> Emit(tools, source, profile, url, p).Some?
    ensures r.Some? ==>
      var (m, written) := r.value;
      && m == ExportManifest(tools, source, profile, url, m.files, m.transformations)
      && Describes(tools, source, profile, url, ExportedPaths(tools, source, profile),
           m.files, m.transformations, written)
  {
    hide *;
    var allowed := ExportedPaths(tools, source, profile);
    ExportedPathsAreThere(tools, source, profile);
    FaultsInTurn(fails, |allowed|);
    if fails(0) { return None; }
    var ok, files, transformations, written := ExportFiles(tools, source, profile, url, allowed, fails);
    if !ok || fails(|allowed| + 1) { return None; }
    ManifestRecords(tools, source, profile, url, files, transformations);
    return Some((ExportManifest(tools, source, profile, url, files, transformations), written));
  }

  // ---- What the export means ----

  /** The blob is there under its name and with its size, and is text if its links are rewritten. */
  ghost predicate IsReadable(tools: Tools, source: GitSource, profile: Profile, path: Path)
    requires path in Keys(source.entries)
  {
    var e := Get(source.entries, path);
    && e.blob in source.blobs && |source.blobs[e.blob]| == e.size
    && IsObjectName(tools.sha1, e.blob, [98, 108, 111, 98, 32], source.blobs[e.blob])
    && (IsMarkdown(profile, path) ==> tools.decode(source.blobs[e.blob]).Some?)
  }

  lemma EmitExactly(tools: Tools, source: GitSource, profile: Profile, url: bytes, path: Path)
    requires tools.Sound() && path in Keys(source.entries)
    ensures Emit(tools, source, profile, url, path).Some? <==> IsReadable(tools, source, profile, path)
  {
    hide FoundEdits, GitHash, IsObjectName, IsMarkdown, IsRewritten;
    MarkdownExactly(profile, path);
    var e := Get(source.entries, path);
    if e.blob in source.blobs { ObjectNamePlainly(tools, e.blob, source.blobs[e.blob]); }
  }

  /** The manifest and the files of the given commit: the profile divides the catalogue, and
      every kept path is emitted from its blob. */
  ghost predicate IsExportOf(tools: Tools, source: GitSource, profile: Profile, url: bytes, m: Manifest,
    written: map<Path, Member>)
    requires tools.Sound()
  {
    && m.name == profile && m.url == url && m.commit == source.commit && m.commitObject == source.commitObject
    && NamesTree(source.commitObject, m.treeHash) && m.entries == source.entries
    && Divides(tools, profile, Keys(source.entries), m.excluded, written.Keys)
    && Ascends(m.allowed) && m.required == m.allowed && PathSet(m.allowed) == m.files.Keys == written.Keys
    && m.transformations.Keys <= written.Keys
    && forall p :: p in written ==> IsEmittedFrom(tools, source, profile, m, p, written[p])
  }

  ghost predicate IsEmittedFrom(tools: Tools, source: GitSource, profile: Profile, m: Manifest, path: Path,
    member: Member)
    requires tools.Sound()
  {
    && path in Keys(source.entries) && path in m.files && Get(source.entries, path).blob in source.blobs
    && IsEmitted(tools, m, profile, path, Get(source.entries, path),
         source.blobs[Get(source.entries, path).blob], member)
  }

  lemma DescribedIsEmitted(tools: Tools, source: GitSource, profile: Profile, url: bytes, m: Manifest, path: Path,
    written: map<Path, Member>)
    requires tools.Sound() && m.url == url && m.commit == source.commit
    requires m.excluded == Exclusions(tools, profile, Keys(source.entries))
    requires DescribesAt(tools, source, profile, url, m.files, m.transformations, written, path)
    ensures IsEmittedFrom(tools, source, profile, m, path, written[path])
  {
    hide FoundEdits, GitHash, IsObjectName, IsMarkdown, IsRewritten, Exclusions, Tools.Sound;
    MarkdownExactly(profile, path);
    var e := Get(source.entries, path);
    ObjectNamePlainly(tools, e.blob, source.blobs[e.blob]);
    var ctx := ExportContext(tools, source, profile, url, path);
    assert ctx == Context(tools.markdown(m.url, m.commit), tools.pathText(path),
        set p | p in m.excluded :: tools.pathText(p));
  }

  lemma DescribedIsExport(tools: Tools, source: GitSource, profile: Profile, url: bytes, m: Manifest,
    written: map<Path, Member>)
    requires tools.Sound() && NamedTree(source).Some?
    requires m == ExportManifest(tools, source, profile, url, m.files, m.transformations)
    requires Describes(tools, source, profile, url, ExportedPaths(tools, source, profile), m.files, m.transformations,
      written)
    ensures IsExportOf(tools, source, profile, url, m, written)
  {
    hide Divides, Ascends, Exclusions, DescribesAt, IsEmittedFrom, Allowed, NamesTree, NamedTree;
    NamedTreeExactly(source, m.treeHash);
    ProfileDivides(tools, profile, Keys(source.entries));
    forall p | p in written ensures IsEmittedFrom(tools, source, profile, m, p, written[p]) {
      assert p in PathSet(ExportedPaths(tools, source, profile));
      DescribedIsEmitted(tools, source, profile, url, m, p, written);
    }
  }

  /** Everything that has to go right: a new destination outside the checkout and not around it,
      a source that verifies, the given paths readable, and each write. */
  ghost predicate IsExportable(tools: Tools, source: GitSource, profile: Profile, repository: seq<bytes>,
    target: Target, fails: nat -> bool, kept: set<Path>)
  {
    && !target.occupied && (forall rest :: target.path != repository + rest && repository != target.path + rest)
    && IsVerified(tools, source) && (profile == Checkout || profile == Sanitized)
    && (forall p :: p in kept ==> p in Keys(source.entries) && IsReadable(tools, source, profile, p))
    && forall t: nat :: t < |kept| + 2 ==> !fails(t)
  }

  lemma OutsideExactly(target: Target, repository: seq<bytes>)
    ensures IsNewAndOutside(target, repository) <==>
      !target.occupied && forall rest :: target.path != repository + rest && repository != target.path + rest
  {
    if repository <= target.path { assert target.path == repository + target.path[|repository|..]; }
    if target.path <= repository { assert repository == target.path + repository[|target.path|..]; }
  }

  /** The guards of the export, for the division that the profile makes. */
  lemma ExportableExactly(tools: Tools, source: GitSource, profile: Profile, url: bytes, repository: seq<bytes>,
    target: Target, fails: nat -> bool)
    requires tools.Sound()
    ensures var paths := ExportedPaths(tools, source, profile);
      IsExportable(tools, source, profile, repository, target, fails, PathSet(paths)) <==>
        && IsNewAndOutside(target, repository) && SourceVerified(tools, source) && profile != Release
        && NoFault(fails, 0, |paths| + 2)
        && forall p :: p in paths ==> Emit(tools, source, profile, url, p).Some?
  {
    hide IsVerified, SourceVerified, IsNewAndOutside, Emit, IsReadable, ExportedPaths;
    var paths := ExportedPaths(tools, source, profile);
    ExportedPathsAreThere(tools, source, profile);
    OutsideExactly(target, repository);
    SourceVerifiedExactly(tools, source);
    ExportedSize(tools, source, profile);
    forall p | p in paths
      ensures Emit(tools, source, profile, url, p).Some? <==> IsReadable(tools, source, profile, p)
    {
      EmitExactly(tools, source, profile, url, p);
    }
    assert forall p :: p in PathSet(paths) <==> p in paths;
  }

  lemma ExportedSize(tools: Tools, source: GitSource, profile: Profile)
    ensures var paths := ExportedPaths(tools, source, profile); |PathSet(paths)| == |paths|
  {
    SizeOfAllowed(tools, profile, Keys(source.entries));
  }

  /** The profile divides a catalogue in one way, so a statement about its division is one about
      the exported paths. */
  lemma ExportedDivision(tools: Tools, source: GitSource, profile: Profile, excluded: map<Path, Reason>,
    kept: set<Path>)
    ensures var paths := Keys(source.entries); var exported := PathSet(ExportedPaths(tools, source, profile));
      && Divides(tools, profile, paths, Exclusions(tools, profile, paths), exported)
      && (Divides(tools, profile, paths, excluded, kept) ==> kept == exported)
  {
    hide Divides, Exclusions, Allowed;
    var paths := Keys(source.entries);
    var exclusions, exported := Exclusions(tools, profile, paths), PathSet(ExportedPaths(tools, source, profile));
    ProfileDivides(tools, profile, paths);
    if Divides(tools, profile, paths, excluded, kept) {
      OneDivision(tools, profile, paths, excluded, kept, exclusions, exported);
    }
  }

  lemma DivisionExists(tools: Tools, source: GitSource, profile: Profile, repository: seq<bytes>, target: Target,
    fails: nat -> bool)
    ensures
      (exists excluded, kept ::
        && Divides(tools, profile, Keys(source.entries), excluded, kept)
        && IsExportable(tools, source, profile, repository, target, fails, kept))
      <==>
      IsExportable(tools, source, profile, repository, target, fails,
        PathSet(ExportedPaths(tools, source, profile)))
  {
    hide *;
    ExportedDivision(tools, source, profile, map[], {});
    forall excluded, kept | Divides(tools, profile, Keys(source.entries), excluded, kept)
      ensures kept == PathSet(ExportedPaths(tools, source, profile))
    {
      ExportedDivision(tools, source, profile, excluded, kept);
    }
  }

  /** The export up to its final validation: nothing is written unless the destination is new
      and outside and the source verifies, and then every allowed file is, with the manifest. */
  method Export(tools: Tools, source: GitSource, profile: Profile, requestedUrl: bytes,
    repository: seq<bytes>, target: Target, fails: nat -> bool)
    returns (r: Option<(Manifest, map<Path, Member>)>)
    requires tools.Sound()
    ensures r.Some? <==>
      && tools.repositoryUrl(requestedUrl).Some? && IsNewAndOutside(target, repository)
      && SourceVerified(tools, source) && profile != Release
      && NoFault(fails, 0, |ExportedPaths(tools, source, profile)| + 2)
      && forall p :: p in ExportedPaths(tools, source, profile) ==>
           Emit(tools, source, profile, tools.repositoryUrl(requestedUrl).value, p).Some?
    ensures r.Some? ==>
      var (m, written) := r.value; var url := tools.repositoryUrl(requestedUrl).value;
      && m == ExportManifest(tools, source, profile, url, m.files, m.transformations)
      && Describes(tools, source, profile, url, ExportedPaths(tools, source, profile),
           m.files, m.transformations, written)
    ensures r.Some? <==> tools.repositoryUrl(requestedUrl).Some? && exists excluded, kept ::
      && Divides(tools, profile, Keys(source.entries), excluded, kept)
      && IsExportable(tools, source, profile, repository, target, fails, kept)
    ensures r.Some? ==>
      IsExportOf(tools, source, profile, tools.repositoryUrl(requestedUrl).value, r.value.0, r.value.1)
  {
    ghost var requested := tools.repositoryUrl(requestedUrl);
    if requested.Some? {
      ExportableExactly(tools, source, profile, requested.value, repository, target, fails);
      DivisionExists(tools, source, profile, repository, target, fails);
    }
    hide Emit, Describes, IsNewAndOutside, NoFault, ExportedPaths, ExportManifest, NamedTree;
    hide Divides, IsExportable, IsExportOf, IsVerified;
    var url := tools.repositoryUrl(requestedUrl);
    if url == None || !IsNewAndOutside(target, repository) { return None; }
    if !SourceVerified(tools, source) || profile == Release { return None; }
    r := WriteExport(tools, source, profile, url.value, fails);
    if r.Some? { DescribedIsExport(tools, source, profile, url.value, r.value.0, r.value.1); }
  }

  /** A directory holding the written files, and otherwise only directories. */
  ghost predicate Holds(listing: Listing, written: map<Path, Member>) {
    && WellListed(listing)
    && (forall x :: x in listing ==> x.1.Directory? || (x.1.Regular? && x.0 in written && written[x.0] == x.1))
    && (forall p :: p in written ==> (p, written[p]) in listing)
  }

  /** What an export must meet, besides its own checks, to pass the final validation. */
  ghost predicate Exportable(tools: Tools, source: GitSource, profile: Profile, url: bytes, manifestSize: nat)
    requires tools.Sound()
  {
    && manifestSize <= MAX_MANIFEST_BYTES
    && (FirstLine(source.commitObject).Some? && TREE + [SPACE] <= FirstLine(source.commitObject).value)
    && forall p :: p in ExportedPaths(tools, source, profile) ==>
      FileExportable(Emit(tools, source, profile, url, p))
  }

  ghost predicate FileExportable(x: Option<Emission>) {
    x.Some? ==> |x.value.emitted| <= MAX_FILE_BYTES + MEGABYTE && Disjoint(x.value.edits)
  }

  /** One written file is accepted exactly when it is small enough and its rewritten
      targets are disjoint. */
  lemma FileValidatesExactly(tools: Tools, source: GitSource, profile: Profile, url: bytes, m: Manifest, path: Path,
    member: Member)
    requires tools.Sound() && path in Keys(source.entries) && path in m.files
    requires m.url == url && m.commit == source.commit && m.entries == source.entries
    requires Emit(tools, source, profile, url, path).Some?
    requires DescribesFile(tools, Get(source.entries, path), Emit(tools, source, profile, url, path).value,
      m.files[path], Transformation(m, path), member)
    ensures FileAccepted(tools, m, profile, path, member) <==> FileExportable(Emit(tools, source, profile, url, path))
  {
    var x := Emit(tools, source, profile, url, path).value;
    if IsRewritten(profile, path) {
      var ctx := ExportContext(tools, source, profile, url, path);
      assert ctx == LinkContext(tools, m, Exclusions(tools, profile, Keys(m.entries)), path);
      RewrittenFile(tools, ctx, x.source, tools.decode(x.source).value);
    } else {
      assert Disjoint([]);
    }
  }

  lemma BoundExactly(tools: Tools, source: GitSource, profile: Profile, url: bytes,
    files: map<Path, FileRecord>, transformations: map<Path, Edits>)
    requires SourceVerified(tools, source)
    ensures Bound(tools, ExportManifest(tools, source, profile, url, files, transformations))
       <==> TREE + [SPACE] <= FirstLine(source.commitObject).value
  {
    var line, prefix := FirstLine(source.commitObject).value, TREE + [SPACE];
    if prefix <= line {
      assert line == prefix + line[|prefix|..];
    } else {
      assert forall tree: bytes :: prefix <= prefix + tree;
    }
  }

  lemma ManifestAcceptedExactly(tools: Tools, source: GitSource, profile: Profile, url: bytes, size: nat,
    files: map<Path, FileRecord>, transformations: map<Path, Edits>)
    requires SourceVerified(tools, source) && profile != Release && tools.repositoryUrl(url) == Some(url)
    requires files.Keys == PathSet(ExportedPaths(tools, source, profile))
    requires transformations.Keys <= PathSet(ExportedPaths(tools, source, profile))
    ensures ManifestAccepted(tools, ExportManifest(tools, source, profile, url, files, transformations), size, profile,
        Some(source.commit))
       <==> size <= MAX_MANIFEST_BYTES && TREE + [SPACE] <= FirstLine(source.commitObject).value
  {
    BoundExactly(tools, source, profile, url, files, transformations);
    var m := ExportManifest(tools, source, profile, url, files, transformations);
    assert InventoryMatches(tools, m, profile);
  }

  lemma HeldFilesMatch(listing: Listing, written: map<Path, Member>, paths: seq<Path>)
    requires Holds(listing, written) && written.Keys == PathSet(paths) && forall p :: p in written ==>
      written[p].Regular?
    ensures ListingMatches(listing, paths)
  {
    forall p | p in PathSet(paths) ensures p in FilesListed(listing) {
      assert (p, written[p]) in listing;
    }
  }

  lemma WrittenMember(tools: Tools, source: GitSource, profile: Profile, url: bytes, m: Manifest,
    paths: seq<Path>, written: map<Path, Member>, p: Path)
    requires tools.Sound() && p in paths
    requires Describes(tools, source, profile, url, paths, m.files, m.transformations, written)
    requires m.url == url && m.commit == source.commit && m.entries == source.entries
    ensures p in m.files && p in Keys(m.entries) && p in written && written[p].Regular?
    ensures FileAccepted(tools, m, profile, p, written[p]) <==> FileExportable(Emit(tools, source, profile, url, p))
  {
    assert p in PathSet(paths);
    FileValidatesExactly(tools, source, profile, url, m, p, written[p]);
  }

  lemma HeldMember(tools: Tools, source: GitSource, profile: Profile, url: bytes, listing: Listing, m: Manifest,
    paths: seq<Path>, written: map<Path, Member>, x: (Path, Member))
    requires tools.Sound() && Holds(listing, written) && x in listing && x.1.Regular? && x.0 in paths
    requires Describes(tools, source, profile, url, paths, m.files, m.transformations, written)
    requires m.url == url && m.commit == source.commit && m.entries == source.entries
    ensures x.0 in m.files && x.0 in Keys(m.entries)
    ensures FileAccepted(tools, m, profile, x.0, x.1) <==> FileExportable(Emit(tools, source, profile, url, x.0))
  {
    WrittenMember(tools, source, profile, url, m, paths, written, x.0);
    assert x.1 == written[x.0];
  }

  /** Acceptance of every listed member is exportability of every path, file by file. */
  lemma MembersAcceptedExactly(tools: Tools, source: GitSource, profile: Profile, url: bytes, listing: Listing,
    m: Manifest, paths: seq<Path>)
    requires tools.Sound() && forall p :: p in paths ==> p in Keys(source.entries)
    requires forall x :: x in listing && x.1.Regular? && x.0 in paths ==>
      && x.0 in m.files && x.0 in Keys(m.entries)
      && (FileAccepted(tools, m, profile, x.0, x.1) <==> FileExportable(Emit(tools, source, profile, url, x.0)))
    requires forall p :: p in paths ==> p in FilesListed(listing)
    ensures MembersAccepted(tools, listing, m, profile, paths)
       <==> forall p :: p in paths ==> FileExportable(Emit(tools, source, profile, url, p))
  {
    if MembersAccepted(tools, listing, m, profile, paths) {
      forall p | p in paths ensures FileExportable(Emit(tools, source, profile, url, p)) {
        assert p in FilesListed(listing);
        var x :| x in listing && x.1.Regular? && x.0 == p;
      }
    }
  }

  /** The written files, listed, are accepted exactly when each is exportable. */
  lemma HeldMembersExactly(tools: Tools, source: GitSource, profile: Profile, url: bytes, listing: Listing, m: Manifest,
    paths: seq<Path>, written: map<Path, Member>)
    requires tools.Sound() && Holds(listing, written)
    requires Describes(tools, source, profile, url, paths, m.files, m.transformations, written)
    requires m.url == url && m.commit == source.commit && m.entries == source.entries
    ensures ListingMatches(listing, paths)
    ensures MembersAccepted(tools, listing, m, profile, paths)
       <==> forall p :: p in paths ==> FileExportable(Emit(tools, source, profile, url, p))
  {
    forall p | p in written ensures written[p].Regular? {
      WrittenMember(tools, source, profile, url, m, paths, written, p);
    }
    HeldFilesMatch(listing, written, paths);
    forall x | x in listing && x.1.Regular? && x.0 in paths
      ensures x.0 in m.files && x.0 in Keys(m.entries)
      ensures FileAccepted(tools, m, profile, x.0, x.1) <==> FileExportable(Emit(tools, source, profile, url, x.0))
    {
      HeldMember(tools, source, profile, url, listing, m, paths, written, x);
    }
    MembersAcceptedExactly(tools, source, profile, url, listing, m, paths);
  }

  /** An export that got through its own checks passes the validation that ends it exactly
      when the manifest and every emitted file are small enough, the commit's first line
      names the tree, and no rewritten Markdown file has overlapping targets. */
  lemma ExportValidatesExactly(tools: Tools, source: GitSource, profile: Profile, url: bytes, size: nat,
    listing: Listing, files: map<Path, FileRecord>, transformations: map<Path, Edits>, written: map<Path, Member>)
    requires tools.Sound() && SourceVerified(tools, source) && profile != Release
    requires tools.repositoryUrl(url) == Some(url)
    requires Describes(tools, source, profile, url, ExportedPaths(tools, source, profile),
      files, transformations, written)
    requires Holds(listing, written)
    ensures Validates(tools, listing, ExportManifest(tools, source, profile, url, files, transformations), size,
        profile, Some(source.commit))
       <==> Exportable(tools, source, profile, url, size)
  {
    var m := ExportManifest(tools, source, profile, url, files, transformations);
    ManifestAcceptedExactly(tools, source, profile, url, size, files, transformations);
    var paths := ExportedPaths(tools, source, profile);
    HeldMembersExactly(tools, source, profile, url, listing, m, paths, written);
  }

  // ---- Inputs that are exported and then refused ----

  /** A root document of the sanitized profile, whose blob is the given text. */
  ghost predicate Holding(tools: Tools, source: GitSource, path: Path, content: bytes, text: string)
    requires tools.Sound()
  {
    && path in Keys(source.entries) && path in ExportedPaths(tools, source, Sanitized) && IsRewritten(Sanitized, path)
    && Get(source.entries, path).blob in source.blobs
    && source.blobs[Get(source.entries, path).blob] == content
    && |content| == Get(source.entries, path).size
    && GitHash(tools.sha1, BLOB, content) == Get(source.entries, path).blob
    && tools.decode(content) == Some(text)
    && AGENTS in Keys(source.entries) && tools.pathText(AGENTS) == "AGENTS.md"
  }

  lemma HoldingEmits(tools: Tools, source: GitSource, url: bytes, path: Path, content: bytes, text: string)
    requires tools.Sound() && Holding(tools, source, path, content, text)
    ensures var ctx := ExportContext(tools, source, Sanitized, url, path); var edits := FoundEdits(ctx, text);
      && "AGENTS.md" in ctx.excluded
      && Emit(tools, source, Sanitized, url, path)
         == Some(Emission(content, tools.encode(ApplyReversed(text, edits)), edits))
  {
    AgentsIsExcluded(tools, Keys(source.entries));
  }

  lemma AgentsIsExcluded(tools: Tools, paths: set<Path>)
    requires AGENTS in paths
    ensures AGENTS in Exclusions(tools, Sanitized, paths)
  {
    assert SLASH !in AGENTS;
    SplitOfJoin([AGENTS], SLASH);
    assert Join([AGENTS], SLASH) == AGENTS;
  }

  /** A document with the nested reference definition is exported and fails the validation,
      whatever else the source holds. */
  lemma NestedIsNotExportable(tools: Tools, source: GitSource, url: bytes, path: Path, content: bytes, size: nat)
    requires tools.Sound() && Holding(tools, source, path, content, NESTED)
    requires |NESTED| == 26 && ReadsNested(ExportContext(tools, source, Sanitized, url, path))
    ensures Emit(tools, source, Sanitized, url, path).Some?
    ensures !FileExportable(Emit(tools, source, Sanitized, url, path))
    ensures !Exportable(tools, source, Sanitized, url, size)
  {
    HoldingEmits(tools, source, url, path, content, NESTED);
    NestedTargetsAreNotReversible(ExportContext(tools, source, Sanitized, url, path));
  }

  const MANY_LINES: nat := 10 * 1024 * 1024

  /** Ten million lines with one short link each are within the limit of a source file, and the
      permanent links push the emitted file over its own. */
  lemma ManyLinksAreNotExportable(tools: Tools, source: GitSource, url: bytes, path: Path, content: bytes, size: nat)
    requires tools.Sound() && Holding(tools, source, path, content, Repeated(LINK_LINE, MANY_LINES))
    requires |LINK_LINE| == 15 && ReadsLink(ExportContext(tools, source, Sanitized, url, path))
    requires forall text :: |tools.encode(text)| >= |text|
    ensures |Repeated(LINK_LINE, MANY_LINES)| <= MAX_FILE_BYTES
    ensures Emit(tools, source, Sanitized, url, path).Some?
    ensures !FileExportable(Emit(tools, source, Sanitized, url, path))
    ensures !Exportable(tools, source, Sanitized, url, size)
  {
    HoldingEmits(tools, source, url, path, content, Repeated(LINK_LINE, MANY_LINES));
    ManyLinksGrow(ExportContext(tools, source, Sanitized, url, path), MANY_LINES);
  }
}
