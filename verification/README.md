# Verified model of the NeoCortex release and measurement tooling

The project models the parts of NeoCortex that other results are trusted through: the
export profile that binds a published directory to a Git commit, the bounded archive
scanner, the canonical source distribution, the benchmarks that replay tables, hash them,
trace their connections and copy their files, and the metrics that score retrieval. Each
module follows one component; loops and objects of the program are methods and classes,
proved against specifications whose properties are then proved as lemmas.

| component | modules |
|---|---|
| export profile | `Paths`, `GitTree`, `TreeDigest`, `LinkEdits`, `LinkRewriting`, `LinkTargets`, `CodeFences`, `ExportProfile`, `ExportFromGit` |
| archive scanner | `ArchivePaths`, `CentralDirectory`, `BoundedReads`, `ArchiveScan` |
| chunk layout benchmark | `TupleDigest`, `SemanticStore`, `TableDigests`, `BatchedWrites`, `TableCapture`, `TableReplay`, `LayoutCase` |
| generation benchmark | `TypedCells`, `StableSorting`, `TableHash`, `TableScans`, `FencedCopy`, `TraceOwnership` |
| release artifacts | `PayloadIdentity`, `CanonicalStream`, `RootSpelling`, `SdistPublication`, `WheelRecord` |
| ranking metrics | `RankingMetrics` |
| scoped observations | `ClauseUnits` |
| vector fixture | `VectorFixture` |
| shared | `Prelude`, `Ordering`, `Hexadecimal` |

What the program compares, spells or leaves out is stated twice: once as the functions that
the methods use, and once in literal bytes and without them, as the lemmas named `...Exactly`
and the predicates named `Is...` prove.

Failures are part of the models. SQLite, deadlines and budgets may raise at any step of a
connection; a file system operation may fail, and while a canonical archive is published an
exception may also strike after an operation has taken effect and before the program has
recorded it; other processes may rewrite the source of a copy, or take the name of an
output, before every step. A hash is an arbitrary function: a theorem that needs hashes to
tell strings apart names the finite set of strings that must not collide, because a hash of
fixed width cannot be injective on all of them.

Where the code does less than one would wish, the exact condition is proved and an input
that fails is given:

* A rewritten Markdown file can be restored exactly when no two targets that name excluded
  documents overlap on a line. The three link patterns are matched independently, so a
  reference definition whose target contains an inline link is rewritten twice, and the export
  then fails its own validation (`LinkTargets.ReversibleOnText`,
  `LinkRewriting.NestedTargetsAreNotReversible`, `ExportFromGit.NestedIsNotExportable`).
* Restoring accepts an edit past the end of the text when its replacement is empty, because
  slices are clamped; redoing such an edit does not give the text back
  (`LinkEdits.RewriteUndoesRestore`, `LinkEdits.AcceptedButNotRedone`).
* The logical table hash depends on the scan order when rows share a primary key and differ
  elsewhere, which SQLite allows for NULL keys (`TableScans.HashOrderExactly`,
  `TableScans.NullKeysTwoHashes`). The raw hash depends on it also without a declared key, when
  rows differ in volatile cells only (`TableScans.RawHashOrderExactly`).
* An exception between `os.link` and the assignment after it leaves a published output that
  the cleanup does not remove; likewise, one between `mkstemp` and the assignment of the
  candidate leaves the candidate. An interrupt in the very last removal of the candidate makes
  the call fail although its output is published. Every operation is one tick of a clock, and
  the faults at those ticks decide what stays (`SdistPublication.Publish`,
  `SdistPublication.FailsWithOutputExactly`, `SdistPublication.InterruptedLinkStays`,
  `SdistPublication.InterruptedCandidateStays`, `SdistPublication.InterruptedRemovalKeepsBoth`).
* Logically equal builds give one member stream only under one root. The comparison of logical
  payloads does not look at the root, and the validation admits several spellings of it
  (`CanonicalStream.EqualBuildsOneStream`, `RootSpelling.ValidTwinsDiffer`).
* On an untraced connection the end of a nested cancellation scope clears the handler of the
  scope around it (`TraceOwnership.RunScope`, `TraceOwnership.UntracedNestingLosesTheHandler`).
* An export whose manifest, or whose rewritten file, outgrows the limits of the validation is
  written and then refused (`ExportFromGit.ExportValidatesExactly`,
  `ExportFromGit.ManyLinksAreNotExportable`).

`dafny verify dfyconfig.toml` checks the whole project.

## Model

| member | source | states |
|---|---|---|
| `RankingMetrics.LogicalRanking` | tools/benchmark_knowledge_functional.py:135-148 | every hit has a place: a catalogued one shows the resource of its path, any other one `unknown:` and its path or `None`; two catalogued hits share a place exactly when their paths belong to one resource; nothing else is in the result, and the places are taken in the order of the hits |
| `RankingMetrics.NdcgIsARatio` | tools/benchmark_knowledge_functional.py:151-170 | for a duplicate-free ranking and any positive, strictly decreasing discount the ideal is positive, NDCG is between 0 and 1, and it is 1 exactly when the first ten grades are the ten largest grades in non-increasing order |
| `RankingMetrics.NdcgExactly` | tools/benchmark_knowledge_functional.py:151-170 | NDCG is the sum over the first ten of the ranking, each judged grade gaining two to its power less one, divided by that sum over the judged grades in non-increasing order |
| `RankingMetrics.RecallExactly` | tools/benchmark_knowledge_functional.py:155-168 | success and recall count the judged resources among the first five of the ranking |
| `RankingMetrics.PrefixDominated` | tools/benchmark_knowledge_functional.py:158-165 | at every prefix length, the gain of a duplicate-free ranking is at most that of the sorted grades |
| `RankingMetrics.RecallBelowSuccess` | tools/benchmark_knowledge_functional.py:155-168 | recall never exceeds success; success is 1 exactly when some, recall exactly when every judged resource is among the first five |
| `RankingMetrics.PipelineBounds` | tools/benchmark_knowledge_functional.py:135-170 | whatever hits were returned, collapsing them first keeps every figure within its bounds |
| `RankingMetrics.SwapEarlier` | tools/benchmark_knowledge_functional.py:158-161 | exchanging a higher grade to an earlier place never lowers NDCG, and raises it strictly when the earlier place is counted |
| `RankingMetrics.DuplicatesBreakTheRatio` | tools/benchmark_knowledge_functional.py:138-147 | without the collapse NDCG exceeds 1 for one relevant resource returned twice |
| `LinkEdits.ApplyFromTheRight` | tools/export_profile.py:248-250 | the loop over reversed edits leaves every offset relating to the text before any edit |
| `LinkEdits.ReversedIsSubstitution` | tools/export_profile.py:248-250 | for ordered, disjoint edits, applying from right to left is the simultaneous substitution of every span |
| `LinkEdits.RestoreLinks` | tools/export_profile.py:254-271 | accepts exactly the lists that pass every check of the loop, and then applies the inverse edits |
| `LinkEdits.OutputIsRestored` | tools/export_profile.py:225-271 | the recorded edits are accepted on the substituted text and give the source back |
| `LinkEdits.RestoreUndoesRewrite` | tools/export_profile.py:248-271 | for edits that are ordered, disjoint and quote the text, restoring after rewriting returns the original text |
| `LinkEdits.RewriteUndoesRestore` | tools/export_profile.py:254-271 | redoing an accepted undo returns its input exactly when every edit that replaced something was looked up inside the text; lists with nonempty replacements always meet that |
| `LinkEdits.AcceptedButNotRedone` | tools/export_profile.py:263-271 | an edit past the end of the text with an empty replacement is accepted and not undone by redoing it |
| `LinkEdits.OverlapIsRejected` | tools/export_profile.py:258-262 | negative, unordered or overlapping spans are never accepted |
| `LinkRewriting.RewriteLine` | tools/export_profile.py:234-246 | the inner loop records one edit per target that names an excluded document, in order of target start |
| `LinkRewriting.RewriteLinks` | tools/export_profile.py:225-251 | the scan over lines and code fences records the edits of the specification, which are exactly those of `CodeFences.RecordedExactly`, and applies them from right to left |
| `CodeFences.RecordedExactly` | tools/export_profile.py:225-247 | an edit is recorded exactly when, on a line that opens and closes no fence and before which every fence is closed, a target of the patterns names an excluded document and the edit replaces it by the permanent https URL, in angle brackets if the target is |
| `CodeFences.FencedBlock` | tools/export_profile.py:228-233 | behind lines whose fences are all closed, a block from a fence to the next line with its mark is passed over: the edits are those of the text before it and, moved, of the text behind it, and none begins inside |
| `CodeFences.UnclosedBlock` | tools/export_profile.py:228-233 | nothing behind a fence that is never closed is rewritten |
| `CodeFences.ClosedExactly` | tools/export_profile.py:230-232 | the fence of the scan is none exactly when the lines so far are prose and blocks that close with their own mark |
| `CodeFences.LinesExactly` | tools/export_profile.py:229 | the text is cut behind each of the line breaks of `str.splitlines`, with a carriage return and a line feed as one, and nowhere else |
| `CodeFences.ReversibleOutsideFences` | tools/export_profile.py:225-271 | a rewrite can be undone exactly when on every line outside the closed fences the targets that name excluded documents do not overlap |
| `LinkRewriting.ScanRecorded` | tools/export_profile.py:229-247 | every recorded edit lies in the text, quotes it, is not empty, and starts no earlier than the one before |
| `LinkRewriting.RewriteIsReversible` | tools/export_profile.py:225-271 | a rewrite can be restored exactly when the rewritten targets are disjoint |
| `LinkRewriting.NestedTargetsAreNotReversible` | tools/export_profile.py:234-246 | a reference target that contains an inline link to AGENTS.md gives a rewrite whose own record is rejected |
| `LinkTargets.ReversibleOnText` | tools/export_profile.py:225-271 | restoring a rewrite succeeds exactly when, on every line outside a code fence, the targets that name excluded documents do not overlap |
| `LinkTargets.ManyLinksGrow` | tools/export_profile.py:242-250 | a text of k short links to an excluded document grows by at least 39 characters a link |
| `LinkEdits.RewrittenLength` | tools/export_profile.py:248-250 | the rewritten text is longer than the source by what each replacement adds |
| `GitTree.SafePathExactly` | tools/export_profile.py:127-131 | a path is safe exactly when no slash-separated component is empty, `.`, `..` or `.git` or holds a zero byte or a backslash, and it is then the join of its components |
| `GitTree.InsertExactly` | tools/export_profile.py:159-169 | putting a leaf succeeds exactly when its path conflicts with no present file, and then changes what is found at that path only |
| `GitTree.BuildExactly` | tools/export_profile.py:155-170 | the tree is built exactly for catalogues whose paths and entries are valid and of which no path is a component prefix of another; flattening it gives every path with its mode and blob and nothing else |
| `GitTree.OrderIsIrrelevant` | tools/export_profile.py:155-170 | every insertion order of the same items is accepted alike and builds the same tree |
| `GitTree.SameLookupSameTree` | tools/export_profile.py:155-170 | a tree without empty directories is determined by its flattening |
| `TreeDigest.OrderedIsSorted` | tools/export_profile.py:173 | the names of a directory are listed once each and ascend by their bytes, a directory with a slash behind its name |
| `Ordering.LexExactly` | tools/export_profile.py:173 | one byte string comes before another exactly when it is a prefix of it or has the smaller byte at the first place where they differ |
| `TreeDigest.PayloadUnique` | tools/export_profile.py:172-177 | the framing `mode name NUL oid` of a directory can be read back in one way only |
| `TreeDigest.DigestTree` | tools/export_profile.py:171-178 | the recursive loop computes the hash of `tree`, a space, the length, a zero byte and one row for each child in byte order: mode 40000 or the mode of the file, the name, a zero byte and the raw object name |
| `TreeDigest.TreeHash` | tools/export_profile.py:155-179 | the hash exists exactly for catalogues of safe paths, regular modes and blob names of which none is a component prefix of another; it is then the object name of the directory that holds exactly their files |
| `TreeDigest.DigestDeterminesTree` | tools/export_profile.py:171-179 | without a collision among the hashed objects, equal object names come from equal directories |
| `TreeDigest.TreeHashDeterminesCatalog` | tools/export_profile.py:155-179 | equal tree hashes come from catalogues with the same paths, modes and blobs |
| `ExportProfile.CheckManifest` | tools/export_profile.py:323-349 | the manifest is accepted exactly when it is small enough, its URL is canonical, profile and commit are the expected ones, the catalogue is bounded, the commit object has the commit's name and names the tree of the catalogue, and the inventory is the division of the profile in byte order |
| `ExportProfile.ProfileDivides` | tools/export_profile.py:212-222 | a checkout excludes nothing; a sanitized export excludes exactly the source-only documents and, as agent control, the other paths below `.codex/` or called `AGENTS.md` or `AGENTS.override.md`; the rest is listed in byte order |
| `ExportProfile.IsExcludedExactly` | tools/export_profile.py:221 | a path is left out of a sanitized export exactly when it is source-only, begins with `.codex/` or has `AGENTS.md` or `AGENTS.override.md` as its last component |
| `ExportProfile.ListedFiles` | tools/export_profile.py:350-361 | the walk over the directory returns its regular files, or the failure of the first symlink, special member or surplus |
| `ExportProfile.CheckFile` | tools/export_profile.py:363-379 | a file is accepted exactly when mode, size, both hashes, the source blob and the canonical rewrite agree |
| `ExportProfile.FileExactly` | tools/export_profile.py:363-379 | a file is accepted exactly when it is the blob of its entry, byte for byte or for sanitized Markdown with its links rewritten and the edits recorded, with the recorded hashes, size and mode, small enough, and with disjoint edits |
| `ExportProfile.CheckMembers` | tools/export_profile.py:362-379 | the loop accepts exactly when every allowed file is accepted |
| `ExportProfile.ValidateExport` | tools/export_profile.py:319-383 | validation succeeds exactly when the manifest certifies its inventory and the directory holds, besides directories, exactly the listed files, each of them the emitted blob of its entry; it returns the paths that the profile keeps |
| `ExportProfile.CommitFixesCatalog` | tools/export_profile.py:340-341 | one commit id binds at most one set of paths, modes and blobs |
| `ExportProfile.BlobFixesOutput` | tools/export_profile.py:370-377 | one blob fixes the source, and the source fixes the emitted bytes and the executable bit |
| `ExportProfile.ValidationIsUnique` | tools/export_profile.py:319-383 | for a profile, a commit id and a repository URL at most one set of emitted files, bytes and executable bits included, is accepted |
| `ExportFromGit.EmitFile` | tools/export_profile.py:292-299 | a file is emitted exactly when its blob is there, has the recorded size and digest and, for rewritten Markdown, decodes |
| `ExportFromGit.ExportFiles` | tools/export_profile.py:291-307 | the loop emits every allowed path unless a file cannot be emitted or a write fails, and describes exactly what it wrote |
| `ExportFromGit.Export` | tools/export_profile.py:274-315 | it succeeds exactly when the URL is accepted, the destination is new and neither in the checkout nor around it, the source verifies, every kept blob is readable and no operation fails; then exactly the paths that the profile keeps are written, each from its blob, and the manifest gives each excluded path its reason |
| `ExportFromGit.SourceVerifiedExactly` | tools/export_profile.py:182-209 | a source is accepted exactly when its commit object has the commit's name, its first line, with or without `tree `, is the hash of a bounded catalogue without the reserved manifest name, and the canonical documents are there |
| `ExportFromGit.FileValidatesExactly` | tools/export_profile.py:292-307 | a written file passes its check exactly when it is small enough and its rewritten targets are disjoint |
| `ExportFromGit.ExportValidatesExactly` | tools/export_profile.py:274-316 | an export passes the validation that ends it exactly when manifest and files are within their limits, the first line of the commit names a tree, and no rewritten file has overlapping targets |
| `ExportFromGit.NestedIsNotExportable` | tools/export_profile.py:291-316 | a sanitized document with the nested reference definition is written and refused by the validation that follows |
| `ExportFromGit.ManyLinksAreNotExportable` | tools/export_profile.py:291-316 | a document within the source limit whose permanent links push the emitted file over the limit of the validation is written and refused |
| `ArchivePaths.NormalPath` | tools/release_archive_safety.py:168-183 | the returned path is the given one without a trailing slash of a directory |
| `ArchivePaths.NormalPathExactly` | tools/release_archive_safety.py:168-183 | a member name is accepted exactly when it is within both limits, has no zero byte or backslash, and every component is portable; the result is the name without a directory's slash |
| `ArchivePaths.ValidSegmentExactly` | tools/release_archive_safety.py:159-165 | a component is accepted exactly when it is not empty, `.` or `..`, ends in no dot or space, has no control character or colon, and does not spell CON, PRN, AUX, NUL, COM1 to COM9 or LPT1 to LPT9 before its first dot |
| `ArchivePaths.NormalPathStaysBelow` | tools/release_archive_safety.py:159-183 | every leading part of a normal path resolves strictly below the root |
| `ArchivePaths.PathRegistry.Add` | tools/release_archive_safety.py:192-209 | a member is accepted exactly when its path is normal, it conflicts with no registered member and the policy admits it; exactly a member that got as far as the policy, whatever it said, is registered |
| `ArchivePaths.RegisterAll` | tools/release_archive_safety.py:192-209 | a sequence of members is accepted exactly when they are admissible and pairwise free of conflicts |
| `ArchivePaths.OrderIsIrrelevant` | tools/release_archive_safety.py:192-209 | acceptance does not depend on the order of the members |
| `CentralDirectory.ValidateRawNames` | tools/release_archive_safety.py:246-268 | the loop decides as the walk over the declared number of records |
| `CentralDirectory.WalkExactly` | tools/release_archive_safety.py:246-268 | the walk accepts exactly the concatenations of the declared number of 46-byte-header records with no backslash in a name |
| `CentralDirectory.RecordsUnique` | tools/release_archive_safety.py:246-268 | a byte string splits into records in one way at most |
| `CentralDirectory.OverrunIsCaught` | tools/release_archive_safety.py:251-268 | an offset past the end, reached by skipping extra field and comment unchecked, is always refused at the next step |
| `CentralDirectory.BoundariesRecovered` | tools/release_archive_safety.py:251-266 | walking an encoding recovers every record boundary |
| `CentralDirectory.WrongCountIsRefused` | tools/release_archive_safety.py:251-268 | a different number of members than records is refused |
| `BoundedReads.ReadMember` | tools/release_archive_safety.py:215-228 | over any pattern of short reads: succeeds exactly when the stream holds the declared number of bytes within the limit, returns them all and looks at one byte more at most |
| `BoundedReads.UpdatedTotal` | tools/release_archive_safety.py:231-239 | the total grows by the size exactly when both limits hold |
| `BoundedReads.BoundedReader.Read` | tools/release_archive_safety.py:346-355 | what is handed out is a prefix of the source and never exceeds the limit |
| `BoundedReads.ReadToEnd` | tools/release_archive_safety.py:340-355 | reading to the end succeeds exactly when the source fits the limit, and yields the source |
| `ArchiveScan.ScanTar` | tools/release_archive_safety.py:390-430 | the scan accepts exactly the archives within every bound whose members are conflict-free, of an allowed kind and hold what they declare, and keeps the bytes of each file under its path |
| `ArchiveScan.ReadPayload` | tools/release_archive_safety.py:409-420 | one regular member: size limits, exact read and payload policy together |
| `TupleDigest.TokenInjective` | benchmarks/semantic_text_chunk_layout_benchmark.py:653-668 | different SQLite values have different tokens |
| `TupleDigest.TokenExactly` | benchmarks/semantic_text_chunk_layout_benchmark.py:653-668 | the token is N, B and a digit, I and the decimal number, F and the float's spelling, X and the bytes, or T and the text |
| `TupleDigest.TableBytesInjective` | benchmarks/semantic_text_chunk_layout_benchmark.py:671-685 | although the header is not framed, the digested bytes determine the table's name, its columns and its rows |
| `TupleDigest.TableBytesExactly` | benchmarks/semantic_text_chunk_layout_benchmark.py:671-685 | the digested bytes are the table's name, the column names and the rows behind their marks, and in a row every token behind its length in eight bytes |
| `SemanticStore.ExecuteInParts` | benchmarks/semantic_text_chunk_layout_benchmark.py:897-909 | writing rows in two parts is writing them at once |
| `SemanticStore.Connection.ExecuteMany` | benchmarks/semantic_text_chunk_layout_benchmark.py:1040-1052 | rows are written one after another; a failure leaves the transaction open with exactly the rows before the one whose step failed or that was refused |
| `SemanticStore.Connection.Refresh` | benchmarks/semantic_text_chunk_layout_benchmark.py:1585-1593 | assigning columns to themselves leaves the table as it is, counts the matching rows and records them |
| `BatchedWrites.WriteRows` | benchmarks/semantic_text_chunk_layout_benchmark.py:1027-1061 | the loop and what follows it end in one of three ways: without a fault, with every row durable and no batch beyond the byte bound; with the last checkpoint as the only failing step and every row durable; or with the first fault, or refused rows, before the last commit, when one run has committed nothing and per-batch mode whole batches from the front |
| `BatchedWrites.Finish` | benchmarks/semantic_text_chunk_layout_benchmark.py:1057-1061 | the commit of one run and the checkpoint after it |
| `BatchedWrites.InsertBatches` | benchmarks/semantic_text_chunk_layout_benchmark.py:1012-1066 | after success every row is durable in order and counted, no batch was beyond the byte bound and no step failed; after a failure one run has committed nothing, or all when the last checkpoint was the only step to fail, and per-batch mode has committed whole batches from the front or everything; the first fault ends the run, rows are written from the front only, and nothing is left pending unless the rollback itself failed |
| `BatchedWrites.LandedExactly` | benchmarks/semantic_text_chunk_layout_benchmark.py:1027-1061 | what is durable in per-batch mode is what some number of batches from the front, or all rows, make of the store |
| `TableCapture.CaptureParents` | benchmarks/semantic_text_chunk_layout_benchmark.py:1300-1323 | on success every selected parent is in the spool and no group was beyond the byte bound; a missing parent fails the capture |
| `TableCapture.CaptureChunks` | benchmarks/semantic_text_chunk_layout_benchmark.py:1325-1405 | on success the selected chunks are in the spool, the active rows and groups are counted, and every BLOB and batch was within its bound; without a fault these bounds suffice |
| `TableCapture.Capture` | benchmarks/semantic_text_chunk_layout_benchmark.py:1274-1457 | on success the spool holds the first chunks in byte order of the keys, as many as the limit allows, with exactly their parents, and the recorded counts and digests are those of the spool; without a fault it succeeds exactly when rows are selected, their parents exist and every BLOB and batch is within its bound |
| `TableCapture.CapturedIsClosedAndMinimal` | benchmarks/semantic_text_chunk_layout_benchmark.py:872-894 | a captured fixture has the parent of every chunk and no parent without a chunk, copies the rows of the source, and has as many chunks as the limit allows, none of them behind one left out in the byte order of the keys |
| `TableReplay.BatchesRoundUp` | benchmarks/semantic_text_chunk_layout_benchmark.py:1545-1634 | the number of statements of a group is its size over the batch size, rounded up |
| `TableReplay.RefreshGroup` | benchmarks/semantic_text_chunk_layout_benchmark.py:1576-1616 | one group takes that many statements of at most the batch size, and each matching row is written by exactly one of them and no other row by any |
| `TableReplay.ReplayRefresh` | benchmarks/semantic_text_chunk_layout_benchmark.py:1545-1634 | whatever fails, the stored tables do not change and nothing is left pending unless the rollback itself failed; without a fault in the run every row active in the same group of both databases is written by exactly one statement, no other row by any, and the counts are the distinct groups, those rows and those statements |
| `TableReplay.RefreshCountIsExact` | benchmarks/semantic_text_chunk_layout_benchmark.py:2198-2215 | the touched rows equal the active rows of the fixture exactly when each is active in the same group of the case |
| `TableDigests.EqualDigestsEqualTables` | benchmarks/semantic_text_chunk_layout_benchmark.py:958-1009 | without a collision equal table digests come from the same columns and equal tables, read in key order |
| `TableDigests.DigestsExactly` | benchmarks/semantic_text_chunk_layout_benchmark.py:958-1009 | the digests are the hashes of the two tables' bytes under their names, the rows in key order |
| `LayoutCase.ReplayChangesNothing` | benchmarks/semantic_text_chunk_layout_benchmark.py:897-909 | upserting every row over itself succeeds and changes nothing |
| `LayoutCase.InsertsWouldConflict` | benchmarks/semantic_text_chunk_layout_benchmark.py:897-909 | the same rows as plain inserts are refused |
| `LayoutCase.Load` | benchmarks/semantic_text_chunk_layout_benchmark.py:1993-2024 | loading writes the parents and then the chunks, each once in key order, and makes the case equal to the fixture |
| `LayoutCase.ReplayCase` | benchmarks/semantic_text_chunk_layout_benchmark.py:2037-2072 | the conflict pass writes every chunk over itself once, the refresh writes every active row by exactly one statement, the fixture's own counts are reported and the tables stay equal to the fixture |
| `LayoutCase.RunCase` | benchmarks/semantic_text_chunk_layout_benchmark.py:1993-2074 | a completed case has loaded and replayed exactly the fixture's rows, holds exactly the fixture and, for the fixture's own digests, passes the checks on rows, digests and replay; then only a fault keeps it from completing |
| `LayoutCase.ApprovedExactly` | benchmarks/semantic_text_chunk_layout_benchmark.py:2133-2215 | the report of a completed case passes the checks on digests, counts, replay and refresh exactly for the fixture's own digests |
| `TypedCells.TypedInjective` | benchmarks/semantic_generation_control_benchmark.py:1003-1026 | different values have different typed JSON |
| `TypedCells.TypedExactly` | benchmarks/semantic_generation_control_benchmark.py:1003-1026 | the bytes are the compact JSON of the tag and null, a digit, a decimal number, or a string that reads back as the text or the hexadecimal bytes |
| `TypedCells.TextReadsBack` | benchmarks/semantic_generation_control_benchmark.py:1021-1026 | reading the escapes of the JSON string gives the text back |
| `TypedCells.StreamSplit` | benchmarks/semantic_generation_control_benchmark.py:1029-1034 | a sequence of parts is determined by the length-prefixed stream that is hashed |
| `TypedCells.PartStreamExactly` | benchmarks/semantic_generation_control_benchmark.py:1029-1034 | the hashed stream is each part behind its length in eight bytes |
| `StableSorting.StableSortIsStable` | benchmarks/semantic_generation_control_benchmark.py:1118-1119 | rows with equal sort keys keep their scan order |
| `StableSorting.SortLists` | benchmarks/semantic_generation_control_benchmark.py:1118-1119 | the listing holds the same entries by ascending key bytes, those under one key in their scan order |
| `StableSorting.OrderFreeExactly` | benchmarks/semantic_generation_control_benchmark.py:1118-1123 | the listing is the same for every scan order exactly when equal sort keys carry equal digests |
| `TableHash.TableHashes` | benchmarks/semantic_generation_control_benchmark.py:1037-1141 | the loop and the two sorts compute the raw and the logical hash, each the hash of the name, the JSON of the hashed columns and the digests of the rows, listed stably by key |
| `TableHash.RowDigestsExactly` | benchmarks/semantic_generation_control_benchmark.py:1066-1117 | a row is digested as the table's name, the framed key cells and, for every column or for every content column, its name, a zero byte and the typed cell; it is listed by its key cells, or without a declared key by its logical digest |
| `TableHash.LogicalPlacesExactly` | benchmarks/semantic_generation_control_benchmark.py:1055-1060 | the content columns are, from left to right, those that are not volatile by name and do not end in `_ns` |
| `TableScans.SameContentSameHash` | benchmarks/semantic_generation_control_benchmark.py:1037-1141 | without a declared key, or when rows with equal key cells have equal logical cells, tables with the same name, logical columns, key cells and logical cells, in any order and with any volatile cells, have one logical hash |
| `TableHash.VolatileCellsDoNotMatter` | benchmarks/semantic_generation_control_benchmark.py:1055-1060 | changing cells of volatile columns outside the key keeps the logical hash |
| `TableHash.SameHashSameContent` | benchmarks/semantic_generation_control_benchmark.py:1037-1141 | equal logical hashes come from the same name, the same logical columns and the same multiset of key and logical cells |
| `TableScans.KeylessOneHash` | benchmarks/semantic_generation_control_benchmark.py:1098-1141 | without a declared key the logical hash never depends on the scan order |
| `TableScans.HashOrderExactly` | benchmarks/semantic_generation_control_benchmark.py:1098-1141 | with a declared key the logical hash is the same for every scan exactly when rows with equal key cells have equal logical cells |
| `TableScans.UniqueKeysOneHash` | benchmarks/semantic_generation_control_benchmark.py:1098-1141 | with a declared, unique key neither hash depends on the scan order |
| `TableScans.NullKeysTwoHashes` | benchmarks/semantic_generation_control_benchmark.py:1070-1141 | two rows that share a NULL key and differ elsewhere have two logical hashes, depending on the scan order |
| `TableScans.RawHashOrderExactly` | benchmarks/semantic_generation_control_benchmark.py:1098-1132 | the raw hash is the same for every scan exactly when rows with equal key cells, or without a declared key rows with equal logical cells, agree on every cell |
| `FencedCopy.World.SourceFence` | benchmarks/semantic_generation_control_benchmark.py:2085-2104 | the fence of the source at one moment |
| `FencedCopy.HashSource` | benchmarks/semantic_generation_control_benchmark.py:2107-2112 | the hash is that of the source if the source did not change meanwhile |
| `FencedCopy.CopyFencedFile` | benchmarks/semantic_generation_control_benchmark.py:2143-2231 | against a writer active before every step: a copied file hashes as the source did at every moment from the first step, which takes the first fence, to the last; a name taken at any moment up to the creation stays with whoever took it and the call abstains; an abstention leaves nothing of the call behind, and it raises only when its last step is a removal that fails |
| `FencedCopy.FreeUntilExactly` | benchmarks/semantic_generation_control_benchmark.py:2158-2172 | the name is free up to the creation exactly when it was free and the other process takes it at none of the moments before |
| `FencedCopy.FaithfulIsEqual` | benchmarks/semantic_generation_control_benchmark.py:2188-2204 | without a hash collision the copy equals the source at every moment between the fences |
| `TraceOwnership.AddedKeeps` | benchmarks/semantic_generation_control_benchmark.py:421-426 | adding a trace adds one reference, lists it once and leaves the first trace first |
| `TraceOwnership.RemovedKeeps` | benchmarks/semantic_generation_control_benchmark.py:428-436 | removing a trace takes one reference and keeps the others |
| `TraceOwnership.TracedConnection.Register` | benchmarks/semantic_generation_control_benchmark.py:480-505 | the reference count stays the sum of the counts; the first registration sets both callbacks |
| `TraceOwnership.TracedConnection.Release` | benchmarks/semantic_generation_control_benchmark.py:508-541 | the state is registered exactly while references remain; the last release clears both callbacks |
| `TraceOwnership.TracedConnection.ExecuteSql` | benchmarks/semantic_generation_control_benchmark.py:438-440 | every registered trace sees the statement once and no other trace sees it |
| `TraceOwnership.TracedConnection.Pop` | benchmarks/semantic_generation_control_benchmark.py:559-578 | the registration leaves the stack from the top or, out of order, from where the first equal one is, and the handler that is then due is set |
| `TraceOwnership.RunTraced` | benchmarks/semantic_generation_control_benchmark.py:608-639 | a connection opened through several wrappers gives back every reference, whatever the body raises |
| `TraceOwnership.Original` | neocortex/persistence/sqlite_cancellation.py:74-108 | the scope itself sets its handler and always clears it |
| `TraceOwnership.Wrapped` | benchmarks/semantic_generation_control_benchmark.py:647-682 | on a traced connection the handler in force before the scope is back after it, for any number of wrappers |
| `TraceOwnership.Run` | benchmarks/semantic_generation_control_benchmark.py:412-682 | over every balanced run: the references end as they began, each trace sees each statement it was registered for once, and every moment has the handler of its innermost scope |
| `TraceOwnership.RunScope` | benchmarks/semantic_generation_control_benchmark.py:544-578 | after a scope the connection's handler is the one from before it exactly when the connection is traced, or there was none, or nothing in the scope cleared it |
| `TraceOwnership.UntracedNestingLosesTheHandler` | neocortex/persistence/sqlite_cancellation.py:97-108 | on an untraced connection the end of an inner scope clears the outer scope's handler |
| `PayloadIdentity.RenameMembers` | tools/release_artifacts.py:567-577 | members are refused exactly when one is outside the root or the archive is no artifact; a wheel keeps every member but those ending in `.dist-info/RECORD`, a source distribution every member under its relative path |
| `PayloadIdentity.LogicalPayload` | tools/release_artifacts.py:558-584 | refused exactly for other archives and for a member outside the root; otherwise each member under its logical name as often as in the archive, RECORD of a wheel excepted, in byte order, and the hash of the kind, a zero byte and the framed names, sizes and hashes |
| `PayloadIdentity.DigestFixesMembers` | tools/release_artifacts.py:578-584 | equal digests come from equal kinds and equal ordered members |
| `CanonicalStream.LogicalHas` | tools/release_artifacts.py:558-584 | the logical payload of a source distribution lists exactly the files below its root with their size and hash |
| `CanonicalStream.WheelHas` | tools/release_artifacts.py:567-577 | the logical payload of a wheel lists exactly the files whose path does not end in `.dist-info/RECORD`, with their size and hash |
| `CanonicalStream.SameIdentitySameFiles` | tools/release_artifacts.py:599-611 | equal logical payloads come from equal files below the roots |
| `CanonicalStream.SameWheelSameFiles` | tools/release_artifacts.py:599-611 | two wheels have equal logical payloads exactly when their files are equal apart from RECORD |
| `CanonicalStream.SameFilesSameIdentity` | tools/release_artifacts.py:558-584 | the member order of the archive does not matter |
| `CanonicalStream.StreamFixesFiles` | tools/release_artifacts.py:622-636 | the ordered member stream determines the files |
| `CanonicalStream.StreamAscends` | tools/release_artifacts.py:622-636 | the members of the canonical archive come in byte order of their paths |
| `CanonicalStream.EqualBuildsOneStream` | tools/release_artifacts.py:599-636 | two logically equal builds give one member stream exactly when they have the same root |
| `RootSpelling.WordsAreCanonical` | tools/release_artifacts.py:195-196 | two words under any separator have the canonical name with a dash between them |
| `RootSpelling.RunIsOneDash` | tools/release_artifacts.py:195-196 | a run of dashes, underscores and dots becomes one dash |
| `RootSpelling.CanonicalAppend` | tools/release_artifacts.py:195-196 | the parts of a name are treated side by side unless a run is cut |
| `RootSpelling.LetterIsLowered` | tools/release_artifacts.py:195-196 | any other byte stands for itself, a capital for its small letter |
| `RootSpelling.RootIsNotCompared` | tools/release_artifacts.py:558-611 | every build has a twin under any other root with the same logical payload and another member stream |
| `RootSpelling.ValidRootExactly` | tools/release_artifacts.py:494-502 | a root is valid exactly when it is a name whose canonical form is neocortex-framework, a dash and the version, which holds no dash |
| `RootSpelling.ValidTwinsDiffer` | tools/release_artifacts.py:479-504 | two spellings of the distribution in the root pass the validation of one version, compare equal and give two member streams |
| `WheelRecord.RecordRows` | tools/release_artifacts.py:374-384 | rows are accepted exactly when each has three columns, no path is repeated and none is too long |
| `WheelRecord.ValidateRecord` | tools/release_artifacts.py:387-403 | a RECORD is accepted exactly when it lists the members, itself unhashed and every other with its digest and size |
| `WheelRecord.RecordFixesTheWheel` | tools/release_artifacts.py:387-403 | an accepted RECORD fixes the members and the content of every one but itself |
| `SdistPublication.Agree` | tools/release_artifacts.py:658-670 | two builds agree exactly when they are distinct and, read again, still carry the same logical payload |
| `SdistPublication.Directory.Link` | tools/release_artifacts.py:693-694 | linking never replaces; the link is made exactly when the name is vacant and the step fails neither before nor with an error, and is recorded exactly when the step does not fail at all |
| `SdistPublication.Attempt` | tools/release_artifacts.py:679-697 | the faults and the other processes at the ticks of the block decide how long it runs, what it publishes and records, and what it leaves |
| `SdistPublication.CleanUp` | tools/release_artifacts.py:698-703 | a failed publication is taken back and then the candidate removed; an interrupt in the first removal keeps the second from starting |
| `SdistPublication.Publish` | tools/release_artifacts.py:671-704 | an existing output is never replaced or removed; success publishes the expected payload; the faults at the ticks of the run decide exactly when the call succeeds, when its output stays and when a candidate stays |
| `SdistPublication.InterruptedLinkStays` | tools/release_artifacts.py:693-703 | an interrupt between the link and its record makes the call fail and leaves the published archive |
| `SdistPublication.InterruptedCandidateStays` | tools/release_artifacts.py:682-703 | an interrupt before the candidate's name is recorded leaves the candidate |
| `SdistPublication.InterruptedRemovalKeepsBoth` | tools/release_artifacts.py:703 | an interrupt before the last removal of the candidate makes the call fail with the output published |
| `SdistPublication.FailsWithOutputExactly` | tools/release_artifacts.py:693-703 | the call fails with its output there exactly when the link was not recorded, taking back a failed publication did not work, or the last removal was interrupted |
| `ClauseUnits.SentenceUnits` | tools/knowledge_scoped_observation_metrics.py:115-133 | the clauses of one sentence end exactly at its splits and at its end, tile it and carry the scope on |
| `ClauseUnits.Units` | tools/knowledge_scoped_observation_metrics.py:106-135 | the units end exactly at every split and every sentence end, tile the excerpt and concatenate to it; each has its own scope if it names one, else that of the last clause before it that does, the date of its clause and its own sentence |
| `ClauseUnits.CarriedIsLastExplicit` | tools/knowledge_scoped_observation_metrics.py:126-129 | the carried scope is that of the last clause with an explicit one, or the initial one |
| `ClauseUnits.EventHasDateExactly` | tools/knowledge_scoped_observation_metrics.py:166-184 | an event has a date exactly when a chain of coordinated completed actions with one sentence text and scope leads back to a dated unit, with no unknown date on it |
| `ClauseUnits.ChainStaysInItsSentence` | tools/knowledge_scoped_observation_metrics.py:178-184 | although sentences are compared by text, such a chain never leaves its sentence |
| `VectorFixture.HalfOf` | benchmarks/semantic_exact_search_benchmark.py:371-372 | a nonzero numerator of at most eleven bits over 2048 is exactly a finite binary16 number |
| `VectorFixture.OneRepresentation` | benchmarks/semantic_exact_search_benchmark.py:371-372 | a nonzero finite value has one binary16 representation |
| `VectorFixture.PackedReadsBack` | benchmarks/semantic_exact_search_benchmark.py:372 | the two bytes, low one first, read back as sign, five bits of exponent and ten of fraction |
| `VectorFixture.Numerator` | benchmarks/semantic_exact_search_benchmark.py:371 | the value of a digit is an odd, nonzero numerator over 2048 below one in magnitude |
| `VectorFixture.DigitsDecode` | benchmarks/semantic_exact_search_benchmark.py:368-370 | the three digits decode the mixed index modulo 2048 cubed |
| `VectorFixture.RepresentativeVectorBlob` | benchmarks/semantic_exact_search_benchmark.py:362-373 | the first three half-precision numbers of the blob are (digit - 1023.5) / 1024 of the base-2048 digits of the mixed index and the rest is the common base; fewer than three dimensions fail |
| `VectorFixture.VectorsDistinguish` | benchmarks/semantic_exact_search_benchmark.py:362-373 | two blobs over one base are equal exactly when their mixed indices agree modulo 2048 cubed |
| `VectorFixture.NearbyRowsDiffer` | benchmarks/semantic_exact_search_benchmark.py:362-373 | for every seed, rows less than 2048 cubed apart have different blobs |
| `Prelude.DecimalSpells` | tools/export_profile.py:152 | the decimal digits spell the number, without a leading zero |
| `Prelude.BigEndianSpells` | benchmarks/semantic_generation_control_benchmark.py:1029-1034 | the big-endian bytes spell the number that fits them |

## Left out

- The link patterns, URL parsing and quoting, path normalisation, UTF-8 decoding and repository URL checks are parameters; only the properties that the proofs use are required of them.
- The field `excluded_target` of a recorded edit, which no step reads back.
- The lists of canonical documents are a parameter of the export profile, as are the hashes, JSON, base64 and the file system.
- Git subprocesses: the commit object, the catalogue and the blobs are given, and checked as the program checks them.
- ZIP scanning beyond the raw central directory: end-of-directory location, encryption flags, compression ratio and decompression. TAR members are given with kind, size and content, and gzip is not modelled.
- Unicode normalisation and case folding: an arbitrary fold that keeps the slash-separated components.
- SQLite itself: keys, foreign keys, statements and transactions are modelled for the two tables used; storage reports, query plans, trace payloads and layout probes are not.
- The text and byte totals of a capture and its seeds.
- A part of 2 to the 64 bytes or more cannot be framed by the program; the injectivity results require smaller parts.
- The JSON text of a list of column names is a parameter that distinguishes the compared lists.
- The aggregate hash over all tables and the relationship probes of the generation benchmark.
- In the fenced copy, other processes never touch the destination after this call has created it, and a fence changes with every change of the source, as device, inode, size, times and mode are taken to do.
- A stale tracing state under a reused object identity, failures of the callback setters themselves, and the progress counters of a trace; statements with an empty template, which are not counted, do not occur in a run.
- Wheel and source distribution metadata, file names, required content and entry points; validation of an archive is one function from its bytes to an inspection.
- Reading the files of a build is one snapshot for each reading; the reports' paths and versions are part of the inspections that are compared.
- The Spanish and English patterns for scope, dates and completed actions: arbitrary predicates on clause and sentence, with match positions in ascending order.
- Rounding of `struct.pack` for values that binary16 cannot represent, which do not occur.
- Resource sampling, report writing, argument parsing, environment setup and the other owners of the repository, which would only add simple members.
- ClauseUnits.ChainStaysInItsSentence: takes as a hypothesis that the first part of a sentence never begins with a conjunction, which the two patterns of the program give and the parameters do not.
- LinkRewriting.NestedTargetsAreNotReversible: takes what the three link patterns and the path normalisation give for its one line as hypotheses, because the patterns are parameters; so does ExportFromGit.NestedIsNotExportable.
- ExportFromGit.ManyLinksAreNotExportable: takes what the patterns and the path normalisation give for its line as hypotheses, and that UTF-8 spends at least a byte on every character.
- LayoutCase.RunCase: does not model the integrity, layout, key-semantics and query measurements between the replay and the report, nor the checks on them.
- TableScans.HashOrderExactly: takes as a hypothesis that no two of the finitely many scans collide in the last hash, which a hash of fixed width cannot rule out; so does TableScans.RawHashOrderExactly.
- RootSpelling.ValidTwinsDiffer: folds the letter case of ASCII names only, and does not model the other checks on the content of a source distribution.
- TraceOwnership.Run: does not model callback setters that fail, so a body may raise and a setter may not.
- GitTree.SameLookupSameTree: speaks of trees as finite maps, so it does not capture dictionary insertion order, which the digest does not read.
