# nexus-p2-tycho-aggregator-plugin in Dafny

A model of the aggregation engine of the Nexus p2 Tycho aggregator plugin, with proofs about it.
The engine keeps one p2 repository (the aggregate, under `/.p2`) inside each hosted Nexus repository for which aggregation is enabled.
Tycho deploys `-p2artifacts.xml` and `-p2content.xml` descriptor fragments beside each bundle.
The engine merges a deployed fragment into the aggregate's `artifacts.xml` / `content.xml` index, or removes a deleted one from it.
It links every plug-in and feature under `/.p2/plugins/` or `/.p2/features/` back to its jar.
It can rebuild the aggregate by scanning the whole storage.

The model covers `DefaultP2TychoRepositoryAggregator` and the path helpers of `NexusUtils`.

| file | module | what it holds |
|---|---|---|
| outcomes.dfy | `Outcomes` | `Option` (a nullable reference) and `Result` (a value or a thrown exception) |
| text.dfy | `Text` | the `java.lang.String` operations used: `startsWith`, `contains`, `indexOf`, `replace`, `String.valueOf(long)` |
| nexus_utils.dfy | `NexusUtils` | stored items, links and repositories; `createLink`, `deleteLink`; `getReversePathSegments`, `getRelativePath` (its three loops) and `isHidden` |
| p2_bridge.dfy | `P2Constants`, `P2Bridge` | the `/.p2` path constants; the p2 bridge toolkit as uninterpreted functions; the merge/remove tag that picks the callbacks |
| header_repair.dfy | `HeaderRepair` | `readLinesFromFile`, the two header checks and the two header repairs |
| link_derivation.dfy | `LinkDerivation` | `handleArtifacts`: classifier to sub-directory, link path, jar path, and the loop over the installable artifacts |
| engine.dfy | `Engine` | each operation's effect on one repository's store, as functions, and the lemmas about them |
| aggregator.dfy | `Aggregator` | class `P2TychoRepositoryAggregator`: the configuration map, the repository registry, the held locks and the temporary directories, updated step by step |

The class's fields are the state the Java class works on:
- the `configurations` map;
- the registry of repositories, each a map from item path to a file (its lines) or a link (a target uid);
- the multiset of repositories whose `/.p2` lock is held;
- the number of temporary directories not yet deleted.

Each method changes that state in the steps the Java method takes.
It is proved to end in the state an `Engine` function gives, so the `Engine` lemmas hold of the class.
Every public method leaves the held locks as it found them, which is the `finally`-unlock discipline.
Temporary directories are counted.
A method's `ensures` says exactly when one leaks: when `processP2Artifacts` or `processP2Metadata` cannot read its fragment, it throws before its `try`, so its `finally` never deletes the source directory.

Collaborators the code calls but that are not part of this model are parameters (`Engine.Services`):
- the p2 bridge toolkit (`P2Bridge.Toolkit`), where `None` stands for a call that throws;
- the fragment inspectors `isP2ArtifactsXML` / `isP2ContentXML`, as predicates on file paths;
- the order in which the storage scanner visits stored files;
- the order in which the registry lists repositories.

The class requires both orders to visit each entry exactly once: every stored item, and every registered repository (`Engine.ScansEachItemOnce`, `Engine.ListsEachRepositoryOnce`). The `Engine` functions take the orders as given, and the lemmas that need this requirement state it.

The current time is a parameter `now` of each operation.

Behaviour worth noting, as the code has it:
- The header check reads a fixed line. A fragment with too few lines throws an index error and does not get a descriptive failure. That error is swallowed inside `processP2Artifacts` and propagates out of `processP2Metadata`.
- The metadata header check looks only at line 1. It does not check for a root element at line 2.
- A toolkit failure on the artifact side is swallowed, so the copy-back still runs. It copies back the staged index as the failed call left it, which the model takes to be unchanged (see "## Left out").
- During a rebuild, an exception escaping `onFile` aborts the whole scan and skips both copy-backs. The scan does not skip that fragment and continue. Only an unreadable artifacts fragment, or a failing metadata fragment, throws out of `onFile`.
- `isHidden` looks only at the start of the path relative to the storage base. A file is skipped exactly when its item path starts with `/.`; a hidden directory deeper down is not skipped (`NexusUtils.HiddenStoredFile`).
- `scanAndRebuild()` walks every registered repository in registry order and skips the unconfigured ones. The scan order is whatever the scanner gives; no lexicographic order is imposed.
- The two classifiers are the literal strings `osgi.bundle` and `org.eclipse.update.feature`.

## Model

| member | source | states |
|---|---|---|
| Text.IndexOf | src/main/java/com/qualitype/nexus/plugins/tycho/internal/DefaultP2TychoRepositoryAggregator.java:501 | indexOf gives -1 exactly when the id occurs nowhere; otherwise the id occurs at the result and at no earlier index |
| Text.IndexOfFindsContained | src/main/java/com/qualitype/nexus/plugins/tycho/internal/DefaultP2TychoRepositoryAggregator.java:501 | indexOf is non-negative if and only if the id is contained in the path |
| Text.ReplaceAll | src/main/java/com/qualitype/nexus/plugins/tycho/internal/DefaultP2TychoRepositoryAggregator.java:500 | String.replace leaves a string that does not contain the target unchanged |
| Text.Occurrences | src/main/java/com/qualitype/nexus/plugins/tycho/internal/DefaultP2TychoRepositoryAggregator.java:500 | the left-to-right scan finds no occurrence exactly when the target is not contained |
| Text.ReplaceAllLength | src/main/java/com/qualitype/nexus/plugins/tycho/internal/DefaultP2TychoRepositoryAggregator.java:500 | every occurrence the scan replaces changes the length by the difference between replacement and target, and nothing else does |
| Text.ReplaceAllBySelf | src/main/java/com/qualitype/nexus/plugins/tycho/internal/DefaultP2TychoRepositoryAggregator.java:500 | replacing the target by itself gives the string back |
| Text.ReplaceAllAppendedTarget | src/main/java/com/qualitype/nexus/plugins/tycho/internal/DefaultP2TychoRepositoryAggregator.java:500 | replacing in `p + t`, where the first character of `t` occurs nowhere else in `t`, gives the replaced `p` followed by the replacement |
| Text.NatToString | src/main/java/com/qualitype/nexus/plugins/tycho/internal/DefaultP2TychoRepositoryAggregator.java:451 | the timestamp is written as a non-empty string of decimal digits |
| Text.NatToStringValue | src/main/java/com/qualitype/nexus/plugins/tycho/internal/DefaultP2TychoRepositoryAggregator.java:451 | the digits written for a count denote that count (under the independent `DigitsValue` reading) and have no leading zero |
| Text.IntToString | src/main/java/com/qualitype/nexus/plugins/tycho/internal/DefaultP2TychoRepositoryAggregator.java:451 | the text starts with `-` exactly for a negative value, and the rest is digits |
| Text.IntToStringValue | src/main/java/com/qualitype/nexus/plugins/tycho/internal/DefaultP2TychoRepositoryAggregator.java:451 | the text of a value is its sign when negative, followed by digits that denote its magnitude |
| NexusUtils.RetrieveItem | src/main/java/com/qualitype/nexus/plugins/tycho/internal/NexusUtils.java:62-68 | retrieveItem succeeds exactly when an item is stored at the path and returns that item; otherwise it throws item-not-found |
| NexusUtils.CreateLink | src/main/java/com/qualitype/nexus/plugins/tycho/internal/NexusUtils.java:97-108 | afterwards the link path holds a link to the uid of the given item, carrying the item's context; every other stored item is unchanged and only the link path is added |
| NexusUtils.DeleteLink | src/main/java/com/qualitype/nexus/plugins/tycho/internal/DefaultP2TychoRepositoryAggregator.java:402 | only the link path is removed; every other stored item is unchanged |
| NexusUtils.DeleteUndoesCreate | src/main/java/com/qualitype/nexus/plugins/tycho/internal/DefaultP2TychoRepositoryAggregator.java:378-404 | deleting a link just created at a free path gives back the original store |
| NexusUtils.GetReversePathSegments | src/main/java/com/qualitype/nexus/plugins/tycho/internal/NexusUtils.java:167-186 | the loop collects getName() of the file and of each getParentFile(), leaf first: the result is ReverseSegments of the path, whose first element is the file's own name |
| NexusUtils.NameAndParentOfJoin | src/main/java/com/qualitype/nexus/plugins/tycho/internal/NexusUtils.java:177-178 | getName and getParent of `base/rel` are those of `rel` (with `base/` before the parent), or `rel` and `base` when `rel` holds no separator |
| NexusUtils.SegmentsOfChild | src/main/java/com/qualitype/nexus/plugins/tycho/internal/NexusUtils.java:167-186 | the reversed segments of `base/rel` are those of `rel` followed by those of `base` |
| NexusUtils.CommonRootLength | src/main/java/com/qualitype/nexus/plugins/tycho/internal/NexusUtils.java:136-141 | the two reversed arrays agree on that many segments at their root ends, and the next pair, if both arrays have one, differs |
| NexusUtils.CommonRootLengthUnique | src/main/java/com/qualitype/nexus/plugins/tycho/internal/NexusUtils.java:136-141 | any length at which the comparison can stop (agreement so far, then an end or a differing pair) is the common root length |
| NexusUtils.SkipCommonRoot | src/main/java/com/qualitype/nexus/plugins/tycho/internal/NexusUtils.java:133-141 | the first loop stops with `i` and `j` just below the common root of the two arrays (so `i, j >= -1`), having passed over equal pairs only |
| NexusUtils.AscendSteps | src/main/java/com/qualitype/nexus/plugins/tycho/internal/NexusUtils.java:143-146 | the second loop appends exactly `i + 1` copies of `..` plus the separator |
| NexusUtils.DescendSteps | src/main/java/com/qualitype/nexus/plugins/tycho/internal/NexusUtils.java:148-153 | the last loop appends the remaining `to` segments root end first, each followed by the separator except the leaf, which ends the path |
| NexusUtils.RelativePath | src/main/java/com/qualitype/nexus/plugins/tycho/internal/NexusUtils.java:127-156 | getRelativePath throws an index error exactly when `to` has no segment below the common root (it reads `toSegments[-1]`); otherwise the result starts with one `..` step per `from` segment below the common root |
| NexusUtils.GetRelativePath | src/main/java/com/qualitype/nexus/plugins/tycho/internal/NexusUtils.java:127-156 | the three loops compute RelativePath of the two reversed segment arrays, including the index error |
| NexusUtils.RelativePathToDescendant | src/main/java/com/qualitype/nexus/plugins/tycho/internal/NexusUtils.java:143-155 | when `from` is a proper ancestor of `to`, the relative path has no `..` step and is `to`'s segments below `from`, joined root to leaf |
| NexusUtils.JoinSegmentsOfRelative | src/main/java/com/qualitype/nexus/plugins/tycho/internal/NexusUtils.java:148-153 | joining the reversed segments of a relative path root to leaf with `/` gives the path back |
| NexusUtils.RelativePathOfStoredFile | src/main/java/com/qualitype/nexus/plugins/tycho/internal/NexusUtils.java:127-156 | from a storage base directory, the relative path of the file storing the item at `path` is `path` without its leading separator |
| NexusUtils.IsHidden | src/main/java/com/qualitype/nexus/plugins/tycho/internal/NexusUtils.java:158-165 | isHidden(null) is false, and a hidden path is never empty |
| NexusUtils.HiddenItemPath | src/main/java/com/qualitype/nexus/plugins/tycho/internal/NexusUtils.java:164 | an item path without its leading separator is hidden exactly when the item path starts with `/.`: only the start of the string is examined |
| NexusUtils.HiddenStoredFile | src/main/java/com/qualitype/nexus/plugins/tycho/internal/DefaultP2TychoRepositoryAggregator.java:332 | the relative path that onFile tests always exists for a stored file, and it is hidden exactly when the item path starts with `/.` |
| HeaderRepair.TokenLinesEnd | src/main/java/com/qualitype/nexus/plugins/tycho/internal/DefaultP2TychoRepositoryAggregator.java:585 | every line from that index on holds no token, and the line before it holds one |
| HeaderRepair.HasNextBeforeEnd | src/main/java/com/qualitype/nexus/plugins/tycho/internal/DefaultP2TychoRepositoryAggregator.java:585 | scanner.hasNext() before line `k` holds exactly when `k` is before the end of the last line that holds a token |
| HeaderRepair.ReadLines | src/main/java/com/qualitype/nexus/plugins/tycho/internal/DefaultP2TychoRepositoryAggregator.java:582-590 | readLinesFromFile returns a prefix of the file's lines that drops only trailing lines without a token, and whose last line holds one |
| HeaderRepair.Insert | src/main/java/com/qualitype/nexus/plugins/tycho/internal/DefaultP2TychoRepositoryAggregator.java:446 | ArrayList.add(index, x): one longer, `x` at `index`, the lines before `index` unchanged and those from it shifted by one |
| HeaderRepair.HasArtifactsRepositoryHeader | src/main/java/com/qualitype/nexus/plugins/tycho/internal/DefaultP2TychoRepositoryAggregator.java:432-434 | `lines.get(2)` throws exactly on fewer than three lines; otherwise the check holds exactly when line 2 contains `<repository` (with ArtifactsCheckNeedsThreeLines and RepairedArtifactsLines) |
| HeaderRepair.HasMetadataRepositoryHeader | src/main/java/com/qualitype/nexus/plugins/tycho/internal/DefaultP2TychoRepositoryAggregator.java:578-580 | `lines.get(1)` throws exactly on fewer than two lines; otherwise the check holds exactly when line 1 contains `<?metadataRepository` (with RepairedMetadataLines) |
| HeaderRepair.ArtifactsCheckNeedsThreeLines | src/main/java/com/qualitype/nexus/plugins/tycho/internal/DefaultP2TychoRepositoryAggregator.java:432-434 | the artifacts header check on the lines read from a file throws an index error exactly when fewer than three lines hold or precede a token |
| HeaderRepair.RepairedArtifactsLines | src/main/java/com/qualitype/nexus/plugins/tycho/internal/DefaultP2TychoRepositoryAggregator.java:444-466 | 3 lines longer; the simpleRepository root at index 2, the timestamp properties at 3, `</repository>` last; the original lines kept in order; the result passes the artifacts header check |
| HeaderRepair.RepairedMetadataLines | src/main/java/com/qualitype/nexus/plugins/tycho/internal/DefaultP2TychoRepositoryAggregator.java:551-580 | 4 lines longer; the processing instruction at 1, the LocalMetadataRepository root at 2, the timestamp properties at 3, `</repository>` last; the original lines kept in order; the result passes the metadata header check |
| HeaderRepair.FixArtifactsRepositoryHeader | src/main/java/com/qualitype/nexus/plugins/tycho/internal/DefaultP2TychoRepositoryAggregator.java:446-452 | the three in-place `add` calls leave exactly the repaired artifacts lines |
| HeaderRepair.FixMetadataRepositoryHeader | src/main/java/com/qualitype/nexus/plugins/tycho/internal/DefaultP2TychoRepositoryAggregator.java:554-562 | the four in-place `add` calls leave exactly the repaired metadata lines |
| LinkDerivation.SubDirectory | src/main/java/com/qualitype/nexus/plugins/tycho/internal/DefaultP2TychoRepositoryAggregator.java:487-492 | `/plugins/` exactly for `osgi.bundle`, `/features/` exactly for `org.eclipse.update.feature`, none exactly for every other classifier |
| LinkDerivation.LinkPath | src/main/java/com/qualitype/nexus/plugins/tycho/internal/DefaultP2TychoRepositoryAggregator.java:495-496 | the link path is the p2 root, then the sub-directory, then the artifact's id, `_`, its version and `.jar` |
| LinkDerivation.LinkPathOfBundle | src/main/java/com/qualitype/nexus/plugins/tycho/internal/DefaultP2TychoRepositoryAggregator.java:488-496 | the bundle `org.ops4j.base.lang` 1.2.3 is linked at `/.p2/plugins/org.ops4j.base.lang_1.2.3.jar` |
| LinkDerivation.LinkPathIsLinkPath | src/main/java/com/qualitype/nexus/plugins/tycho/internal/DefaultP2TychoRepositoryAggregator.java:494-496 | every link handleArtifacts makes or deletes lies under `/.p2/plugins/` or `/.p2/features/` |
| LinkDerivation.IndexPathsAreNotLinkPaths | src/main/java/com/qualitype/nexus/plugins/tycho/internal/DefaultP2TychoRepositoryAggregator.java:495-496 | no link path is the artifacts index or the content index |
| LinkDerivation.TextAfter | src/main/java/com/qualitype/nexus/plugins/tycho/internal/DefaultP2TychoRepositoryAggregator.java:501-502 | the substring call fails only with a string-index error, and its result is never longer than the string |
| LinkDerivation.TextAfterOccurrence | src/main/java/com/qualitype/nexus/plugins/tycho/internal/DefaultP2TychoRepositoryAggregator.java:501-502 | when the id occurs, the result is the text after its first occurrence: the string is the text before, the id, then the result |
| LinkDerivation.TextAfterNoOccurrence | src/main/java/com/qualitype/nexus/plugins/tycho/internal/DefaultP2TychoRepositoryAggregator.java:501-502 | when the id does not occur, indexOf gives -1, so the result is the string from index `length(id) - 1` on, or the call fails when that is past the end |
| LinkDerivation.ArtifactPath | src/main/java/com/qualitype/nexus/plugins/tycho/internal/DefaultP2TychoRepositoryAggregator.java:500-502 | the jar path derivation fails only with a string-index error, and the path is never longer than the rewritten fragment path |
| LinkDerivation.ArtifactPathAfterRepositoryId | src/main/java/com/qualitype/nexus/plugins/tycho/internal/DefaultP2TychoRepositoryAggregator.java:500-502 | when the repository id occurs in the rewritten fragment path, the jar path is the text after its first occurrence |
| LinkDerivation.ArtifactPathWithoutRepositoryId | src/main/java/com/qualitype/nexus/plugins/tycho/internal/DefaultP2TychoRepositoryAggregator.java:500-502 | when the repository id does not occur, the jar path is the rewritten path from `length(id) - 1` on, or the substring fails |
| LinkDerivation.FragmentSuffixBecomesJar | src/main/java/com/qualitype/nexus/plugins/tycho/internal/DefaultP2TychoRepositoryAggregator.java:500 | a path ending in `-p2artifacts.xml`, with no other occurrence of it, is rewritten to the same path ending in `.jar` |
| LinkDerivation.HandleEntries | src/main/java/com/qualitype/nexus/plugins/tycho/internal/DefaultP2TychoRepositoryAggregator.java:485-507 | the loop over the artifacts never changes the repository's id or storage |
| LinkDerivation.FailureStops | src/main/java/com/qualitype/nexus/plugins/tycho/internal/DefaultP2TychoRepositoryAggregator.java:485-507 | once an exception has escaped the loop, later artifacts change nothing |
| LinkDerivation.HandleEntriesFrame | src/main/java/com/qualitype/nexus/plugins/tycho/internal/DefaultP2TychoRepositoryAggregator.java:485-507 | the loop writes or deletes stored items only at link paths |
| LinkDerivation.MergeLinksEveryArtifact | src/main/java/com/qualitype/nexus/plugins/tycho/internal/DefaultP2TychoRepositoryAggregator.java:378-385 | after a merge with no exception, every plug-in and feature listed has a link, whose target is the one jar derived from the fragment path, the same for every artifact |
| LinkDerivation.RemoveUnlinksEveryArtifact | src/main/java/com/qualitype/nexus/plugins/tycho/internal/DefaultP2TychoRepositoryAggregator.java:397-404 | after a remove with no exception, no plug-in or feature listed has a link left |
| LinkDerivation.UnderivableJarPathChangesNothing | src/main/java/com/qualitype/nexus/plugins/tycho/internal/DefaultP2TychoRepositoryAggregator.java:500-505 | when the jar path cannot be derived, nothing is linked or unlinked, and the loop fails exactly when some artifact is a plug-in or feature |
| Engine.CollapseSeparators | src/main/java/com/qualitype/nexus/plugins/tycho/internal/DefaultP2TychoRepositoryAggregator.java:641 | java.io.File never lengthens a path and leaves one without a doubled separator unchanged |
| Engine.CreatedContentPathIsContentIndex | src/main/java/com/qualitype/nexus/plugins/tycho/internal/DefaultP2TychoRepositoryAggregator.java:641 | the path createP2Repository stores content.xml under (`/.p2//content.xml`) names the same file as the content index getP2Content reads |
| Engine.FileLines | src/main/java/com/qualitype/nexus/plugins/tycho/internal/DefaultP2TychoRepositoryAggregator.java:607 | a stored item has lines exactly when it is a plain file, and they are its content |
| Engine.OverwriteFile | src/main/java/com/qualitype/nexus/plugins/tycho/internal/DefaultP2TychoRepositoryAggregator.java:181 | FileUtils.copyFile onto a stored file replaces its content and keeps its context; no other item changes |
| Engine.OverwriteWithSameLines | src/main/java/com/qualitype/nexus/plugins/tycho/internal/DefaultP2TychoRepositoryAggregator.java:181 | copying a file's own lines back onto it leaves the store unchanged |
| Engine.CreateP2Repository | src/main/java/com/qualitype/nexus/plugins/tycho/internal/DefaultP2TychoRepositoryAggregator.java:626-646 | succeeds exactly when both toolkit writes do; the artifacts index is stored first and stays when the content write fails; on success both index files are replaced by the toolkit's empty ones |
| Engine.GetP2Index | src/main/java/com/qualitype/nexus/plugins/tycho/internal/DefaultP2TychoRepositoryAggregator.java:604-624 | without a file-system storage the call fails and changes nothing; an existing index is returned untouched; a missing one creates the whole aggregate, so both index files are written |
| Engine.StagedArtifacts | src/main/java/com/qualitype/nexus/plugins/tycho/internal/DefaultP2TychoRepositoryAggregator.java:411-420 | none exactly when fewer than three lines hold or precede a token; a fragment whose line 2 has the header is staged as it is (the repair is skipped); one without it is staged as its scanned lines, repaired; whatever is staged passes the artifacts header check |
| Engine.StagedMetadata | src/main/java/com/qualitype/nexus/plugins/tycho/internal/DefaultP2TychoRepositoryAggregator.java:535-544 | none exactly when fewer than two lines hold or precede a token; a fragment whose line 1 has the processing instruction is staged as it is (the repair is skipped); one without it is staged as its scanned lines, repaired; whatever is staged passes the metadata header check |
| Engine.ScannedLinesIdempotent | src/main/java/com/qualitype/nexus/plugins/tycho/internal/DefaultP2TychoRepositoryAggregator.java:582-590 | reading the lines a scan returns reads the same lines again |
| Engine.RepairedArtifactsAreScanned | src/main/java/com/qualitype/nexus/plugins/tycho/internal/DefaultP2TychoRepositoryAggregator.java:453-465 | a repaired artifacts fragment, written out and read back, is read whole |
| Engine.RepairedMetadataAreScanned | src/main/java/com/qualitype/nexus/plugins/tycho/internal/DefaultP2TychoRepositoryAggregator.java:563-575 | a repaired metadata fragment, written out and read back, is read whole |
| Engine.ProcessArtifacts | src/main/java/com/qualitype/nexus/plugins/tycho/internal/DefaultP2TychoRepositoryAggregator.java:407-430 | throws (leaking the source directory) exactly when the fragment cannot be read, and then changes nothing; every other failure is swallowed; only the staged artifacts.xml can change |
| Engine.MergeArtifacts | src/main/java/com/qualitype/nexus/plugins/tycho/internal/DefaultP2TychoRepositoryAggregator.java:419-426 | never throws; a toolkit failure leaves store and staged index as they were; only the staged artifacts.xml can change |
| Engine.ProcessMetadata | src/main/java/com/qualitype/nexus/plugins/tycho/internal/DefaultP2TychoRepositoryAggregator.java:532-549 | the store is never touched; it leaks exactly when the fragment cannot be read; a thrown failure leaves the staged index unchanged; only the staged content.xml can change |
| Engine.ProcessArtifactsFrame | src/main/java/com/qualitype/nexus/plugins/tycho/internal/DefaultP2TychoRepositoryAggregator.java:407-430 | processP2Artifacts writes the store only at link paths |
| Engine.MergeArtifactsFrame | src/main/java/com/qualitype/nexus/plugins/tycho/internal/DefaultP2TychoRepositoryAggregator.java:419-424 | the toolkit step and handleArtifacts write the store only at link paths |
| Engine.NoFileStorageNoChange | src/main/java/com/qualitype/nexus/plugins/tycho/internal/NexusUtils.java:110-125 | on a repository without a file-system storage, no update, remove or rebuild changes anything or leaks |
| Engine.ArtifactsOperationFrame | src/main/java/com/qualitype/nexus/plugins/tycho/internal/DefaultP2TychoRepositoryAggregator.java:166-185 | an artifacts operation on an existing aggregate changes only the artifacts index and link paths |
| Engine.ArtifactsToolkitFailureSwallowed | src/main/java/com/qualitype/nexus/plugins/tycho/internal/DefaultP2TychoRepositoryAggregator.java:412-426 | a header-check or toolkit failure on the artifact side is swallowed; the copy-back still runs with the staged copy, which a failed toolkit call is taken to leave unchanged, so the store is unchanged and nothing leaks |
| Engine.MetadataOperationExposesToolkitResult | src/main/java/com/qualitype/nexus/plugins/tycho/internal/DefaultP2TychoRepositoryAggregator.java:239-249 | a completed metadata operation exposes exactly what the toolkit made of the staged content index, and leaks nothing |
| Engine.ArtifactsOperationExposesToolkitResult | src/main/java/com/qualitype/nexus/plugins/tycho/internal/DefaultP2TychoRepositoryAggregator.java:173-181 | a completed artifacts operation exposes exactly what the toolkit made of the staged index |
| Engine.MetadataFailureKeepsContent | src/main/java/com/qualitype/nexus/plugins/tycho/internal/DefaultP2TychoRepositoryAggregator.java:234-254 | a metadata failure propagates and skips the copy-back: the store is unchanged, and the staging directory leaks only when the fragment could not be read |
| Engine.MetadataOperationFrame | src/main/java/com/qualitype/nexus/plugins/tycho/internal/DefaultP2TychoRepositoryAggregator.java:227-260 | a metadata operation touches nothing but the two index files |
| Engine.MissingContentResetsArtifacts | src/main/java/com/qualitype/nexus/plugins/tycho/internal/DefaultP2TychoRepositoryAggregator.java:615-646 | a metadata operation on a repository whose content index is missing replaces an existing artifacts index with the toolkit's empty one |
| Engine.VisitFile | src/main/java/com/qualitype/nexus/plugins/tycho/internal/DefaultP2TychoRepositoryAggregator.java:330-342 | onFile keeps the repository's id and storage and the staged file names, and only an exception leaks |
| Engine.VisitFragment | src/main/java/com/qualitype/nexus/plugins/tycho/internal/DefaultP2TychoRepositoryAggregator.java:333-337 | the dispatch keeps the repository's id and storage and the staged file names, and only an exception leaks |
| Engine.VisitNonFragment | src/main/java/com/qualitype/nexus/plugins/tycho/internal/DefaultP2TychoRepositoryAggregator.java:330-342 | onFile for a file that is no fragment either skips it or aborts the scan; nothing is written |
| Engine.VisitStoredFragment | src/main/java/com/qualitype/nexus/plugins/tycho/internal/DefaultP2TychoRepositoryAggregator.java:330-342 | onFile for a stored file whose item path does not start with `/.` processes an artifacts fragment exactly as updateP2Artifacts does, otherwise a content fragment exactly as updateP2Metadata does, on the rebuild's staging directory; any other file is left alone |
| Engine.HiddenFileSkipped | src/main/java/com/qualitype/nexus/plugins/tycho/internal/DefaultP2TychoRepositoryAggregator.java:332 | a stored file whose item path starts with `/.` is skipped |
| Engine.VisitFileFrame | src/main/java/com/qualitype/nexus/plugins/tycho/internal/DefaultP2TychoRepositoryAggregator.java:330-342 | onFile writes the store only at link paths |
| Engine.Scan | src/main/java/com/qualitype/nexus/plugins/tycho/internal/DefaultP2TychoRepositoryAggregator.java:327-344 | the scan keeps the repository's id and storage and the staged file names; a scan that starts aborted changes nothing; only an aborted scan leaks |
| Engine.ScanToLast | src/main/java/com/qualitype/nexus/plugins/tycho/internal/DefaultP2TychoRepositoryAggregator.java:327-344 | what Scan states, for the scan of all files but the last followed by onFile for the last |
| Engine.ScanRepository | src/main/java/com/qualitype/nexus/plugins/tycho/internal/DefaultP2TychoRepositoryAggregator.java:327-344 | the scan from a clean start keeps the repository's id and storage and the staged file names, and leaks only by aborting |
| Engine.ScanStep | src/main/java/com/qualitype/nexus/plugins/tycho/internal/DefaultP2TychoRepositoryAggregator.java:327-344 | the scan over one more file is onFile for it after the scan so far, unless that aborted |
| Engine.ScanAbortStops | src/main/java/com/qualitype/nexus/plugins/tycho/internal/DefaultP2TychoRepositoryAggregator.java:339-341 | once onFile has thrown, the scanner visits no further file |
| Engine.ScanFrame | src/main/java/com/qualitype/nexus/plugins/tycho/internal/DefaultP2TychoRepositoryAggregator.java:327-344 | the scan writes the store only at link paths |
| Engine.ScanWithoutFragments | src/main/java/com/qualitype/nexus/plugins/tycho/internal/DefaultP2TychoRepositoryAggregator.java:327-344 | a scan over files that hold no p2 fragment writes nothing and leaks nothing |
| Engine.NoFragmentsInPrefix | src/main/java/com/qualitype/nexus/plugins/tycho/internal/DefaultP2TychoRepositoryAggregator.java:327-344 | files without a fragment stay without one when the last is dropped |
| Engine.Staging | src/main/java/com/qualitype/nexus/plugins/tycho/internal/DefaultP2TychoRepositoryAggregator.java:317-325 | keeps the repository's id and storage; on success both index files are staged, and on an existing aggregate they are staged as they are, with the store unchanged |
| Engine.RebuildStaged | src/main/java/com/qualitype/nexus/plugins/tycho/internal/DefaultP2TychoRepositoryAggregator.java:327-353 | only an aborted scan leaks the staging directory |
| Engine.CompletedRebuildCopiesBack | src/main/java/com/qualitype/nexus/plugins/tycho/internal/DefaultP2TychoRepositoryAggregator.java:345-349 | when the scan completes, both staged index files are copied back once, after the scan: the exposed artifacts and content indexes are what the scan left staged, and nothing leaks |
| Engine.CompletedRebuildExposesScan | src/main/java/com/qualitype/nexus/plugins/tycho/internal/DefaultP2TychoRepositoryAggregator.java:317-349 | on an existing aggregate, a rebuild whose scan completes exposes as both indexes what the scan made of the staged copies of them |
| Engine.AbortedRebuildKeepsIndexes | src/main/java/com/qualitype/nexus/plugins/tycho/internal/DefaultP2TychoRepositoryAggregator.java:339-353 | when the scan aborts, neither copy-back runs: both exposed index files keep their contents |
| Engine.RebuildWithoutFragmentsIsIdentity | src/main/java/com/qualitype/nexus/plugins/tycho/internal/DefaultP2TychoRepositoryAggregator.java:297-360 | when the scanner visits each stored item once, rebuilding an existing aggregate of a repository none of whose stored items is a p2 fragment leaves the store as it was and leaks nothing |
| Engine.RebuildOne | src/main/java/com/qualitype/nexus/plugins/tycho/internal/DefaultP2TychoRepositoryAggregator.java:297-360 | a configured, registered repository is rebuilt; any other id changes nothing; at most one directory leaks |
| Engine.RebuildEach | src/main/java/com/qualitype/nexus/plugins/tycho/internal/DefaultP2TychoRepositoryAggregator.java:362-367 | every repository not configured or not in the list is untouched, no repository is added or lost, and at most one directory leaks per repository |
| Engine.RebuildEachRebuildsListed | src/main/java/com/qualitype/nexus/plugins/tycho/internal/DefaultP2TychoRepositoryAggregator.java:362-367 | over a list without repeats, every configured, registered repository in the list ends as Rebuild gives for its original state |
| Engine.RebuildEachOfRegistry | src/main/java/com/qualitype/nexus/plugins/tycho/internal/DefaultP2TychoRepositoryAggregator.java:362-367 | when the registry lists each repository once, every configured repository ends rebuilt from its registered state and every other one is unchanged |
| Engine.EnsureP2Repository | src/main/java/com/qualitype/nexus/plugins/tycho/internal/DefaultP2TychoRepositoryAggregator.java:113-123 | the aggregate is created exactly when there is no `/.p2` item |
| Engine.DeleteP2Directory | src/main/java/com/qualitype/nexus/plugins/tycho/internal/DefaultP2TychoRepositoryAggregator.java:138-139 | deleteItem of `/.p2` succeeds exactly when something lies at or below `/.p2`, removes all of it and keeps every other item |
| Engine.RemoveUndoesAdd | src/main/java/com/qualitype/nexus/plugins/tycho/internal/DefaultP2TychoRepositoryAggregator.java:109-147 | removing the aggregate that addConfiguration created gives back the repository as it was |
| Aggregator.P2TychoRepositoryAggregator.constructor | src/main/java/com/qualitype/nexus/plugins/tycho/internal/DefaultP2TychoRepositoryAggregator.java:94-102 | starts with the given registry, no configuration, no lock held and no temporary directory; the scanner and the registry must visit each entry once |
| Aggregator.P2TychoRepositoryAggregator.GetConfiguration | src/main/java/com/qualitype/nexus/plugins/tycho/internal/DefaultP2TychoRepositoryAggregator.java:104-107 | some configuration exactly when one is enabled for the id, and it is keyed by its own repository id |
| Aggregator.P2TychoRepositoryAggregator.EnableAggregationFor | src/main/java/com/qualitype/nexus/plugins/tycho/internal/DefaultP2TychoRepositoryAggregator.java:149-152 | the configuration is put under its repository id; every other entry and all other state unchanged |
| Aggregator.P2TychoRepositoryAggregator.DisableAggregationFor | src/main/java/com/qualitype/nexus/plugins/tycho/internal/DefaultP2TychoRepositoryAggregator.java:154-157 | the configuration's repository id is removed; every other entry and all other state unchanged |
| Aggregator.P2TychoRepositoryAggregator.Lock | src/main/java/com/qualitype/nexus/plugins/tycho/internal/DefaultP2TychoRepositoryAggregator.java:171 | the repository's lock is added to the held locks and nothing else changes |
| Aggregator.P2TychoRepositoryAggregator.Unlock | src/main/java/com/qualitype/nexus/plugins/tycho/internal/DefaultP2TychoRepositoryAggregator.java:183 | one hold of the repository's lock is released and nothing else changes |
| Aggregator.P2TychoRepositoryAggregator.CreateTemporaryP2Repository | src/main/java/com/qualitype/nexus/plugins/tycho/internal/DefaultP2TychoRepositoryAggregator.java:648-653 | a new, empty directory; one more temporary directory exists |
| Aggregator.P2TychoRepositoryAggregator.DeleteDirectory | src/main/java/com/qualitype/nexus/plugins/tycho/internal/DefaultP2TychoRepositoryAggregator.java:184 | one temporary directory fewer exists |
| Aggregator.P2TychoRepositoryAggregator.CreateP2Repository | src/main/java/com/qualitype/nexus/plugins/tycho/internal/DefaultP2TychoRepositoryAggregator.java:626-646 | the repository ends as Engine.CreateP2Repository gives; its temporary directory is deleted |
| Aggregator.P2TychoRepositoryAggregator.GetP2Artifacts | src/main/java/com/qualitype/nexus/plugins/tycho/internal/DefaultP2TychoRepositoryAggregator.java:604-613 | the repository ends as GetP2Index for the artifacts index gives |
| Aggregator.P2TychoRepositoryAggregator.GetP2Content | src/main/java/com/qualitype/nexus/plugins/tycho/internal/DefaultP2TychoRepositoryAggregator.java:615-624 | the repository ends as GetP2Index for the content index gives |
| Aggregator.P2TychoRepositoryAggregator.HandleArtifacts | src/main/java/com/qualitype/nexus/plugins/tycho/internal/DefaultP2TychoRepositoryAggregator.java:477-508 | the loop leaves the repository and the failure flag that LinkDerivation.HandleArtifacts gives |
| Aggregator.P2TychoRepositoryAggregator.StageArtifactsFragment | src/main/java/com/qualitype/nexus/plugins/tycho/internal/DefaultP2TychoRepositoryAggregator.java:411-417 | reading and repairing the fragment stages what StagedArtifacts gives |
| Aggregator.P2TychoRepositoryAggregator.StageMetadataFragment | src/main/java/com/qualitype/nexus/plugins/tycho/internal/DefaultP2TychoRepositoryAggregator.java:535-541 | reading and repairing the fragment stages what StagedMetadata gives |
| Aggregator.P2TychoRepositoryAggregator.ProcessP2Artifacts | src/main/java/com/qualitype/nexus/plugins/tycho/internal/DefaultP2TychoRepositoryAggregator.java:407-430 | the repository, staging directory, thrown flag and leaked directory are those of ProcessArtifacts |
| Aggregator.P2TychoRepositoryAggregator.MergeP2Artifacts | src/main/java/com/qualitype/nexus/plugins/tycho/internal/DefaultP2TychoRepositoryAggregator.java:419-424 | the repository and staging directory are those of MergeArtifacts |
| Aggregator.P2TychoRepositoryAggregator.ProcessP2Metadata | src/main/java/com/qualitype/nexus/plugins/tycho/internal/DefaultP2TychoRepositoryAggregator.java:532-549 | the registry is untouched, and the staging directory, thrown flag and leaked directory are those of ProcessMetadata |
| Aggregator.P2TychoRepositoryAggregator.ArtifactsOperationFor | src/main/java/com/qualitype/nexus/plugins/tycho/internal/DefaultP2TychoRepositoryAggregator.java:161-170 | with no configuration or no such repository nothing changes; otherwise the repository ends as ArtifactsOperation gives; locks always balanced |
| Aggregator.P2TychoRepositoryAggregator.LockedArtifactsOperation | src/main/java/com/qualitype/nexus/plugins/tycho/internal/DefaultP2TychoRepositoryAggregator.java:170-185 | the repository ends as ArtifactsOperation gives, the lock is released and the staging directory deleted |
| Aggregator.P2TychoRepositoryAggregator.ExposeArtifacts | src/main/java/com/qualitype/nexus/plugins/tycho/internal/DefaultP2TychoRepositoryAggregator.java:174-181 | getting the index and applying the fragment leave the repository ArtifactsOperation gives |
| Aggregator.P2TychoRepositoryAggregator.ApplyArtifactsFragmentTo | src/main/java/com/qualitype/nexus/plugins/tycho/internal/DefaultP2TychoRepositoryAggregator.java:175-181 | staging the index, processing and copying back leave the repository ApplyArtifactsFragment gives |
| Aggregator.P2TychoRepositoryAggregator.ProcessArtifactsAndCopyBack | src/main/java/com/qualitype/nexus/plugins/tycho/internal/DefaultP2TychoRepositoryAggregator.java:178-181 | processing, then the copy-back unless processing threw, as CopyBack of ProcessArtifacts gives |
| Aggregator.P2TychoRepositoryAggregator.MetadataOperationFor | src/main/java/com/qualitype/nexus/plugins/tycho/internal/DefaultP2TychoRepositoryAggregator.java:229-239 | with no configuration or no such repository nothing changes; otherwise the repository ends as MetadataOperation gives; locks always balanced |
| Aggregator.P2TychoRepositoryAggregator.LockedMetadataOperation | src/main/java/com/qualitype/nexus/plugins/tycho/internal/DefaultP2TychoRepositoryAggregator.java:239-254 | the repository ends as MetadataOperation gives, the lock is released and the staging directory deleted |
| Aggregator.P2TychoRepositoryAggregator.ExposeMetadata | src/main/java/com/qualitype/nexus/plugins/tycho/internal/DefaultP2TychoRepositoryAggregator.java:242-250 | getting the index and applying the fragment leave the repository MetadataOperation gives |
| Aggregator.P2TychoRepositoryAggregator.ApplyMetadataFragmentTo | src/main/java/com/qualitype/nexus/plugins/tycho/internal/DefaultP2TychoRepositoryAggregator.java:243-250 | staging the index, processing and copying back leave the repository ApplyMetadataFragment gives |
| Aggregator.P2TychoRepositoryAggregator.CopyFileBack | src/main/java/com/qualitype/nexus/plugins/tycho/internal/DefaultP2TychoRepositoryAggregator.java:181 | the exposed file at the path is overwritten with the staged lines and nothing else changes |
| Aggregator.P2TychoRepositoryAggregator.UpdateP2Artifacts | src/main/java/com/qualitype/nexus/plugins/tycho/internal/DefaultP2TychoRepositoryAggregator.java:159-191 | no configuration: nothing changes; otherwise the repository ends as the artifacts merge operation gives, exceptions are swallowed and the lock is released |
| Aggregator.P2TychoRepositoryAggregator.RemoveP2Artifacts | src/main/java/com/qualitype/nexus/plugins/tycho/internal/DefaultP2TychoRepositoryAggregator.java:193-225 | no configuration: nothing changes; otherwise the repository ends as the artifacts remove operation gives |
| Aggregator.P2TychoRepositoryAggregator.UpdateP2Metadata | src/main/java/com/qualitype/nexus/plugins/tycho/internal/DefaultP2TychoRepositoryAggregator.java:227-260 | no configuration: nothing changes; otherwise the repository ends as the metadata merge operation gives |
| Aggregator.P2TychoRepositoryAggregator.RemoveP2Metadata | src/main/java/com/qualitype/nexus/plugins/tycho/internal/DefaultP2TychoRepositoryAggregator.java:262-295 | no configuration: nothing changes; otherwise the repository ends as the metadata remove operation gives |
| Aggregator.P2TychoRepositoryAggregator.OnFile | src/main/java/com/qualitype/nexus/plugins/tycho/internal/DefaultP2TychoRepositoryAggregator.java:330-342 | the repository, the staging directory, the abort and any leaked directory are those VisitFile gives |
| Aggregator.P2TychoRepositoryAggregator.OnFragment | src/main/java/com/qualitype/nexus/plugins/tycho/internal/DefaultP2TychoRepositoryAggregator.java:333-337 | the dispatch leaves what VisitFragment gives |
| Aggregator.P2TychoRepositoryAggregator.ScanNext | src/main/java/com/qualitype/nexus/plugins/tycho/internal/DefaultP2TychoRepositoryAggregator.java:327-344 | one more file scanned leaves what ScanRepository gives for one more file |
| Aggregator.P2TychoRepositoryAggregator.ScanStorage | src/main/java/com/qualitype/nexus/plugins/tycho/internal/DefaultP2TychoRepositoryAggregator.java:327-344 | the scan leaves what ScanRepository gives, and stops at the first exception |
| Aggregator.P2TychoRepositoryAggregator.ScanAndRebuild | src/main/java/com/qualitype/nexus/plugins/tycho/internal/DefaultP2TychoRepositoryAggregator.java:297-360 | the registry ends as RebuildOne gives: no configuration, no such repository or no file-system storage changes nothing |
| Aggregator.P2TychoRepositoryAggregator.RebuildLocked | src/main/java/com/qualitype/nexus/plugins/tycho/internal/DefaultP2TychoRepositoryAggregator.java:309-354 | the repository ends as Rebuild gives, under one lock held across the whole scan and released after |
| Aggregator.P2TychoRepositoryAggregator.RebuildInto | src/main/java/com/qualitype/nexus/plugins/tycho/internal/DefaultP2TychoRepositoryAggregator.java:315-349 | staging, scan and copy-back leave the repository Rebuild gives |
| Aggregator.P2TychoRepositoryAggregator.StageIndexes | src/main/java/com/qualitype/nexus/plugins/tycho/internal/DefaultP2TychoRepositoryAggregator.java:317-325 | the repository and the staging directory are those Staging gives |
| Aggregator.P2TychoRepositoryAggregator.RebuildFromStaged | src/main/java/com/qualitype/nexus/plugins/tycho/internal/DefaultP2TychoRepositoryAggregator.java:327-349 | the scan, then both copy-backs unless it aborted, leave the repository RebuildStaged gives |
| Aggregator.P2TychoRepositoryAggregator.ScanAndRebuildAll | src/main/java/com/qualitype/nexus/plugins/tycho/internal/DefaultP2TychoRepositoryAggregator.java:362-367 | scanAndRebuild once per registered repository, in registry order, as RebuildEach gives: every configured repository ends rebuilt from its state before the call, every other one unchanged |
| Aggregator.P2TychoRepositoryAggregator.AddConfiguration | src/main/java/com/qualitype/nexus/plugins/tycho/internal/DefaultP2TychoRepositoryAggregator.java:109-129 | an unknown repository changes nothing; otherwise the aggregate is created when `/.p2` is missing, and a failure there is rethrown |
| Aggregator.P2TychoRepositoryAggregator.RemoveConfiguration | src/main/java/com/qualitype/nexus/plugins/tycho/internal/DefaultP2TychoRepositoryAggregator.java:131-147 | an unknown repository changes nothing; otherwise `/.p2` and everything below it is deleted, and a failure is logged |

The functions `Engine.ArtifactsOperation`, `Engine.ApplyArtifactsFragment`, `Engine.CopyBack`, `Engine.MetadataOperation`, `Engine.ApplyMetadataFragment` and `Engine.Rebuild` define what the four update/remove operations and a rebuild do to a store.
Their own contracts only keep the repository's id and storage.
What those operations promise is stated by the lemmas above that name them, and the class methods are proved to follow them.

## Left out

- The p2 bridge toolkit (`ArtifactRepository`, `MetadataRepository`) is uninterpreted: merge, remove, write and `getInstallableArtifacts` obey no laws here. So "merge then remove gives back the empty index" and "two rebuilds give identical indexes" cannot be stated.
- `isP2ArtifactsXML` / `isP2ContentXML` live in inspector classes that are not part of this model; they are predicates given as parameters.
- `NexusUtils.deleteLink` is called at DefaultP2TychoRepositoryAggregator.java:402, but NexusUtils.java does not define it. It is modelled as removal of the item at the link path, which does nothing when the path is free.
- P2Constants is not part of this model. The root `/.p2` comes from the expected link path in the deploy integration test. The index paths `/artifacts.xml` and `/content.xml` are assumed (the code joins them to the root with and without an extra `/`).
- File contents are sequences of lines. Bytes, encodings and line terminators are not modelled. Copying a file is a map assignment. The repair's `PrintWriter` temporary file is the repaired list of lines.
- On-disk link items are not modelled. Reading a stored link as a file counts as an unreadable file.
- `storeItemFromFile`'s MIME type guess and item attributes are not modelled. A stored file gets an empty context.
- Temporary directories are counted, not named. Their random names and any I/O failure of creating, copying or deleting them are left out: these steps never fail in the model.
- `getCanonicalFile` is not modelled. The segments are taken from the path as given, and its `IOException`-to-null branch is left out.
- `retrieveFile`, `safeRetrieveFile` and `localStorageOfRepositoryAsFile` are not separate members. A repository without a file-system storage (its base directory is `None`) makes each operation fail and be logged. The model does not tell a `ClassCastException` from the null dereference that follows when `safeRetrieveFile` returns null.
- A `/.p2` directory exists for `addConfiguration` and `removeConfiguration` when some item lies at or below `/.p2`. Nexus collections are not modelled otherwise.
- Locking is a multiset of held repository ids. Blocking, lock modes (`create` / `update`) and the mutual exclusion of concurrent operations are not modelled.
- `SerialScanner`'s walk of the directory tree is a flat sequence of item paths, computed from the store before the scan, so files created during the scan are not visited. The `Engine` functions accept any such sequence. The class requires it to name every stored item exactly once (`Engine.ScansEachItemOnce`).
- Each operation uses one timestamp `now`. The code reads the clock at each repair, so fragments repaired during one rebuild carry one timestamp in the model.
- Integers are unbounded. `Date.getTime()` returns a `long`; the model takes `now` as an unbounded integer, so no overflow is modelled.
- Strings are sequences of Unicode characters. Indices count characters, not UTF-16 code units.
- Logging is left out, along with the capability classes that enable and disable aggregation.
- `NexusUtils.IsHidden`'s contract states only the null case and non-emptiness. Its meaning for stored files is stated by `NexusUtils.HiddenItemPath` and `NexusUtils.HiddenStoredFile`.
- `LinkDerivation.HandleEntries`'s contract states only that the repository's id and storage are kept. Its effect on links is stated by `FailureStops`, `HandleEntriesFrame`, `MergeLinksEveryArtifact`, `RemoveUnlinksEveryArtifact` and `UnderivableJarPathChangesNothing`.
- `Engine.MergeArtifacts` and `Engine.ArtifactsToolkitFailureSwallowed`: a toolkit merge or remove that throws (`None`) is modelled as leaving the staged index it writes to unchanged. The code swallows that exception and then copies the temporary `artifacts.xml` back (DefaultP2TychoRepositoryAggregator.java:181), exposing whatever the failed call left there. What a failing toolkit call leaves behind is toolkit behaviour, so it is not modelled, and "the store is unchanged" after a toolkit failure holds only under this assumption.
