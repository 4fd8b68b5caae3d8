/**
 * What each operation of DefaultP2TychoRepositoryAggregator does to one
 * repository's store, as functions of the store before it.  The aggregator
 * class performs the same steps one at a time; these functions are what its
 * methods are proved against, and the lemmas below are the properties of
 * the operations.
 */
module Engine {
  import opened Outcomes
  import opened Text
  import opened NexusUtils
  import opened P2Constants
  import opened P2Bridge
  import opened HeaderRepair
  import opened LinkDerivation

  /** The exposed artifacts index of the aggregate. */
  const ArtifactsIndexPath := P2RepositoryRootPath + ArtifactsXml
  /** The exposed content (metadata) index of the aggregate. */
  const ContentIndexPath := P2RepositoryRootPath + ContentXml
  /** The path createP2Repository stores content.xml under (with a doubled separator). */
  const CreatedContentPath := P2RepositoryRootPath + "/" + ContentXml
  /** The file names the class uses inside a temporary p2 repository. */
  const ArtifactsFileName := "artifacts.xml"
  const ContentFileName := "content.xml"

  /** A temporary directory: the lines of each file in it, by file name. */
  type Directory = map<string, Content>

  /** A repository-level p2 aggregation configuration. */
  datatype Configuration = Configuration(repositoryId: string, properties: map<string, string>)

  /**
   * The collaborators the aggregator is given: the p2 bridge, the fragment
   * inspectors (on file paths), the order in which the storage scanner visits
   * the stored items, and the order in which the registry lists repositories.
   */
  datatype Services = Services(
    toolkit: Toolkit,
    isP2ArtifactsXml: string -> bool,
    isP2ContentXml: string -> bool,
    scanOrder: map<string, Item> -> seq<string>,
    repositoryOrder: map<string, Repository> -> seq<string>)

  /** `ids` lists the elements of `keys`, each exactly once. */
  ghost predicate ListsEachOnce(ids: seq<string>, keys: set<string>) {
    (forall k :: k in keys <==> k in ids) && (forall i, j | 0 <= i < j < |ids| :: ids[i] != ids[j])
  }

  /** The storage scanner visits every stored item exactly once. */
  ghost predicate ScansEachItemOnce(sv: Services) {
    forall items: map<string, Item> :: ListsEachOnce(sv.scanOrder(items), items.Keys)
  }

  /** The registry lists every repository exactly once. */
  ghost predicate ListsEachRepositoryOnce(sv: Services) {
    forall registry: map<string, Repository> :: ListsEachOnce(sv.repositoryOrder(registry), registry.Keys)
  }

  // ----- files of the storage -----

  /** No separator is directly followed by another. */
  predicate NoDoubledSeparator(p: string) {
    forall i :: 0 <= i < |p| - 1 ==> !(p[i] == '/' && p[i + 1] == '/')
  }

  /**
   * java.io.File's collapsing of repeated separators, through which the
   * file-system storage resolves a request path.
   */
  function CollapseSeparators(p: string): (r: string)
    ensures |r| <= |p|
    ensures NoDoubledSeparator(p) ==> r == p
    decreases |p|
  {
    if |p| < 2 then p
    else if p[0] == '/' && p[1] == '/' then CollapseSeparators(p[1..])
    else
      [p[0]] + CollapseSeparators(p[1..])
  }

  /** createP2Repository's content path names the same file as getP2Content's. */
  lemma CreatedContentPathIsContentIndex()
    ensures CollapseSeparators(CreatedContentPath) == ContentIndexPath
  {
    var p := CreatedContentPath;
    assert p[..4] + p[5..] == ContentIndexPath;
    CollapseRootJoin(p);
  }

  /** A separator doubled right after a four-character root directory is collapsed. */
  lemma CollapseRootJoin(p: string)
    requires |p| >= 6 && p[1] != '/' && p[2] != '/' && p[3] != '/' && p[4] == '/' && p[5] == '/'
    requires NoDoubledSeparator(p[5..])
    ensures CollapseSeparators(p) == p[..4] + p[5..]
  {
    assert CollapseSeparators(p[4..]) == p[5..] by {
      assert p[4..][1..] == p[5..];
    }
    KeepLeadingCharacter(p[3..]);
    KeepLeadingCharacter(p[2..]);
    KeepLeadingCharacter(p[1..]);
    KeepLeadingCharacter(p);
    assert p[3..][1..] == p[4..] && p[2..][1..] == p[3..] && p[1..][1..] == p[2..];
  }

  /** A leading character that does not start a doubled separator is kept. */
  lemma KeepLeadingCharacter(p: string)
    requires |p| >= 2 && !(p[0] == '/' && p[1] == '/')
    ensures CollapseSeparators(p) == [p[0]] + CollapseSeparators(p[1..])
  {
  }

  /** The lines of the file that stores the item at `path`, when it is a plain file. */
  function FileLines(repo: Repository, path: string): (r: Option<Content>)
    ensures r.Some? <==> path in repo.items && repo.items[path].FileItem?
    ensures r.Some? ==> r.value == repo.items[path].content
  {
    if path in repo.items && repo.items[path].FileItem? then Some(repo.items[path].content) else None
  }

  /** storeItemFromFile: a new file item, with an empty context, at `path`. */
  function StoreFile(repo: Repository, path: string, c: Content): Repository {
    repo.(items := repo.items[path := FileItem(c, map[])])
  }

  /**
   * FileUtils.copyFile onto the file of a stored item: the content changes,
   * the item's context stays.
   */
  function OverwriteFile(repo: Repository, path: string, c: Content): (r: Repository)
    ensures r.id == repo.id && r.baseDir == repo.baseDir
    ensures r.items.Keys == repo.items.Keys + {path}
    ensures r.items[path].FileItem? && r.items[path].content == c
    ensures path in repo.items ==> r.items[path].context == repo.items[path].context
    ensures r.items == repo.items[path := r.items[path]]
  {
    var context := if path in repo.items then repo.items[path].context else map[];
    repo.(items := repo.items[path := FileItem(c, context)])
  }

  /** Copying a plain file's own lines back onto it changes nothing. */
  lemma OverwriteWithSameLines(repo: Repository, path: string)
    requires FileLines(repo, path).Some?
    ensures OverwriteFile(repo, path, FileLines(repo, path).value) == repo
  {
    assert OverwriteFile(repo, path, FileLines(repo, path).value).items == repo.items;
  }

  /** The path of the file storing the item at `path` under base directory `base`. */
  function StorageFile(base: string, path: string): string {
    base + path
  }

  // ----- lazy creation of the aggregate -----

  /** Whether a step ran to its end or an exception escaped it, and the store it left. */
  datatype Attempt = Attempt(repo: Repository, ok: bool)

  /**
   * createP2Repository: the toolkit writes an empty artifacts.xml, which is
   * stored as the artifacts index, then an empty content.xml, stored as the
   * content index.  A failure of the second write leaves the first in place.
   */
  function CreateP2Repository(tk: Toolkit, repo: Repository): (r: Attempt)
    ensures r.repo.id == repo.id && r.repo.baseDir == repo.baseDir
    ensures r.ok <==> tk.artifactsWrite(repo.id).Some? && tk.metadataWrite(repo.id).Some?
    ensures tk.artifactsWrite(repo.id).None? ==> r.repo == repo
    ensures tk.artifactsWrite(repo.id).Some? && !r.ok ==>
      r.repo.items == repo.items[ArtifactsIndexPath := FileItem(tk.artifactsWrite(repo.id).value, map[])]
    ensures r.ok ==>
      r.repo.items == repo.items[ArtifactsIndexPath := FileItem(tk.artifactsWrite(repo.id).value, map[])]
                                [ContentIndexPath := FileItem(tk.metadataWrite(repo.id).value, map[])]
  {
    CreatedContentPathIsContentIndex();
    match tk.artifactsWrite(repo.id)
    case None => Attempt(repo, false)
    case Some(artifacts) =>
      var withArtifacts := StoreFile(repo, ArtifactsIndexPath, artifacts);
      match tk.metadataWrite(repo.id)
      case None => Attempt(withArtifacts, false)
      case Some(content) => Attempt(StoreFile(withArtifacts, CollapseSeparators(CreatedContentPath), content), true)
  }

  /**
   * getP2Artifacts / getP2Content: needs a file-system storage; when the
   * index file is missing, creates the whole aggregate first.
   */
  function GetP2Index(tk: Toolkit, repo: Repository, path: string): (r: Attempt)
    requires path == ArtifactsIndexPath || path == ContentIndexPath
    ensures repo.baseDir.None? ==> r == Attempt(repo, false)
    ensures repo.baseDir.Some? && path in repo.items ==> r == Attempt(repo, true)
    ensures repo.baseDir.Some? && path !in repo.items ==> r == CreateP2Repository(tk, repo)
    ensures r.ok ==> r.repo.baseDir.Some? && path in r.repo.items
    ensures r.repo.id == repo.id && r.repo.baseDir == repo.baseDir
  {
    if repo.baseDir.None? then Attempt(repo, false)
    else if path in repo.items then Attempt(repo, true)
    else CreateP2Repository(tk, repo)
  }

  // ----- processP2Artifacts / processP2Metadata -----

  /**
   * What becomes the `artifacts.xml` of the temporary source repository for a
   * fragment whose file holds `text`: the file itself when it has a
   * repository header, else its scanned lines, repaired.  None when the
   * header check fails for want of lines.
   */
  function StagedArtifacts(text: Content, now: int): (r: Option<Content>)
    ensures r.None? <==> TokenLinesEnd(text) < 3
    ensures r.Some? ==> HasArtifactsRepositoryHeader(ScannedLines(r.value)) == Ok(true)
    ensures HasArtifactsRepositoryHeader(ScannedLines(text)) == Ok(true) ==> r == Some(text)
    ensures HasArtifactsRepositoryHeader(ScannedLines(text)) == Ok(false) ==>
      r == Some(RepairedArtifactsLines(ScannedLines(text), now))
  {
    var lines := ScannedLines(text);
    match HasArtifactsRepositoryHeader(lines)
    case Throws(_) => None
    case Ok(has) =>
      if has then
        ScannedLinesIdempotent(text);
        Some(text)
      else
        RepairedArtifactsAreScanned(lines, now);
        Some(RepairedArtifactsLines(lines, now))
  }

  /** The `content.xml` of the temporary source repository for a metadata fragment. */
  function StagedMetadata(text: Content, now: int): (r: Option<Content>)
    ensures r.None? <==> TokenLinesEnd(text) < 2
    ensures r.Some? ==> HasMetadataRepositoryHeader(ScannedLines(r.value)) == Ok(true)
    ensures HasMetadataRepositoryHeader(ScannedLines(text)) == Ok(true) ==> r == Some(text)
    ensures HasMetadataRepositoryHeader(ScannedLines(text)) == Ok(false) ==>
      r == Some(RepairedMetadataLines(ScannedLines(text), now))
  {
    var lines := ScannedLines(text);
    match HasMetadataRepositoryHeader(lines)
    case Throws(_) => None
    case Ok(has) =>
      if has then
        ScannedLinesIdempotent(text);
        Some(text)
      else
        RepairedMetadataAreScanned(lines, now);
        Some(RepairedMetadataLines(lines, now))
  }

  /** Scanning a file reads the same lines as scanning the lines it reads. */
  lemma ScannedLinesIdempotent(text: Content)
    ensures ScannedLines(ScannedLines(text)) == ScannedLines(text)
  {
    EndedLinesAreScanned(ScannedLines(text));
  }

  /** A file whose last line holds a token is read whole. */
  lemma EndedLinesAreScanned(lines: Content)
    requires lines == [] || !IsBlank(lines[|lines| - 1])
    ensures ScannedLines(lines) == lines
  {
    assert lines[..|lines|] == lines;
  }

  /** The closing line the repairs append holds a token. */
  lemma RepositoryEndIsNotBlank()
    ensures !IsBlank(RepositoryEnd)
  {
    assert RepositoryEnd[0] == '<';
  }

  /** A repaired artifacts fragment is read back whole. */
  lemma RepairedArtifactsAreScanned(lines: Content, now: int)
    requires |lines| >= 2
    ensures ScannedLines(RepairedArtifactsLines(lines, now)) == RepairedArtifactsLines(lines, now)
  {
    RepositoryEndIsNotBlank();
    EndedLinesAreScanned(RepairedArtifactsLines(lines, now));
  }

  /** A repaired metadata fragment is read back whole. */
  lemma RepairedMetadataAreScanned(lines: Content, now: int)
    requires |lines| >= 1
    ensures ScannedLines(RepairedMetadataLines(lines, now)) == RepairedMetadataLines(lines, now)
  {
    RepositoryEndIsNotBlank();
    EndedLinesAreScanned(RepairedMetadataLines(lines, now));
  }

  /** processP2Artifacts' result: the store, the destination directory, and any escaping exception. */
  datatype Processed = Processed(repo: Repository, dest: Directory, thrown: bool, leaked: bool)

  /**
   * processP2Artifacts for the fragment stored at `fragmentPath`: an
   * unreadable fragment throws before the try, leaking the temporary source
   * directory; every later failure (header check, toolkit, handleArtifacts)
   * is caught and logged.
   */
  function ProcessArtifacts(tk: Toolkit, op: Op, repo: Repository, fragmentPath: string, dest: Directory, now: int): (r: Processed)
    requires repo.baseDir.Some? && ArtifactsFileName in dest
    ensures r.thrown <==> FileLines(repo, fragmentPath).None?
    ensures r.leaked <==> r.thrown
    ensures r.thrown ==> r.repo == repo && r.dest == dest
    ensures r.dest == dest || (ArtifactsFileName in r.dest && r.dest == dest[ArtifactsFileName := r.dest[ArtifactsFileName]])
    ensures r.repo.id == repo.id && r.repo.baseDir == repo.baseDir
  {
    match FileLines(repo, fragmentPath)
    case None => Processed(repo, dest, true, true)
    case Some(text) =>
      match StagedArtifacts(text, now)
      case None => Processed(repo, dest, false, false)
      case Some(source) => MergeArtifacts(tk, op, repo, StorageFile(repo.baseDir.value, fragmentPath), source, dest)
  }

  /**
   * The try block of processP2Artifacts once the fragment is staged: the
   * toolkit processes it into the destination's artifacts.xml, then
   * handleArtifacts links (or unlinks) what it describes; a failure of
   * either is swallowed.
   */
  function MergeArtifacts(tk: Toolkit, op: Op, repo: Repository, fragmentFile: string, source: Content, dest: Directory): (r: Processed)
    requires ArtifactsFileName in dest
    ensures !r.thrown && !r.leaked
    ensures r.dest == dest || (ArtifactsFileName in r.dest && r.dest == dest[ArtifactsFileName := r.dest[ArtifactsFileName]])
    ensures r.repo.id == repo.id && r.repo.baseDir == repo.baseDir
    ensures ArtifactsProcessor(tk, op)(source, dest[ArtifactsFileName]).None? ==> r == Processed(repo, dest, false, false)
  {
    match ArtifactsProcessor(tk, op)(source, dest[ArtifactsFileName])
    case None => Processed(repo, dest, false, false)
    case Some(merged) =>
      var run := HandleArtifacts(tk, op, repo, fragmentFile, source);
      Processed(run.repo, dest[ArtifactsFileName := merged], false, false)
  }

  /**
   * processP2Metadata: an unreadable fragment throws before the try, leaking
   * the temporary source directory; a header-check or toolkit failure
   * propagates after the finally.  The store is never touched.
   */
  function ProcessMetadata(tk: Toolkit, op: Op, repo: Repository, fragmentPath: string, dest: Directory, now: int): (r: Processed)
    requires ContentFileName in dest
    ensures r.repo == repo
    ensures r.leaked <==> FileLines(repo, fragmentPath).None?
    ensures r.leaked ==> r.thrown
    ensures r.thrown ==> r.dest == dest
    ensures r.dest == dest || (ContentFileName in r.dest && r.dest == dest[ContentFileName := r.dest[ContentFileName]])
  {
    match FileLines(repo, fragmentPath)
    case None => Processed(repo, dest, true, true)
    case Some(text) =>
      match StagedMetadata(text, now)
      case None => Processed(repo, dest, true, false)
      case Some(source) =>
        match MetadataProcessor(tk, op)(source, dest[ContentFileName])
        case None => Processed(repo, dest, true, false)
        case Some(merged) => Processed(repo, dest[ContentFileName := merged], false, false)
  }

  /** processP2Artifacts writes the store only at link paths. */
  lemma ProcessArtifactsFrame(tk: Toolkit, op: Op, repo: Repository, fragmentPath: string, dest: Directory, now: int, p: string)
    requires repo.baseDir.Some? && ArtifactsFileName in dest
    requires !IsLinkPath(p)
    ensures var r := ProcessArtifacts(tk, op, repo, fragmentPath, dest, now).repo;
      (p in r.items <==> p in repo.items) && (p in repo.items ==> r.items[p] == repo.items[p])
  {
    var text := FileLines(repo, fragmentPath);
    if text.Some? && StagedArtifacts(text.value, now).Some? {
      MergeArtifactsFrame(tk, op, repo, StorageFile(repo.baseDir.value, fragmentPath), StagedArtifacts(text.value, now).value, dest, p);
    }
  }

  /** The try block of processP2Artifacts writes the store only at link paths. */
  lemma MergeArtifactsFrame(tk: Toolkit, op: Op, repo: Repository, fragmentFile: string, source: Content, dest: Directory, p: string)
    requires ArtifactsFileName in dest
    requires !IsLinkPath(p)
    ensures var r := MergeArtifacts(tk, op, repo, fragmentFile, source, dest).repo;
      (p in r.items <==> p in repo.items) && (p in repo.items ==> r.items[p] == repo.items[p])
  {
    var entries := tk.installableArtifacts(source);
    if entries.Some? {
      HandleEntriesFrame(op, repo, fragmentFile, entries.value, p);
    }
  }

  // ----- the four update / remove operations -----

  /** An operation's effect on the store, and whether it leaked a temporary directory. */
  datatype Outcome = Outcome(repo: Repository, leaked: bool)

  /**
   * updateP2Artifacts / removeP2Artifacts once the configuration is found:
   * get (or create) the artifacts index, then apply the fragment to it.
   */
  function ArtifactsOperation(tk: Toolkit, op: Op, repo: Repository, eventPath: string, now: int): (r: Outcome)
    ensures r.repo.id == repo.id && r.repo.baseDir == repo.baseDir
  {
    var g := GetP2Index(tk, repo, ArtifactsIndexPath);
    if !g.ok then Outcome(g.repo, false) else ApplyArtifactsFragment(tk, op, g.repo, eventPath, now)
  }

  /**
   * Stage the artifacts index, process the fragment, copy the staged index
   * back.  An exception skips the copy-back.
   */
  function ApplyArtifactsFragment(tk: Toolkit, op: Op, repo: Repository, eventPath: string, now: int): (r: Outcome)
    requires repo.baseDir.Some?
    ensures r.repo.id == repo.id && r.repo.baseDir == repo.baseDir
  {
    match FileLines(repo, ArtifactsIndexPath)
    case None => Outcome(repo, false)
    case Some(staged) =>
      CopyBack(ProcessArtifacts(tk, op, repo, eventPath, map[ArtifactsFileName := staged], now),
               ArtifactsIndexPath, ArtifactsFileName)
  }

  /**
   * The end of an update or remove: the staged index file `name` is copied
   * back onto the exposed file at `path`, unless processing threw.
   */
  function CopyBack(p: Processed, path: string, name: string): (r: Outcome)
    requires name in p.dest
    ensures r.repo.id == p.repo.id && r.repo.baseDir == p.repo.baseDir
  {
    if p.thrown then Outcome(p.repo, p.leaked)
    else Outcome(OverwriteFile(p.repo, path, p.dest[name]), false)
  }

  /** updateP2Metadata / removeP2Metadata once the configuration is found. */
  function MetadataOperation(tk: Toolkit, op: Op, repo: Repository, eventPath: string, now: int): (r: Outcome)
    ensures r.repo.id == repo.id && r.repo.baseDir == repo.baseDir
  {
    var g := GetP2Index(tk, repo, ContentIndexPath);
    if !g.ok then Outcome(g.repo, false) else ApplyMetadataFragment(tk, op, g.repo, eventPath, now)
  }

  /** Stage the content index, process the fragment, copy the staged index back. */
  function ApplyMetadataFragment(tk: Toolkit, op: Op, repo: Repository, eventPath: string, now: int): (r: Outcome)
    ensures r.repo.id == repo.id && r.repo.baseDir == repo.baseDir
  {
    match FileLines(repo, ContentIndexPath)
    case None => Outcome(repo, false)
    case Some(staged) =>
      CopyBack(ProcessMetadata(tk, op, repo, eventPath, map[ContentFileName := staged], now),
               ContentIndexPath, ContentFileName)
  }

  /** Without a file-system storage no operation changes anything. */
  lemma NoFileStorageNoChange(sv: Services, op: Op, repo: Repository, eventPath: string, now: int)
    requires repo.baseDir.None?
    ensures ArtifactsOperation(sv.toolkit, op, repo, eventPath, now) == Outcome(repo, false)
    ensures MetadataOperation(sv.toolkit, op, repo, eventPath, now) == Outcome(repo, false)
    ensures Rebuild(sv, repo, now) == Outcome(repo, false)
  {
  }

  /**
   * An artifacts operation on an existing aggregate changes only the
   * artifacts index and link paths: the content index and every other item
   * are left alone.
   */
  lemma ArtifactsOperationFrame(tk: Toolkit, op: Op, repo: Repository, eventPath: string, now: int, p: string)
    requires ArtifactsIndexPath in repo.items
    requires !IsLinkPath(p) && p != ArtifactsIndexPath
    ensures var r := ArtifactsOperation(tk, op, repo, eventPath, now).repo;
      (p in r.items <==> p in repo.items) && (p in repo.items ==> r.items[p] == repo.items[p])
  {
    var g := GetP2Index(tk, repo, ArtifactsIndexPath);
    if g.ok && FileLines(g.repo, ArtifactsIndexPath).Some? {
      var staged := map[ArtifactsFileName := FileLines(g.repo, ArtifactsIndexPath).value];
      ProcessArtifactsFrame(tk, op, g.repo, eventPath, staged, now, p);
    }
  }

  /**
   * A toolkit failure on the artifact side is swallowed: the copy-back still
   * runs, with the staged index unchanged, so the exposed index stays as it
   * was and no link is made.
   */
  lemma ArtifactsToolkitFailureSwallowed(tk: Toolkit, op: Op, repo: Repository, eventPath: string, now: int)
    requires repo.baseDir.Some? && FileLines(repo, ArtifactsIndexPath).Some? && FileLines(repo, eventPath).Some?
    requires var source := StagedArtifacts(FileLines(repo, eventPath).value, now);
      source.None? || ArtifactsProcessor(tk, op)(source.value, FileLines(repo, ArtifactsIndexPath).value).None?
    ensures ArtifactsOperation(tk, op, repo, eventPath, now) == Outcome(repo, false)
  {
    OverwriteWithSameLines(repo, ArtifactsIndexPath);
  }

  /**
   * A completed artifacts operation on an existing aggregate exposes what the
   * toolkit made of the staged index.
   */
  lemma ArtifactsOperationExposesToolkitResult(tk: Toolkit, op: Op, repo: Repository, eventPath: string, now: int)
    requires repo.baseDir.Some? && FileLines(repo, ArtifactsIndexPath).Some? && FileLines(repo, eventPath).Some?
    requires StagedArtifacts(FileLines(repo, eventPath).value, now).Some?
    requires ArtifactsProcessor(tk, op)(StagedArtifacts(FileLines(repo, eventPath).value, now).value,
                                        FileLines(repo, ArtifactsIndexPath).value).Some?
    ensures var r := ArtifactsOperation(tk, op, repo, eventPath, now).repo;
      FileLines(r, ArtifactsIndexPath) == ArtifactsProcessor(tk, op)(StagedArtifacts(FileLines(repo, eventPath).value, now).value,
                                                                     FileLines(repo, ArtifactsIndexPath).value)
  {
  }

  /**
   * A metadata failure on an existing aggregate propagates: the copy-back is
   * skipped, so the store is left as it was; the temporary directory leaks
   * only when the fragment itself could not be read.
   */
  lemma MetadataFailureKeepsContent(tk: Toolkit, op: Op, repo: Repository, eventPath: string, now: int)
    requires FileLines(repo, ContentIndexPath).Some?
    requires var text := FileLines(repo, eventPath);
      text.None? || StagedMetadata(text.value, now).None?
      || MetadataProcessor(tk, op)(StagedMetadata(text.value, now).value, FileLines(repo, ContentIndexPath).value).None?
    ensures MetadataOperation(tk, op, repo, eventPath, now)
         == Outcome(repo, repo.baseDir.Some? && FileLines(repo, eventPath).None?)
  {
    if repo.baseDir.Some? {
      assert GetP2Index(tk, repo, ContentIndexPath) == Attempt(repo, true);
      var staged := map[ContentFileName := FileLines(repo, ContentIndexPath).value];
      assert ProcessMetadata(tk, op, repo, eventPath, staged, now).thrown;
    }
  }

  /**
   * A completed metadata operation on an existing aggregate exposes what the
   * toolkit made of the staged content index.
   */
  lemma MetadataOperationExposesToolkitResult(tk: Toolkit, op: Op, repo: Repository, eventPath: string, now: int)
    requires repo.baseDir.Some? && FileLines(repo, ContentIndexPath).Some? && FileLines(repo, eventPath).Some?
    requires StagedMetadata(FileLines(repo, eventPath).value, now).Some?
    requires MetadataProcessor(tk, op)(StagedMetadata(FileLines(repo, eventPath).value, now).value,
                                       FileLines(repo, ContentIndexPath).value).Some?
    ensures var r := MetadataOperation(tk, op, repo, eventPath, now);
      !r.leaked &&
      FileLines(r.repo, ContentIndexPath) == MetadataProcessor(tk, op)(StagedMetadata(FileLines(repo, eventPath).value, now).value,
                                                                       FileLines(repo, ContentIndexPath).value)
  {
  }

  /** A metadata operation never touches anything but the two index files. */
  lemma MetadataOperationFrame(tk: Toolkit, op: Op, repo: Repository, eventPath: string, now: int, p: string)
    requires p != ArtifactsIndexPath && p != ContentIndexPath
    ensures var r := MetadataOperation(tk, op, repo, eventPath, now).repo;
      (p in r.items <==> p in repo.items) && (p in repo.items ==> r.items[p] == repo.items[p])
  {
  }

  /**
   * Lazy creation writes both index files: a metadata operation on a
   * repository whose content index is missing replaces an existing artifacts
   * index with the toolkit's empty one.
   */
  lemma MissingContentResetsArtifacts(tk: Toolkit, op: Op, repo: Repository, eventPath: string, now: int)
    requires repo.baseDir.Some? && ArtifactsIndexPath in repo.items && ContentIndexPath !in repo.items
    requires tk.artifactsWrite(repo.id).Some?
    ensures var r := MetadataOperation(tk, op, repo, eventPath, now).repo;
      ArtifactsIndexPath in r.items && r.items[ArtifactsIndexPath] == FileItem(tk.artifactsWrite(repo.id).value, map[])
  {
    LinkDerivation.IndexPathsAreNotLinkPaths();
    assert ArtifactsIndexPath != ContentIndexPath by {
      assert ArtifactsIndexPath[5] != ContentIndexPath[5];
    }
  }

  // ----- scanAndRebuild -----

  /** The state of the storage scan: store, staging directory, and whether onFile threw. */
  datatype ScanState = ScanState(repo: Repository, dest: Directory, aborted: bool, leaked: bool)

  /**
   * onFile for the stored item at `path`: files whose path relative to the
   * storage base is hidden are skipped; artifacts fragments are merged, then
   * content fragments; any exception aborts the scan.
   */
  function VisitFile(sv: Services, st: ScanState, base: string, path: string, now: int): (r: ScanState)
    requires st.repo.baseDir == Some(base)
    requires ArtifactsFileName in st.dest && ContentFileName in st.dest
    ensures r.repo.id == st.repo.id && r.repo.baseDir == st.repo.baseDir && r.dest.Keys == st.dest.Keys
    ensures r == st || (r.leaked ==> r.aborted)
  {
    var file := StorageFile(base, path);
    match RelativePath(ReverseSegments(base), ReverseSegments(file), FileSeparator)
    case Throws(_) => ScanState(st.repo, st.dest, true, false)
    case Ok(relative) =>
      if IsHidden(Some(relative), FileSeparator) then st else VisitFragment(sv, st, path, StorageFile(base, path), now)
  }

  /** onFile for a file that is not hidden: merge it when it is a p2 fragment. */
  function VisitFragment(sv: Services, st: ScanState, path: string, file: string, now: int): (r: ScanState)
    requires st.repo.baseDir.Some?
    requires ArtifactsFileName in st.dest && ContentFileName in st.dest
    ensures r.repo.id == st.repo.id && r.repo.baseDir == st.repo.baseDir && r.dest.Keys == st.dest.Keys
    ensures r == st || (r.leaked ==> r.aborted)
  {
    if sv.isP2ArtifactsXml(file) then
      var p := ProcessArtifacts(sv.toolkit, Merge, st.repo, path, st.dest, now);
      ScanState(p.repo, p.dest, p.thrown, p.leaked)
    else if sv.isP2ContentXml(file) then
      var p := ProcessMetadata(sv.toolkit, Merge, st.repo, path, st.dest, now);
      ScanState(p.repo, p.dest, p.thrown, p.leaked)
    else st
  }

  /** The scan over `files`, in order, stopped by the first exception. */
  function Scan(sv: Services, st: ScanState, base: string, files: seq<string>, now: int): (r: ScanState)
    requires st.repo.baseDir == Some(base)
    requires ArtifactsFileName in st.dest && ContentFileName in st.dest
    ensures r.repo.id == st.repo.id && r.repo.baseDir == st.repo.baseDir && r.dest.Keys == st.dest.Keys
    ensures st.aborted ==> r == st
    ensures (st.leaked ==> st.aborted) ==> (r.leaked ==> r.aborted)
    decreases |files|, 1
  {
    if |files| == 0 then st else ScanToLast(sv, st, base, files, now)
  }

  /** The scan over a non-empty `files`: the scan of all but the last file, then onFile for the last one. */
  function ScanToLast(sv: Services, st: ScanState, base: string, files: seq<string>, now: int): (r: ScanState)
    requires st.repo.baseDir == Some(base)
    requires ArtifactsFileName in st.dest && ContentFileName in st.dest
    requires |files| > 0
    ensures r.repo.id == st.repo.id && r.repo.baseDir == st.repo.baseDir && r.dest.Keys == st.dest.Keys
    ensures st.aborted ==> r == st
    ensures (st.leaked ==> st.aborted) ==> (r.leaked ==> r.aborted)
    decreases |files|, 0
  {
    var before := Scan(sv, st, base, files[..|files| - 1], now);
    if before.aborted then before else VisitFile(sv, before, base, files[|files| - 1], now)
  }

  /**
   * The scan of a repository's storage into the staging directory `dest`,
   * from a clean start: it keeps the repository and the staged files, and
   * leaks a temporary directory only by aborting.
   */
  function ScanRepository(sv: Services, repo: Repository, dest: Directory, base: string, files: seq<string>, now: int): (r: ScanState)
    requires repo.baseDir == Some(base)
    requires ArtifactsFileName in dest && ContentFileName in dest
    ensures r.repo.id == repo.id && r.repo.baseDir == repo.baseDir && r.dest.Keys == dest.Keys
    ensures r.leaked ==> r.aborted
  {
    Scan(sv, ScanState(repo, dest, false, false), base, files, now)
  }

  /** The scan over one more file is onFile applied after the scan so far, unless that aborted. */
  lemma ScanStep(sv: Services, st: ScanState, base: string, files: seq<string>, i: nat, now: int)
    requires st.repo.baseDir == Some(base)
    requires ArtifactsFileName in st.dest && ContentFileName in st.dest
    requires i < |files|
    ensures var before := Scan(sv, st, base, files[..i], now);
      Scan(sv, st, base, files[..i + 1], now)
      == if before.aborted then before else VisitFile(sv, before, base, files[i], now)
  {
    assert files[..i + 1][..i] == files[..i];
  }

  /** Once onFile has thrown, the scanner visits no further file. */
  lemma {:induction false} ScanAbortStops(sv: Services, st: ScanState, base: string, files: seq<string>, m: nat, now: int)
    requires st.repo.baseDir == Some(base)
    requires ArtifactsFileName in st.dest && ContentFileName in st.dest
    requires m <= |files| && Scan(sv, st, base, files[..m], now).aborted
    ensures Scan(sv, st, base, files, now) == Scan(sv, st, base, files[..m], now)
    decreases |files|
  {
    if m < |files| {
      assert files[..|files| - 1][..m] == files[..m];
      ScanAbortStops(sv, st, base, files[..|files| - 1], m, now);
    } else {
      assert files[..m] == files;
    }
  }

  /** The store after staging the index files, and the staging directory when it succeeded. */
  datatype Staged = Staged(repo: Repository, staged: Option<Directory>)

  /**
   * The staging part of scanAndRebuild: the artifacts index (created with the
   * aggregate when missing) is copied, then the content index (likewise).
   */
  function Staging(tk: Toolkit, repo: Repository): (r: Staged)
    requires repo.baseDir.Some?
    ensures r.repo.id == repo.id && r.repo.baseDir == repo.baseDir
    ensures r.staged.Some? ==> ArtifactsFileName in r.staged.value && ContentFileName in r.staged.value
    ensures FileLines(repo, ArtifactsIndexPath).Some? && FileLines(repo, ContentIndexPath).Some? ==>
      r == Staged(repo, Some(map[ArtifactsFileName := FileLines(repo, ArtifactsIndexPath).value,
                                 ContentFileName := FileLines(repo, ContentIndexPath).value]))
  {
    var g1 := GetP2Index(tk, repo, ArtifactsIndexPath);
    if !g1.ok then Staged(g1.repo, None)
    else
      match FileLines(g1.repo, ArtifactsIndexPath)
      case None => Staged(g1.repo, None)
      case Some(artifacts) =>
        var g2 := GetP2Index(tk, g1.repo, ContentIndexPath);
        if !g2.ok then Staged(g2.repo, None)
        else
          match FileLines(g2.repo, ContentIndexPath)
          case None => Staged(g2.repo, None)
          case Some(content) => Staged(g2.repo, Some(map[ArtifactsFileName := artifacts, ContentFileName := content]))
  }

  /**
   * scanAndRebuild(repositoryId) once the configuration is found: needs a
   * file-system storage; stages both index files, scans, then copies both
   * back, unless the scan aborted.
   */
  function Rebuild(sv: Services, repo: Repository, now: int): (r: Outcome)
    ensures r.repo.id == repo.id && r.repo.baseDir == repo.baseDir
  {
    if repo.baseDir.None? then Outcome(repo, false)
    else
      var st := Staging(sv.toolkit, repo);
      match st.staged
      case None => Outcome(st.repo, false)
      case Some(staged) => RebuildStaged(sv, st.repo, staged, now)
  }

  /**
   * scanAndRebuild once both index files are staged: scans the storage into
   * the staging directory, then copies both index files back, unless the
   * scan aborted; only an aborted scan leaks.
   */
  function RebuildStaged(sv: Services, repo: Repository, staged: Directory, now: int): (r: Outcome)
    requires repo.baseDir.Some?
    requires ArtifactsFileName in staged && ContentFileName in staged
    ensures r.repo.id == repo.id && r.repo.baseDir == repo.baseDir
    ensures r.leaked ==> ScanRepository(sv, repo, staged, repo.baseDir.value, sv.scanOrder(repo.items), now).aborted
  {
    var s := ScanRepository(sv, repo, staged, repo.baseDir.value, sv.scanOrder(repo.items), now);
    if s.aborted then Outcome(s.repo, s.leaked)
    else Outcome(OverwriteFile(OverwriteFile(s.repo, ArtifactsIndexPath, s.dest[ArtifactsFileName]),
                               ContentIndexPath, s.dest[ContentFileName]), false)
  }

  /**
   * When the scan completes, both staged index files are copied back once:
   * the exposed indexes are what the scan left staged, and nothing leaks.
   */
  lemma CompletedRebuildCopiesBack(sv: Services, repo: Repository, staged: Directory, now: int)
    requires repo.baseDir.Some?
    requires ArtifactsFileName in staged && ContentFileName in staged
    requires !ScanRepository(sv, repo, staged, repo.baseDir.value, sv.scanOrder(repo.items), now).aborted
    ensures var s := ScanRepository(sv, repo, staged, repo.baseDir.value, sv.scanOrder(repo.items), now);
      var r := RebuildStaged(sv, repo, staged, now);
      !r.leaked
      && FileLines(r.repo, ArtifactsIndexPath) == Some(s.dest[ArtifactsFileName])
      && FileLines(r.repo, ContentIndexPath) == Some(s.dest[ContentFileName])
  {
    assert ArtifactsIndexPath != ContentIndexPath by {
      assert ArtifactsIndexPath[5] != ContentIndexPath[5];
    }
  }

  /**
   * On an existing aggregate, a rebuild whose scan completes exposes, as both
   * index files, what the scan made of the staged copies of them.
   */
  lemma CompletedRebuildExposesScan(sv: Services, repo: Repository, now: int)
    requires repo.baseDir.Some?
    requires FileLines(repo, ArtifactsIndexPath).Some? && FileLines(repo, ContentIndexPath).Some?
    requires var staged := map[ArtifactsFileName := FileLines(repo, ArtifactsIndexPath).value,
                               ContentFileName := FileLines(repo, ContentIndexPath).value];
      !ScanRepository(sv, repo, staged, repo.baseDir.value, sv.scanOrder(repo.items), now).aborted
    ensures var staged := map[ArtifactsFileName := FileLines(repo, ArtifactsIndexPath).value,
                              ContentFileName := FileLines(repo, ContentIndexPath).value];
      var s := ScanRepository(sv, repo, staged, repo.baseDir.value, sv.scanOrder(repo.items), now);
      var r := Rebuild(sv, repo, now);
      !r.leaked
      && FileLines(r.repo, ArtifactsIndexPath) == Some(s.dest[ArtifactsFileName])
      && FileLines(r.repo, ContentIndexPath) == Some(s.dest[ContentFileName])
  {
    var staged := map[ArtifactsFileName := FileLines(repo, ArtifactsIndexPath).value,
                      ContentFileName := FileLines(repo, ContentIndexPath).value];
    CompletedRebuildCopiesBack(sv, repo, staged, now);
  }

  /**
   * onFile for a stored file whose item path does not start with `/.`: an
   * artifacts fragment goes through the same processing as an update of
   * artifacts, a content fragment through that of an update of metadata, on
   * the rebuild's staging directory.
   */
  lemma VisitStoredFragment(sv: Services, st: ScanState, base: string, path: string, now: int)
    requires st.repo.baseDir == Some(base) && |base| >= 1 && base[0] == '/'
    requires ArtifactsFileName in st.dest && ContentFileName in st.dest
    requires |path| >= 1 && path[0] == '/' && (|path| == 1 || path[1] != '/') && !StartsWith(path, "/.")
    ensures var file := StorageFile(base, path);
      var r := VisitFile(sv, st, base, path, now);
      var a := ProcessArtifacts(sv.toolkit, Merge, st.repo, path, st.dest, now);
      var m := ProcessMetadata(sv.toolkit, Merge, st.repo, path, st.dest, now);
      (sv.isP2ArtifactsXml(file) ==> r == ScanState(a.repo, a.dest, a.thrown, a.leaked))
      && (!sv.isP2ArtifactsXml(file) && sv.isP2ContentXml(file) ==> r == ScanState(m.repo, m.dest, m.thrown, m.leaked))
      && (!sv.isP2ArtifactsXml(file) && !sv.isP2ContentXml(file) ==> r == st)
  {
    HiddenStoredFile(base, path);
  }

  /** A file whose item path starts with `/.` is skipped by the scan. */
  lemma HiddenFileSkipped(sv: Services, st: ScanState, base: string, path: string, now: int)
    requires st.repo.baseDir == Some(base) && |base| >= 1 && base[0] == '/'
    requires ArtifactsFileName in st.dest && ContentFileName in st.dest
    requires |path| >= 2 && path[0] == '/' && path[1] == '.'
    ensures VisitFile(sv, st, base, path, now) == st
  {
    HiddenStoredFile(base, path);
  }

  /** The scan writes the store only at link paths. */
  lemma {:induction false} ScanFrame(sv: Services, st: ScanState, base: string, files: seq<string>, now: int, p: string)
    requires st.repo.baseDir == Some(base)
    requires ArtifactsFileName in st.dest && ContentFileName in st.dest
    requires !IsLinkPath(p)
    ensures var r := Scan(sv, st, base, files, now).repo;
      (p in r.items <==> p in st.repo.items) && (p in st.repo.items ==> r.items[p] == st.repo.items[p])
    decreases |files|
  {
    if |files| > 0 {
      var before := Scan(sv, st, base, files[..|files| - 1], now);
      ScanFrame(sv, st, base, files[..|files| - 1], now, p);
      if !before.aborted {
        VisitFileFrame(sv, before, base, files[|files| - 1], now, p);
      }
    }
  }

  /** onFile writes the store only at link paths. */
  lemma VisitFileFrame(sv: Services, st: ScanState, base: string, path: string, now: int, p: string)
    requires st.repo.baseDir == Some(base)
    requires ArtifactsFileName in st.dest && ContentFileName in st.dest
    requires !IsLinkPath(p)
    ensures var r := VisitFile(sv, st, base, path, now).repo;
      (p in r.items <==> p in st.repo.items) && (p in st.repo.items ==> r.items[p] == st.repo.items[p])
  {
    if sv.isP2ArtifactsXml(StorageFile(base, path)) {
      ProcessArtifactsFrame(sv.toolkit, Merge, st.repo, path, st.dest, now, p);
    }
  }

  /**
   * When the scan aborts, neither copy-back runs: on an existing aggregate
   * both exposed index files keep their contents.
   */
  lemma AbortedRebuildKeepsIndexes(sv: Services, repo: Repository, now: int)
    requires repo.baseDir.Some?
    requires FileLines(repo, ArtifactsIndexPath).Some? && FileLines(repo, ContentIndexPath).Some?
    requires var staged := map[ArtifactsFileName := FileLines(repo, ArtifactsIndexPath).value,
                               ContentFileName := FileLines(repo, ContentIndexPath).value];
      Scan(sv, ScanState(repo, staged, false, false), repo.baseDir.value, sv.scanOrder(repo.items), now).aborted
    ensures var r := Rebuild(sv, repo, now).repo;
      ArtifactsIndexPath in r.items && r.items[ArtifactsIndexPath] == repo.items[ArtifactsIndexPath]
      && ContentIndexPath in r.items && r.items[ContentIndexPath] == repo.items[ContentIndexPath]
  {
    var staged := map[ArtifactsFileName := FileLines(repo, ArtifactsIndexPath).value,
                      ContentFileName := FileLines(repo, ContentIndexPath).value];
    IndexPathsAreNotLinkPaths();
    ScanFrame(sv, ScanState(repo, staged, false, false), repo.baseDir.value, sv.scanOrder(repo.items), now, ArtifactsIndexPath);
    ScanFrame(sv, ScanState(repo, staged, false, false), repo.baseDir.value, sv.scanOrder(repo.items), now, ContentIndexPath);
  }

  /** No p2 fragment among the visited files: the scan changes nothing. */
  predicate NoFragments(sv: Services, base: string, files: seq<string>) {
    forall n | 0 <= n < |files| :: !sv.isP2ArtifactsXml(StorageFile(base, files[n])) && !sv.isP2ContentXml(StorageFile(base, files[n]))
  }

  /** A scan over files that hold no p2 fragment writes nothing and leaks nothing. */
  lemma {:induction false} ScanWithoutFragments(sv: Services, st: ScanState, base: string, files: seq<string>, now: int)
    requires st.repo.baseDir == Some(base)
    requires ArtifactsFileName in st.dest && ContentFileName in st.dest
    requires NoFragments(sv, base, files)
    ensures var r := Scan(sv, st, base, files, now); (r.repo == st.repo && r.dest == st.dest && !r.leaked) || r == st
    ensures !st.leaked ==> !Scan(sv, st, base, files, now).leaked
    decreases |files|
  {
    if |files| > 0 {
      var shorter := files[..|files| - 1];
      NoFragmentsInPrefix(sv, base, files);
      ScanWithoutFragments(sv, st, base, shorter, now);
      VisitNonFragment(sv, Scan(sv, st, base, shorter, now), base, files[|files| - 1], now);
    }
  }

  /** All but the last of a list of files without fragments hold none either. */
  lemma NoFragmentsInPrefix(sv: Services, base: string, files: seq<string>)
    requires |files| > 0 && NoFragments(sv, base, files)
    ensures NoFragments(sv, base, files[..|files| - 1])
    ensures !sv.isP2ArtifactsXml(StorageFile(base, files[|files| - 1])) && !sv.isP2ContentXml(StorageFile(base, files[|files| - 1]))
  {
    var shorter := files[..|files| - 1];
    forall n | 0 <= n < |shorter| ensures !sv.isP2ArtifactsXml(StorageFile(base, shorter[n])) && !sv.isP2ContentXml(StorageFile(base, shorter[n])) {
      assert shorter[n] == files[n];
    }
  }

  /** onFile for a file that is no p2 fragment skips it or aborts the scan: nothing is written. */
  lemma VisitNonFragment(sv: Services, st: ScanState, base: string, path: string, now: int)
    requires st.repo.baseDir == Some(base)
    requires ArtifactsFileName in st.dest && ContentFileName in st.dest
    requires !sv.isP2ArtifactsXml(StorageFile(base, path)) && !sv.isP2ContentXml(StorageFile(base, path))
    ensures VisitFile(sv, st, base, path, now) in {st, ScanState(st.repo, st.dest, true, false)}
  {
  }

  /**
   * Rebuilding an existing aggregate of a repository that holds no p2
   * fragment leaves the store as it was and leaks nothing.
   */
  lemma RebuildWithoutFragmentsIsIdentity(sv: Services, repo: Repository, now: int)
    requires ScansEachItemOnce(sv)
    requires repo.baseDir.Some?
    requires FileLines(repo, ArtifactsIndexPath).Some? && FileLines(repo, ContentIndexPath).Some?
    requires forall p | p in repo.items ::
      !sv.isP2ArtifactsXml(StorageFile(repo.baseDir.value, p)) && !sv.isP2ContentXml(StorageFile(repo.baseDir.value, p))
    ensures Rebuild(sv, repo, now) == Outcome(repo, false)
  {
    var files := sv.scanOrder(repo.items);
    assert ListsEachOnce(files, repo.items.Keys);
    assert NoFragments(sv, repo.baseDir.value, files) by {
      forall n | 0 <= n < |files|
        ensures !sv.isP2ArtifactsXml(StorageFile(repo.baseDir.value, files[n]))
        ensures !sv.isP2ContentXml(StorageFile(repo.baseDir.value, files[n]))
      {
        assert files[n] in files;
      }
    }
    var staged := map[ArtifactsFileName := FileLines(repo, ArtifactsIndexPath).value,
                      ContentFileName := FileLines(repo, ContentIndexPath).value];
    var st := ScanState(repo, staged, false, false);
    ScanWithoutFragments(sv, st, repo.baseDir.value, sv.scanOrder(repo.items), now);
    var s := Scan(sv, st, repo.baseDir.value, sv.scanOrder(repo.items), now);
    if !s.aborted {
      assert s.repo == repo && s.dest == staged;
      OverwriteWithSameLines(repo, ArtifactsIndexPath);
      assert OverwriteFile(repo, ArtifactsIndexPath, staged[ArtifactsFileName]) == repo;
      OverwriteWithSameLines(repo, ContentIndexPath);
    }
  }

  // ----- scanAndRebuild() over the registry -----

  /** The registry after rebuilding some repositories, and the temporary directories leaked. */
  datatype Rebuilt = Rebuilt(registry: map<string, Repository>, leaks: nat)

  /**
   * scanAndRebuild() over the repositories `ids`, in order: each configured,
   * registered one is rebuilt; the others are skipped.
   */
  function RebuildEach(sv: Services, configurations: map<string, Configuration>, registry: map<string, Repository>,
                       ids: seq<string>, now: int): (r: Rebuilt)
    ensures r.registry.Keys == registry.Keys
    ensures forall id | id in registry && (id !in configurations || id !in ids) :: r.registry[id] == registry[id]
    ensures r.leaks <= |ids|
    decreases |ids|
  {
    if |ids| == 0 then Rebuilt(registry, 0)
    else
      var before := RebuildEach(sv, configurations, registry, ids[..|ids| - 1], now);
      var step := RebuildOne(sv, configurations, before.registry, ids[|ids| - 1], now);
      Rebuilt(step.registry, before.leaks + step.leaks)
  }

  /**
   * Over a list that names no repository twice, every configured, registered
   * repository of the list is rebuilt once, from its state in the original
   * registry.
   */
  lemma {:induction false} RebuildEachRebuildsListed(sv: Services, configurations: map<string, Configuration>,
                                                     registry: map<string, Repository>, ids: seq<string>, now: int)
    requires forall i, j | 0 <= i < j < |ids| :: ids[i] != ids[j]
    ensures forall id | id in ids && id in configurations && id in registry ::
      RebuildEach(sv, configurations, registry, ids, now).registry[id] == Rebuild(sv, registry[id], now).repo
    decreases |ids|
  {
    if |ids| > 0 {
      var shorter := ids[..|ids| - 1];
      var last := ids[|ids| - 1];
      assert forall i, j | 0 <= i < j < |shorter| :: shorter[i] != shorter[j] by {
        forall i, j | 0 <= i < j < |shorter| ensures shorter[i] != shorter[j] {
          assert shorter[i] == ids[i] && shorter[j] == ids[j];
        }
      }
      RebuildEachRebuildsListed(sv, configurations, registry, shorter, now);
      assert last !in shorter by {
        forall i | 0 <= i < |shorter| ensures shorter[i] != last {
          assert shorter[i] == ids[i];
        }
      }
      forall id | id in ids && id in configurations && id in registry
        ensures RebuildEach(sv, configurations, registry, ids, now).registry[id] == Rebuild(sv, registry[id], now).repo
      {
        if id != last {
          assert id in shorter by {
            var k :| 0 <= k < |ids| && ids[k] == id;
            assert shorter[k] == id;
          }
        }
      }
    }
  }

  /**
   * scanAndRebuild() over the registry's own listing: every configured
   * repository is rebuilt from its registered state, and every other one is
   * left as it was.
   */
  lemma RebuildEachOfRegistry(sv: Services, configurations: map<string, Configuration>,
                              registry: map<string, Repository>, now: int)
    requires ListsEachRepositoryOnce(sv)
    ensures var r := RebuildEach(sv, configurations, registry, sv.repositoryOrder(registry), now);
      r.registry.Keys == registry.Keys &&
      forall id | id in registry ::
        r.registry[id] == if id in configurations then Rebuild(sv, registry[id], now).repo else registry[id]
  {
    var ids := sv.repositoryOrder(registry);
    assert ListsEachOnce(ids, registry.Keys);
    RebuildEachRebuildsListed(sv, configurations, registry, ids, now);
  }

  /**
   * scanAndRebuild(repositoryId) on the registry: a configured, registered
   * repository is rebuilt; any other id changes nothing.
   */
  function RebuildOne(sv: Services, configurations: map<string, Configuration>, registry: map<string, Repository>,
                      id: string, now: int): (r: Rebuilt)
    ensures r.registry.Keys == registry.Keys && r.leaks <= 1
    ensures id !in configurations || id !in registry ==> r == Rebuilt(registry, 0)
    ensures id in configurations && id in registry ==>
      r.registry == registry[id := r.registry[id]] && r.registry[id] == Rebuild(sv, registry[id], now).repo
  {
    if id in configurations && id in registry then
      var o := Rebuild(sv, registry[id], now);
      Rebuilt(registry[id := o.repo], if o.leaked then 1 else 0)
    else Rebuilt(registry, 0)
  }

  // ----- addConfiguration / removeConfiguration -----

  /** A `/.p2` directory exists: some item lies at or below it. */
  predicate HasP2Directory(items: map<string, Item>) {
    exists p | p in items :: InP2Directory(p)
  }

  predicate InP2Directory(p: string) {
    p == P2RepositoryRootPath || StartsWith(p, P2RepositoryRootPath + "/")
  }

  /** addConfiguration's change to the store: create the aggregate when `/.p2` is missing. */
  function EnsureP2Repository(tk: Toolkit, repo: Repository): (r: Attempt)
    ensures HasP2Directory(repo.items) ==> r == Attempt(repo, true)
    ensures !HasP2Directory(repo.items) ==> r == CreateP2Repository(tk, repo)
  {
    if HasP2Directory(repo.items) then Attempt(repo, true) else CreateP2Repository(tk, repo)
  }

  /** removeConfiguration's deleteItem of `/.p2`: the whole subtree goes; a missing one fails. */
  function DeleteP2Directory(repo: Repository): (r: Attempt)
    ensures r.ok <==> HasP2Directory(repo.items)
    ensures forall p | p in r.repo.items :: !InP2Directory(p) || !r.ok
    ensures forall p | p in repo.items && !InP2Directory(p) :: p in r.repo.items && r.repo.items[p] == repo.items[p]
    ensures r.repo.items.Keys <= repo.items.Keys
  {
    if HasP2Directory(repo.items) then
      Attempt(repo.(items := map p | p in repo.items && !InP2Directory(p) :: repo.items[p]), true)
    else Attempt(repo, false)
  }

  /**
   * Removing the aggregate that adding a configuration created gives back the
   * repository as it was.
   */
  lemma RemoveUndoesAdd(tk: Toolkit, repo: Repository)
    requires !HasP2Directory(repo.items)
    requires tk.artifactsWrite(repo.id).Some?
    ensures DeleteP2Directory(EnsureP2Repository(tk, repo).repo) == Attempt(repo, true)
  {
    var created := CreateP2Repository(tk, repo).repo;
    assert InP2Directory(ArtifactsIndexPath) && ArtifactsIndexPath in created.items;
    assert InP2Directory(ContentIndexPath);
    assert forall p | p in repo.items :: !InP2Directory(p);
    DeleteAddedP2Items(repo.items, created.items);
  }

  /** Dropping the `/.p2` items from a store that only gained `/.p2` items gives back the store. */
  lemma DeleteAddedP2Items(items: map<string, Item>, grown: map<string, Item>)
    requires forall p | p in items :: !InP2Directory(p) && p in grown && grown[p] == items[p]
    requires forall p | p in grown && !InP2Directory(p) :: p in items
    ensures (map p | p in grown && !InP2Directory(p) :: grown[p]) == items
  {
  }
}
