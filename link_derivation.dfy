/**
 * handleArtifacts (DefaultP2TychoRepositoryAggregator, lines 477-508): for
 * every plug-in or feature a descriptor fragment lists, a link under the p2
 * root back to the jar deployed beside the fragment.
 */
module LinkDerivation {
  import opened Outcomes
  import opened Text
  import opened NexusUtils
  import opened P2Constants
  import opened P2Bridge

  const PluginsDirectory := "/plugins/"
  const FeaturesDirectory := "/features/"
  const FragmentSuffix := "-p2artifacts.xml"
  const JarSuffix := ".jar"

  /** The sub-directory of the p2 root an installable artifact is linked in, if any. */
  function SubDirectory(classifier: string): (r: Option<string>)
    ensures r == Some(PluginsDirectory) <==> classifier == "osgi.bundle"
    ensures r == Some(FeaturesDirectory) <==> classifier == "org.eclipse.update.feature"
    ensures r.None? <==> classifier != "osgi.bundle" && classifier != "org.eclipse.update.feature"
  {
    if classifier == "osgi.bundle" then Some(PluginsDirectory)
    else if classifier == "org.eclipse.update.feature" then Some(FeaturesDirectory)
    else None
  }

  /** The path of the link for an installable artifact in sub-directory `sub`. */
  function LinkPath(sub: string, a: InstallableArtifact): (r: string)
    ensures StartsWith(r, P2RepositoryRootPath + sub)
    ensures r[|P2RepositoryRootPath + sub|..] == a.id + "_" + a.version + JarSuffix
  {
    var r := P2RepositoryRootPath + sub + a.id + "_" + a.version + JarSuffix;
    assert r == (P2RepositoryRootPath + sub) + (a.id + "_" + a.version + JarSuffix);
    r
  }

  /** The link of a deployed bundle: `/.p2/plugins/<id>_<version>.jar`. */
  lemma LinkPathOfBundle()
    ensures LinkPath(PluginsDirectory, InstallableArtifact("org.ops4j.base.lang", "1.2.3", "osgi.bundle"))
         == "/.p2/plugins/org.ops4j.base.lang_1.2.3.jar"
  {
    var a := InstallableArtifact("org.ops4j.base.lang", "1.2.3", "osgi.bundle");
    assert P2RepositoryRootPath + PluginsDirectory + a.id == "/.p2/plugins/org.ops4j.base.lang";
    assert "/.p2/plugins/org.ops4j.base.lang" + "_" + a.version == "/.p2/plugins/org.ops4j.base.lang_1.2.3";
  }

  /** A path where handleArtifacts may put or delete a link. */
  predicate IsLinkPath(p: string) {
    StartsWith(p, P2RepositoryRootPath + PluginsDirectory) || StartsWith(p, P2RepositoryRootPath + FeaturesDirectory)
  }

  /** Every link path lies in `/.p2/plugins/` or `/.p2/features/`. */
  lemma LinkPathIsLinkPath(classifier: string, a: InstallableArtifact)
    requires SubDirectory(classifier).Some?
    ensures IsLinkPath(LinkPath(SubDirectory(classifier).value, a))
  {
  }

  /** The `/.p2` index files are never link paths. */
  lemma IndexPathsAreNotLinkPaths()
    ensures !IsLinkPath(P2RepositoryRootPath + ArtifactsXml)
    ensures !IsLinkPath(P2RepositoryRootPath + ContentXml)
  {
    assert (P2RepositoryRootPath + ArtifactsXml)[5] == 'a';
    assert (P2RepositoryRootPath + ContentXml)[5] == 'c';
    assert (P2RepositoryRootPath + PluginsDirectory)[5] == 'p';
    assert (P2RepositoryRootPath + FeaturesDirectory)[5] == 'f';
  }

  /**
   * The repository path of the jar a fragment was deployed with: every
   * `-p2artifacts.xml` in the fragment's file path replaced by `.jar`, then
   * the text after the repository id.
   */
  function ArtifactPath(fragmentFile: string, repositoryId: string): (r: Result<string>)
    ensures r.Throws? ==> r.exception == StringIndexOutOfBounds
    ensures r.Ok? ==> |r.value| <= |ReplaceAll(fragmentFile, FragmentSuffix, JarSuffix)|
  {
    TextAfter(ReplaceAll(fragmentFile, FragmentSuffix, JarSuffix), repositoryId)
  }

  /**
   * `s.substring(s.indexOf(id) + id.length())`: String.substring fails when
   * that start lies past the end.
   */
  function TextAfter(s: string, id: string): (r: Result<string>)
    ensures r.Throws? ==> r.exception == StringIndexOutOfBounds
    ensures r.Ok? ==> |r.value| <= |s|
  {
    var start := IndexOf(s, id) + |id|;
    if 0 <= start <= |s| then Ok(s[start..]) else Throws(StringIndexOutOfBounds)
  }

  /** When `id` occurs in `s`, the text after it is what follows its first occurrence. */
  lemma TextAfterOccurrence(s: string, id: string)
    requires Contains(s, id)
    ensures var r := TextAfter(s, id);
      var k := IndexOf(s, id);
      r.Ok? && 0 <= k && s == s[..k] + id + r.value
      && forall e :: 0 <= e < k ==> !StartsWith(s[e..], id)
  {
    IndexOfFindsContained(s, id);
    var k := IndexOf(s, id);
    SplitAround(s, k, k + |id|);
  }

  /** A string is its text before `i`, from `i` to `j`, and from `j` on. */
  lemma SplitAround(s: string, i: nat, j: nat)
    requires i <= j <= |s|
    ensures s == s[..i] + s[i..j] + s[j..]
  {
    assert s[..j] == s[..i] + s[i..j];
  }

  /**
   * When `id` does not occur in `s`, indexOf gives -1: the text after it is
   * `s` from `length - 1` on, or the call fails when that is past the end.
   */
  lemma TextAfterNoOccurrence(s: string, id: string)
    requires !Contains(s, id)
    ensures |id| >= 1
    ensures |id| - 1 <= |s| ==> TextAfter(s, id) == Ok(s[|id| - 1..])
    ensures |id| - 1 > |s| ==> TextAfter(s, id).Throws?
  {
    IndexOfFindsContained(s, id);
    assert [] <= s;
  }

  /**
   * When the repository id occurs in the rewritten fragment path, the
   * artifact path is what follows its first occurrence.
   */
  lemma ArtifactPathAfterRepositoryId(fragmentFile: string, repositoryId: string)
    requires Contains(ReplaceAll(fragmentFile, FragmentSuffix, JarSuffix), repositoryId)
    ensures var s := ReplaceAll(fragmentFile, FragmentSuffix, JarSuffix);
      var r := ArtifactPath(fragmentFile, repositoryId);
      var k := IndexOf(s, repositoryId);
      r.Ok? && 0 <= k && s == s[..k] + repositoryId + r.value
      && forall e :: 0 <= e < k ==> !StartsWith(s[e..], repositoryId)
  {
    TextAfterOccurrence(ReplaceAll(fragmentFile, FragmentSuffix, JarSuffix), repositoryId);
  }

  /**
   * When the repository id does not occur, indexOf gives -1 and the
   * artifact path is the rewritten fragment path from `length - 1` on, or the
   * call fails when that is past the end.
   */
  lemma ArtifactPathWithoutRepositoryId(fragmentFile: string, repositoryId: string)
    requires !Contains(ReplaceAll(fragmentFile, FragmentSuffix, JarSuffix), repositoryId)
    ensures var s := ReplaceAll(fragmentFile, FragmentSuffix, JarSuffix);
      |repositoryId| >= 1
      && (|repositoryId| - 1 <= |s| ==> ArtifactPath(fragmentFile, repositoryId) == Ok(s[|repositoryId| - 1..]))
      && (|repositoryId| - 1 > |s| ==> ArtifactPath(fragmentFile, repositoryId).Throws?)
  {
    TextAfterNoOccurrence(ReplaceAll(fragmentFile, FragmentSuffix, JarSuffix), repositoryId);
  }

  /**
   * A fragment path ending in `-p2artifacts.xml`, and holding it nowhere
   * else, is rewritten to the same path ending in `.jar`.
   */
  lemma FragmentSuffixBecomesJar(stem: string)
    requires !Contains(stem, FragmentSuffix)
    ensures ReplaceAll(stem + FragmentSuffix, FragmentSuffix, JarSuffix) == stem + JarSuffix
  {
    assert FragmentSuffix[0] !in FragmentSuffix[1..];
    ReplaceAllAppendedTarget(stem, FragmentSuffix, JarSuffix);
  }

  // ----- the loop over the installable artifacts -----

  /** The store after handling some artifacts, and whether an exception escaped. */
  datatype LinkRun = LinkRun(repo: Repository, failed: bool)

  /** One iteration of the loop of handleArtifacts. */
  function HandleEntry(op: Op, repo: Repository, fragmentFile: string, a: InstallableArtifact): LinkRun {
    match SubDirectory(a.classifier)
    case None => LinkRun(repo, false)
    case Some(sub) =>
      match ArtifactPath(fragmentFile, repo.id)
      case Throws(_) => LinkRun(repo, true)
      case Ok(artifactPath) =>
        match RetrieveItem(repo, artifactPath)
        case Throws(_) => LinkRun(repo, true)
        case Ok(bundle) =>
          match op
          case Merge => LinkRun(CreateLink(repo, artifactPath, bundle, LinkPath(sub, a)), false)
          case Remove => LinkRun(DeleteLink(repo, LinkPath(sub, a)), false)
  }

  /** The loop of handleArtifacts over `entries`, stopped by the first exception. */
  function HandleEntries(op: Op, repo: Repository, fragmentFile: string, entries: seq<InstallableArtifact>): (r: LinkRun)
    ensures r.repo.id == repo.id && r.repo.baseDir == repo.baseDir
    decreases |entries|
  {
    if |entries| == 0 then LinkRun(repo, false)
    else
      var before := HandleEntries(op, repo, fragmentFile, entries[..|entries| - 1]);
      if before.failed then before else HandleEntry(op, before.repo, fragmentFile, entries[|entries| - 1])
  }

  /**
   * handleArtifacts: asks the toolkit for the installable artifacts of the
   * staged `artifacts.xml` (a failure there escapes as an exception), then
   * runs the loop.
   */
  function HandleArtifacts(tk: Toolkit, op: Op, repo: Repository, fragmentFile: string, sourceArtifacts: Content): LinkRun {
    match tk.installableArtifacts(sourceArtifacts)
    case None => LinkRun(repo, true)
    case Some(entries) => HandleEntries(op, repo, fragmentFile, entries)
  }

  /** The loop over one more artifact is one more iteration after the loop so far, unless that failed. */
  lemma HandleEntriesStep(op: Op, repo: Repository, fragmentFile: string, entries: seq<InstallableArtifact>, i: nat)
    requires i < |entries|
    ensures var before := HandleEntries(op, repo, fragmentFile, entries[..i]);
      HandleEntries(op, repo, fragmentFile, entries[..i + 1])
      == if before.failed then before else HandleEntry(op, before.repo, fragmentFile, entries[i])
  {
    assert entries[..i + 1][..i] == entries[..i];
  }

  /** Once an exception escaped the loop, later artifacts change nothing. */
  lemma {:induction false} FailureStops(op: Op, repo: Repository, fragmentFile: string, entries: seq<InstallableArtifact>, m: nat)
    requires m <= |entries|
    requires HandleEntries(op, repo, fragmentFile, entries[..m]).failed
    ensures HandleEntries(op, repo, fragmentFile, entries) == HandleEntries(op, repo, fragmentFile, entries[..m])
    decreases |entries|
  {
    if m < |entries| {
      var shorter := entries[..|entries| - 1];
      assert shorter[..m] == entries[..m];
      FailureStops(op, repo, fragmentFile, shorter, m);
    } else {
      assert entries[..m] == entries;
    }
  }

  /** Only link paths are written or deleted: every other stored item is left alone. */
  lemma {:induction false} HandleEntriesFrame(op: Op, repo: Repository, fragmentFile: string, entries: seq<InstallableArtifact>, p: string)
    requires !IsLinkPath(p)
    ensures var r := HandleEntries(op, repo, fragmentFile, entries).repo;
      (p in r.items <==> p in repo.items) && (p in repo.items ==> r.items[p] == repo.items[p])
    decreases |entries|
  {
    if |entries| > 0 {
      HandleEntriesFrame(op, repo, fragmentFile, entries[..|entries| - 1], p);
      var a := entries[|entries| - 1];
      if SubDirectory(a.classifier).Some? {
        LinkPathIsLinkPath(a.classifier, a);
      }
    }
  }

  /**
   * After a merge with no exception, every plug-in and feature listed has its
   * link, and each link targets the jar derived from the fragment path with
   * the context of that jar's item.
   */
  lemma {:induction false} MergeLinksEveryArtifact(repo: Repository, fragmentFile: string, entries: seq<InstallableArtifact>, n: nat)
    requires n < |entries| && SubDirectory(entries[n].classifier).Some?
    requires !HandleEntries(Merge, repo, fragmentFile, entries).failed
    ensures ArtifactPath(fragmentFile, repo.id).Ok?
    ensures var r := HandleEntries(Merge, repo, fragmentFile, entries).repo;
      var link := LinkPath(SubDirectory(entries[n].classifier).value, entries[n]);
      link in r.items && r.items[link].LinkItem?
      && r.items[link].target == Uid(repo.id, ArtifactPath(fragmentFile, repo.id).value)
    decreases |entries|
  {
    var shorter := entries[..|entries| - 1];
    var before := HandleEntries(Merge, repo, fragmentFile, shorter);
    assert !before.failed;
    if n < |entries| - 1 {
      MergeLinksEveryArtifact(repo, fragmentFile, shorter, n);
    }
  }

  /** After a remove with no exception, no plug-in or feature listed has a link left. */
  lemma {:induction false} RemoveUnlinksEveryArtifact(repo: Repository, fragmentFile: string, entries: seq<InstallableArtifact>, n: nat)
    requires n < |entries| && SubDirectory(entries[n].classifier).Some?
    requires !HandleEntries(Remove, repo, fragmentFile, entries).failed
    ensures LinkPath(SubDirectory(entries[n].classifier).value, entries[n]) !in HandleEntries(Remove, repo, fragmentFile, entries).repo.items
    decreases |entries|
  {
    var shorter := entries[..|entries| - 1];
    var before := HandleEntries(Remove, repo, fragmentFile, shorter);
    assert !before.failed;
    if n < |entries| - 1 {
      RemoveUnlinksEveryArtifact(repo, fragmentFile, shorter, n);
    }
  }

  /**
   * When the jar path cannot be derived, the first plug-in or feature listed
   * raises the exception and nothing is linked or unlinked.
   */
  lemma {:induction false} UnderivableJarPathChangesNothing(op: Op, repo: Repository, fragmentFile: string, entries: seq<InstallableArtifact>)
    requires ArtifactPath(fragmentFile, repo.id).Throws?
    ensures HandleEntries(op, repo, fragmentFile, entries).repo == repo
    ensures HandleEntries(op, repo, fragmentFile, entries).failed
        <==> exists n | 0 <= n < |entries| :: SubDirectory(entries[n].classifier).Some?
    decreases |entries|
  {
    if |entries| > 0 {
      var shorter := entries[..|entries| - 1];
      UnderivableJarPathChangesNothing(op, repo, fragmentFile, shorter);
      assert forall n | 0 <= n < |shorter| :: shorter[n] == entries[n];
    }
  }
}
