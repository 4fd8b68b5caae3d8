/**
 * DefaultP2TychoRepositoryAggregator: the configuration map, the repository
 * registry it reaches into, the `/.p2` locks it takes and the temporary
 * directories it creates, updated step by step as the Java class does.
 * Every operation is proved to leave the state the Engine functions
 * describe, so the Engine lemmas hold of the class.
 */
module Aggregator {
  import opened Outcomes
  import opened NexusUtils
  import opened P2Bridge
  import opened HeaderRepair
  import opened LinkDerivation
  import opened Engine

  class P2TychoRepositoryAggregator {
    /** The toolkit, the fragment inspectors and the traversal orders. */
    const services: Services
    /** The repository ids with aggregation enabled, and their configurations. */
    var configurations: map<string, Configuration>
    /** The repository registry: every repository, by id. */
    var repositories: map<string, Repository>
    /** The repositories whose `/.p2` uid lock is held. */
    var held: multiset<string>
    /** Temporary directories created and not (yet) deleted. */
    var temporaryDirectories: nat

    /**
     * Configurations are keyed by their repository id, repositories by their
     * id, and the registry and the storage scanner visit each entry once.
     */
    ghost predicate Valid()
      reads this
    {
      (forall id | id in configurations :: configurations[id].repositoryId == id)
      && (forall id | id in repositories :: repositories[id].id == id)
      && ListsEachRepositoryOnce(services) && ScansEachItemOnce(services)
    }

    constructor(services: Services, registry: map<string, Repository>)
      requires forall id | id in registry :: registry[id].id == id
      requires ListsEachRepositoryOnce(services) && ScansEachItemOnce(services)
      ensures Valid()
      ensures this.services == services && repositories == registry
      ensures configurations == map[] && held == multiset{} && temporaryDirectories == 0
    {
      this.services := services;
      repositories := registry;
      configurations := map[];
      held := multiset{};
      temporaryDirectories := 0;
    }

    /** getConfiguration: the configuration enabled for `repositoryId`, if any. */
    function GetConfiguration(repositoryId: string): (r: Option<Configuration>)
      reads this
      ensures r.Some? <==> repositoryId in configurations
      ensures r.Some? && Valid() ==> r.value.repositoryId == repositoryId
    {
      if repositoryId in configurations then Some(configurations[repositoryId]) else None
    }

    /** enableAggregationFor: put the configuration under its repository id. */
    method EnableAggregationFor(configuration: Configuration)
      requires Valid()
      modifies this
      ensures Valid()
      ensures configurations == old(configurations)[configuration.repositoryId := configuration]
      ensures GetConfiguration(configuration.repositoryId) == Some(configuration)
      ensures repositories == old(repositories) && held == old(held) && temporaryDirectories == old(temporaryDirectories)
    {
      configurations := configurations[configuration.repositoryId := configuration];
    }

    /** disableAggregationFor: remove whatever is configured for its repository id. */
    method DisableAggregationFor(configuration: Configuration)
      requires Valid()
      modifies this
      ensures Valid()
      ensures configurations == old(configurations) - {configuration.repositoryId}
      ensures GetConfiguration(configuration.repositoryId) == None
      ensures repositories == old(repositories) && held == old(held) && temporaryDirectories == old(temporaryDirectories)
    {
      configurations := configurations - {configuration.repositoryId};
    }

    // ----- locks and temporary directories -----

    /** `p2RepoUid.getLock().lock(…)` on the `/.p2` uid of a repository. */
    method Lock(repositoryId: string)
      modifies this
      ensures held == old(held) + multiset{repositoryId}
      ensures configurations == old(configurations) && repositories == old(repositories)
      ensures temporaryDirectories == old(temporaryDirectories)
    {
      held := held + multiset{repositoryId};
    }

    /** `p2RepoUid.getLock().unlock()`. */
    method Unlock(repositoryId: string)
      requires repositoryId in held
      modifies this
      ensures held == old(held) - multiset{repositoryId}
      ensures configurations == old(configurations) && repositories == old(repositories)
      ensures temporaryDirectories == old(temporaryDirectories)
    {
      held := held - multiset{repositoryId};
    }

    /** createTemporaryP2Repository: a new, empty directory. */
    method CreateTemporaryP2Repository() returns (dir: Directory)
      modifies this
      ensures dir == map[]
      ensures temporaryDirectories == old(temporaryDirectories) + 1
      ensures configurations == old(configurations) && repositories == old(repositories) && held == old(held)
    {
      dir := map[];
      temporaryDirectories := temporaryDirectories + 1;
    }

    /** deleteDirectory of a temporary directory. */
    method DeleteDirectory()
      requires temporaryDirectories > 0
      modifies this
      ensures temporaryDirectories == old(temporaryDirectories) - 1
      ensures configurations == old(configurations) && repositories == old(repositories) && held == old(held)
    {
      temporaryDirectories := temporaryDirectories - 1;
    }

    // ----- the aggregate's index files -----

    /** createP2Repository: stored artifacts index, then stored content index. */
    method CreateP2Repository(rid: string) returns (ok: bool)
      requires rid in repositories
      modifies this
      ensures var a := Engine.CreateP2Repository(services.toolkit, old(repositories[rid]));
        repositories == old(repositories)[rid := a.repo] && ok == a.ok
      ensures configurations == old(configurations) && held == old(held)
      ensures temporaryDirectories == old(temporaryDirectories)
    {
      var temp := CreateTemporaryP2Repository();
      ok := false;
      var artifacts := services.toolkit.artifactsWrite(repositories[rid].id);
      if artifacts.Some? {
        temp := temp[ArtifactsFileName := artifacts.value];
        repositories := repositories[rid := StoreFile(repositories[rid], ArtifactsIndexPath, temp[ArtifactsFileName])];
        var content := services.toolkit.metadataWrite(repositories[rid].id);
        if content.Some? {
          temp := temp[ContentFileName := content.value];
          CreatedContentPathIsContentIndex();
          ghost var withArtifacts := repositories;
          repositories := repositories[rid := StoreFile(repositories[rid], CollapseSeparators(CreatedContentPath), temp[ContentFileName])];
          UpdateTwice(old(repositories), rid, withArtifacts[rid], repositories[rid]);
          ok := true;
        }
      }
      DeleteDirectory();
    }

    /** getP2Artifacts: the artifacts index, created with the aggregate when missing. */
    method GetP2Artifacts(rid: string) returns (ok: bool)
      requires rid in repositories
      modifies this
      ensures var g := GetP2Index(services.toolkit, old(repositories[rid]), ArtifactsIndexPath);
        repositories == old(repositories)[rid := g.repo] && ok == g.ok
      ensures configurations == old(configurations) && held == old(held)
      ensures temporaryDirectories == old(temporaryDirectories)
    {
      if repositories[rid].baseDir.None? {
        return false;
      }
      if ArtifactsIndexPath in repositories[rid].items {
        return true;
      }
      ok := CreateP2Repository(rid);
    }

    /** getP2Content: the content index, created with the aggregate when missing. */
    method GetP2Content(rid: string) returns (ok: bool)
      requires rid in repositories
      modifies this
      ensures var g := GetP2Index(services.toolkit, old(repositories[rid]), ContentIndexPath);
        repositories == old(repositories)[rid := g.repo] && ok == g.ok
      ensures configurations == old(configurations) && held == old(held)
      ensures temporaryDirectories == old(temporaryDirectories)
    {
      if repositories[rid].baseDir.None? {
        return false;
      }
      if ContentIndexPath in repositories[rid].items {
        return true;
      }
      ok := CreateP2Repository(rid);
    }

    // ----- processing one fragment -----

    /** handleArtifacts' loop: one link per plug-in or feature, stopped by the first exception. */
    method HandleArtifacts(rid: string, op: Op, fragmentFile: string, sourceArtifacts: Content) returns (failed: bool)
      requires rid in repositories
      modifies this
      ensures var run := LinkDerivation.HandleArtifacts(services.toolkit, op, old(repositories[rid]), fragmentFile, sourceArtifacts);
        repositories == old(repositories)[rid := run.repo] && failed == run.failed
      ensures configurations == old(configurations) && held == old(held)
      ensures temporaryDirectories == old(temporaryDirectories)
    {
      var listed := services.toolkit.installableArtifacts(sourceArtifacts);
      if listed.None? {
        return true;
      }
      var entries := listed.value;
      var repo := repositories[rid];
      failed := false;
      var i := 0;
      while i < |entries| && !failed
        invariant i <= |entries|
        invariant LinkRun(repo, failed) == HandleEntries(op, old(repositories[rid]), fragmentFile, entries[..i])
        invariant failed ==> HandleEntries(op, old(repositories[rid]), fragmentFile, entries) == LinkRun(repo, failed)
        invariant unchanged(this)
      {
        HandleEntriesStep(op, old(repositories[rid]), fragmentFile, entries, i);
        var step := HandleEntry(op, repo, fragmentFile, entries[i]);
        repo, failed := step.repo, step.failed;
        i := i + 1;
        if failed {
          FailureStops(op, old(repositories[rid]), fragmentFile, entries, i);
        }
      }
      if !failed {
        assert entries[..i] == entries;
      }
      repositories := repositories[rid := repo];
    }

    /**
     * The part of processP2Artifacts before the toolkit call: read the
     * fragment's lines and, when its header is missing, repair it.  None when
     * the header check throws.
     */
    method StageArtifactsFragment(text: Content, now: int) returns (toMerge: Option<Content>)
      ensures toMerge == StagedArtifacts(text, now)
    {
      var lines := ReadLines(text);
      var header := HasArtifactsRepositoryHeader(lines);
      if header.Throws? {
        return None;
      }
      if header.value {
        ScannedLinesIdempotent(text);
        return Some(text);
      }
      var fixed := FixArtifactsRepositoryHeader(lines, now);
      toMerge := Some(fixed);
    }

    /** The part of processP2Metadata before the toolkit call. */
    method StageMetadataFragment(text: Content, now: int) returns (toMerge: Option<Content>)
      ensures toMerge == StagedMetadata(text, now)
    {
      var lines := ReadLines(text);
      var header := HasMetadataRepositoryHeader(lines);
      if header.Throws? {
        return None;
      }
      if header.value {
        ScannedLinesIdempotent(text);
        return Some(text);
      }
      var fixed := FixMetadataRepositoryHeader(lines, now);
      toMerge := Some(fixed);
    }

    /**
     * processP2Artifacts: stage the fragment as the `artifacts.xml` of a
     * fresh source directory, let the toolkit merge or remove it into `dest`,
     * then make or drop the links.
     */
    method ProcessP2Artifacts(rid: string, op: Op, fragmentPath: string, dest: Directory, now: int)
      returns (result: Directory, thrown: bool)
      requires rid in repositories && repositories[rid].baseDir.Some? && ArtifactsFileName in dest
      modifies this
      ensures var p := ProcessArtifacts(services.toolkit, op, old(repositories[rid]), fragmentPath, dest, now);
        repositories == old(repositories)[rid := p.repo] && result == p.dest && thrown == p.thrown
        && temporaryDirectories == old(temporaryDirectories) + (if p.leaked then 1 else 0)
      ensures configurations == old(configurations) && held == old(held)
    {
      var repo := repositories[rid];
      var source := CreateTemporaryP2Repository();
      var text := FileLines(repo, fragmentPath);
      if text.None? {
        return dest, true;
      }
      result, thrown := dest, false;
      var toMerge := StageArtifactsFragment(text.value, now);
      if toMerge.Some? {
        source := source[ArtifactsFileName := toMerge.value];
        result := MergeP2Artifacts(rid, op, StorageFile(repo.baseDir.value, fragmentPath), source[ArtifactsFileName], dest);
      }
      DeleteDirectory();
    }

    /** The try block of processP2Artifacts: toolkit processing, then handleArtifacts. */
    method MergeP2Artifacts(rid: string, op: Op, fragmentFile: string, source: Content, dest: Directory)
      returns (result: Directory)
      requires rid in repositories && ArtifactsFileName in dest
      modifies this
      ensures var p := MergeArtifacts(services.toolkit, op, old(repositories[rid]), fragmentFile, source, dest);
        repositories == old(repositories)[rid := p.repo] && result == p.dest
      ensures configurations == old(configurations) && held == old(held)
      ensures temporaryDirectories == old(temporaryDirectories)
    {
      result := dest;
      var merged := ArtifactsProcessor(services.toolkit, op)(source, dest[ArtifactsFileName]);
      if merged.Some? {
        result := dest[ArtifactsFileName := merged.value];
        var failed := HandleArtifacts(rid, op, fragmentFile, source);
      }
    }

    /**
     * processP2Metadata: stage the fragment as the `content.xml` of a fresh
     * source directory and let the toolkit merge or remove it into `dest`;
     * failures propagate.
     */
    method ProcessP2Metadata(rid: string, op: Op, fragmentPath: string, dest: Directory, now: int)
      returns (result: Directory, thrown: bool)
      requires rid in repositories && ContentFileName in dest
      modifies this
      ensures var p := ProcessMetadata(services.toolkit, op, old(repositories[rid]), fragmentPath, dest, now);
        repositories == old(repositories) && result == p.dest && thrown == p.thrown
        && temporaryDirectories == old(temporaryDirectories) + (if p.leaked then 1 else 0)
      ensures configurations == old(configurations) && held == old(held)
    {
      var source := CreateTemporaryP2Repository();
      var text := FileLines(repositories[rid], fragmentPath);
      if text.None? {
        return dest, true;
      }
      result, thrown := dest, true;
      var toMerge := StageMetadataFragment(text.value, now);
      if toMerge.Some? {
        source := source[ContentFileName := toMerge.value];
        var merged := MetadataProcessor(services.toolkit, op)(source[ContentFileName], dest[ContentFileName]);
        if merged.Some? {
          result, thrown := dest[ContentFileName := merged.value], false;
        }
      }
      DeleteDirectory();
    }

    // ----- the update / remove operations -----

    /**
     * The template the four operations share: look the configuration up and
     * the repository it names (an unknown one is logged), then run the
     * locked part.
     */
    method ArtifactsOperationFor(op: Op, item: Uid, now: int)
      requires Valid()
      modifies this
      ensures Valid()
      ensures item.repositoryId in old(configurations) && item.repositoryId in old(repositories) ==>
        var o := ArtifactsOperation(services.toolkit, op, old(repositories[item.repositoryId]), item.path, now);
        repositories == old(repositories)[item.repositoryId := o.repo]
        && temporaryDirectories == old(temporaryDirectories) + (if o.leaked then 1 else 0)
      ensures !(item.repositoryId in old(configurations) && item.repositoryId in old(repositories)) ==>
        repositories == old(repositories) && temporaryDirectories == old(temporaryDirectories)
      ensures configurations == old(configurations) && held == old(held)
    {
      var configuration := GetConfiguration(item.repositoryId);
      if configuration.None? || configuration.value.repositoryId !in repositories {
        return;
      }
      LockedArtifactsOperation(configuration.value.repositoryId, op, item.path, now);
    }

    /**
     * The locked part of updateP2Artifacts / removeP2Artifacts; the finally
     * unlocks and deletes the staging directory.
     */
    method LockedArtifactsOperation(rid: string, op: Op, path: string, now: int)
      requires rid in repositories
      modifies this
      ensures var o := ArtifactsOperation(services.toolkit, op, old(repositories[rid]), path, now);
        repositories == old(repositories)[rid := o.repo]
        && temporaryDirectories == old(temporaryDirectories) + (if o.leaked then 1 else 0)
      ensures configurations == old(configurations) && held == old(held)
    {
      Lock(rid);
      var dest := CreateTemporaryP2Repository();
      ExposeArtifacts(rid, op, path, dest, now);
      Unlock(rid);
      DeleteDirectory();
    }

    /** Get (or create) the index, then apply the fragment to it through `dest`. */
    method ExposeArtifacts(rid: string, op: Op, path: string, dest: Directory, now: int)
      requires rid in repositories && dest == map[]
      modifies this
      ensures var o := ArtifactsOperation(services.toolkit, op, old(repositories[rid]), path, now);
        repositories == old(repositories)[rid := o.repo]
        && temporaryDirectories == old(temporaryDirectories) + (if o.leaked then 1 else 0)
      ensures configurations == old(configurations) && held == old(held)
    {
      ghost var before := repositories;
      var ok := GetP2Artifacts(rid);
      if ok {
        ghost var exposed := repositories;
        ApplyArtifactsFragmentTo(rid, op, path, dest, now);
        UpdateTwice(before, rid, exposed[rid], repositories[rid]);
      }
    }

    /**
     * Copy the artifacts index into the (empty) staging directory `dest`,
     * process the fragment, copy the index back.
     */
    method ApplyArtifactsFragmentTo(rid: string, op: Op, path: string, dest: Directory, now: int)
      requires rid in repositories && repositories[rid].baseDir.Some? && dest == map[]
      modifies this
      ensures var o := ApplyArtifactsFragment(services.toolkit, op, old(repositories[rid]), path, now);
        repositories == old(repositories)[rid := o.repo]
        && temporaryDirectories == old(temporaryDirectories) + (if o.leaked then 1 else 0)
      ensures configurations == old(configurations) && held == old(held)
    {
      var staged := FileLines(repositories[rid], ArtifactsIndexPath);
      if staged.None? {
        return;
      }
      var stagedDir := dest[ArtifactsFileName := staged.value];
      assert stagedDir == map[ArtifactsFileName := staged.value];
      ProcessArtifactsAndCopyBack(rid, op, path, stagedDir, now);
    }

    /** Process the fragment into the staged artifacts index, then copy that back. */
    method ProcessArtifactsAndCopyBack(rid: string, op: Op, path: string, staged: Directory, now: int)
      requires rid in repositories && repositories[rid].baseDir.Some? && ArtifactsFileName in staged
      modifies this
      ensures var o := CopyBack(ProcessArtifacts(services.toolkit, op, old(repositories[rid]), path, staged, now),
                                ArtifactsIndexPath, ArtifactsFileName);
        repositories == old(repositories)[rid := o.repo]
        && temporaryDirectories == old(temporaryDirectories) + (if o.leaked then 1 else 0)
      ensures configurations == old(configurations) && held == old(held)
    {
      ghost var before := repositories;
      var result, thrown := ProcessP2Artifacts(rid, op, path, staged, now);
      if !thrown {
        ghost var processed := repositories;
        CopyFileBack(rid, ArtifactsIndexPath, result[ArtifactsFileName]);
        UpdateTwice(before, rid, processed[rid], repositories[rid]);
      }
    }

    /** The metadata counterpart of ArtifactsOperationFor. */
    method MetadataOperationFor(op: Op, item: Uid, now: int)
      requires Valid()
      modifies this
      ensures Valid()
      ensures item.repositoryId in old(configurations) && item.repositoryId in old(repositories) ==>
        var o := MetadataOperation(services.toolkit, op, old(repositories[item.repositoryId]), item.path, now);
        repositories == old(repositories)[item.repositoryId := o.repo]
        && temporaryDirectories == old(temporaryDirectories) + (if o.leaked then 1 else 0)
      ensures !(item.repositoryId in old(configurations) && item.repositoryId in old(repositories)) ==>
        repositories == old(repositories) && temporaryDirectories == old(temporaryDirectories)
      ensures configurations == old(configurations) && held == old(held)
    {
      var configuration := GetConfiguration(item.repositoryId);
      if configuration.None? || configuration.value.repositoryId !in repositories {
        return;
      }
      LockedMetadataOperation(configuration.value.repositoryId, op, item.path, now);
    }

    /** The locked part of updateP2Metadata / removeP2Metadata. */
    method LockedMetadataOperation(rid: string, op: Op, path: string, now: int)
      requires rid in repositories
      modifies this
      ensures var o := MetadataOperation(services.toolkit, op, old(repositories[rid]), path, now);
        repositories == old(repositories)[rid := o.repo]
        && temporaryDirectories == old(temporaryDirectories) + (if o.leaked then 1 else 0)
      ensures configurations == old(configurations) && held == old(held)
    {
      Lock(rid);
      var dest := CreateTemporaryP2Repository();
      ExposeMetadata(rid, op, path, dest, now);
      Unlock(rid);
      DeleteDirectory();
    }

    /** Get (or create) the index, then apply the fragment to it through `dest`. */
    method ExposeMetadata(rid: string, op: Op, path: string, dest: Directory, now: int)
      requires rid in repositories && dest == map[]
      modifies this
      ensures var o := MetadataOperation(services.toolkit, op, old(repositories[rid]), path, now);
        repositories == old(repositories)[rid := o.repo]
        && temporaryDirectories == old(temporaryDirectories) + (if o.leaked then 1 else 0)
      ensures configurations == old(configurations) && held == old(held)
    {
      ghost var before := repositories;
      var ok := GetP2Content(rid);
      if ok {
        ghost var exposed := repositories;
        ApplyMetadataFragmentTo(rid, op, path, dest, now);
        UpdateTwice(before, rid, exposed[rid], repositories[rid]);
      }
    }

    /** Copy the content index into `dest`, process the fragment, copy the index back. */
    method ApplyMetadataFragmentTo(rid: string, op: Op, path: string, dest: Directory, now: int)
      requires rid in repositories && dest == map[]
      modifies this
      ensures var o := ApplyMetadataFragment(services.toolkit, op, old(repositories[rid]), path, now);
        repositories == old(repositories)[rid := o.repo]
        && temporaryDirectories == old(temporaryDirectories) + (if o.leaked then 1 else 0)
      ensures configurations == old(configurations) && held == old(held)
    {
      var staged := FileLines(repositories[rid], ContentIndexPath);
      if staged.None? {
        return;
      }
      ghost var before := repositories;
      var result, thrown := ProcessP2Metadata(rid, op, path, dest[ContentFileName := staged.value], now);
      if !thrown {
        ghost var processed := repositories;
        CopyFileBack(rid, ContentIndexPath, result[ContentFileName]);
        UpdateTwice(before, rid, processed[rid], repositories[rid]);
      }
    }

    /** FileUtils.copyFile of a staged index file back onto the exposed file at `path`. */
    method CopyFileBack(rid: string, path: string, lines: Content)
      requires rid in repositories
      modifies this
      ensures repositories == old(repositories)[rid := OverwriteFile(old(repositories[rid]), path, lines)]
      ensures configurations == old(configurations) && held == old(held)
      ensures temporaryDirectories == old(temporaryDirectories)
    {
      repositories := repositories[rid := OverwriteFile(repositories[rid], path, lines)];
    }

    /** updateP2Artifacts(StorageItem): merge a deployed artifacts fragment. */
    method UpdateP2Artifacts(item: Uid, now: int)
      requires Valid()
      modifies this
      ensures Valid()
      ensures item.repositoryId in old(configurations) && item.repositoryId in old(repositories) ==>
        var o := ArtifactsOperation(services.toolkit, Merge, old(repositories[item.repositoryId]), item.path, now);
        repositories == old(repositories)[item.repositoryId := o.repo]
        && temporaryDirectories == old(temporaryDirectories) + (if o.leaked then 1 else 0)
      ensures !(item.repositoryId in old(configurations) && item.repositoryId in old(repositories)) ==>
        repositories == old(repositories) && temporaryDirectories == old(temporaryDirectories)
      ensures configurations == old(configurations) && held == old(held)
    {
      ArtifactsOperationFor(Merge, item, now);
    }

    /** removeP2Artifacts(StorageItem): remove a deleted artifacts fragment. */
    method RemoveP2Artifacts(item: Uid, now: int)
      requires Valid()
      modifies this
      ensures Valid()
      ensures item.repositoryId in old(configurations) && item.repositoryId in old(repositories) ==>
        var o := ArtifactsOperation(services.toolkit, Remove, old(repositories[item.repositoryId]), item.path, now);
        repositories == old(repositories)[item.repositoryId := o.repo]
        && temporaryDirectories == old(temporaryDirectories) + (if o.leaked then 1 else 0)
      ensures !(item.repositoryId in old(configurations) && item.repositoryId in old(repositories)) ==>
        repositories == old(repositories) && temporaryDirectories == old(temporaryDirectories)
      ensures configurations == old(configurations) && held == old(held)
    {
      ArtifactsOperationFor(Remove, item, now);
    }

    /** updateP2Metadata(StorageItem): merge a deployed content fragment. */
    method UpdateP2Metadata(item: Uid, now: int)
      requires Valid()
      modifies this
      ensures Valid()
      ensures item.repositoryId in old(configurations) && item.repositoryId in old(repositories) ==>
        var o := MetadataOperation(services.toolkit, Merge, old(repositories[item.repositoryId]), item.path, now);
        repositories == old(repositories)[item.repositoryId := o.repo]
        && temporaryDirectories == old(temporaryDirectories) + (if o.leaked then 1 else 0)
      ensures !(item.repositoryId in old(configurations) && item.repositoryId in old(repositories)) ==>
        repositories == old(repositories) && temporaryDirectories == old(temporaryDirectories)
      ensures configurations == old(configurations) && held == old(held)
    {
      MetadataOperationFor(Merge, item, now);
    }

    /** removeP2Metadata(StorageItem): remove a deleted content fragment. */
    method RemoveP2Metadata(item: Uid, now: int)
      requires Valid()
      modifies this
      ensures Valid()
      ensures item.repositoryId in old(configurations) && item.repositoryId in old(repositories) ==>
        var o := MetadataOperation(services.toolkit, Remove, old(repositories[item.repositoryId]), item.path, now);
        repositories == old(repositories)[item.repositoryId := o.repo]
        && temporaryDirectories == old(temporaryDirectories) + (if o.leaked then 1 else 0)
      ensures !(item.repositoryId in old(configurations) && item.repositoryId in old(repositories)) ==>
        repositories == old(repositories) && temporaryDirectories == old(temporaryDirectories)
      ensures configurations == old(configurations) && held == old(held)
    {
      MetadataOperationFor(Remove, item, now);
    }

    // ----- scanAndRebuild -----

    /** onFile for the stored item at `path` under the storage base `base`. */
    method OnFile(rid: string, base: string, path: string, dest: Directory, now: int, ghost st: ScanState)
      returns (result: Directory, thrown: bool)
      requires rid in repositories && repositories[rid].baseDir == Some(base)
      requires st == ScanState(repositories[rid], dest, false, false)
      requires ArtifactsFileName in dest && ContentFileName in dest
      modifies this
      ensures var v := VisitFile(services, st, base, path, now);
        repositories == old(repositories)[rid := v.repo] && result == v.dest && thrown == v.aborted
        && temporaryDirectories == old(temporaryDirectories) + (if v.leaked then 1 else 0)
      ensures configurations == old(configurations) && held == old(held)
    {
      var file := StorageFile(base, path);
      var fromSegments := GetReversePathSegments(base);
      var toSegments := GetReversePathSegments(file);
      var relative := GetRelativePath(fromSegments, toSegments, FileSeparator);
      if relative.Throws? {
        UpdateSame(repositories, rid);
        return dest, true;
      }
      if IsHidden(Some(relative.value), FileSeparator) {
        UpdateSame(repositories, rid);
        return dest, false;
      }
      result, thrown := OnFragment(rid, path, file, dest, now, st);
    }

    /** onFile's dispatch on the kind of fragment. */
    method OnFragment(rid: string, path: string, file: string, dest: Directory, now: int, ghost st: ScanState)
      returns (result: Directory, thrown: bool)
      requires rid in repositories && repositories[rid].baseDir.Some?
      requires st == ScanState(repositories[rid], dest, false, false)
      requires ArtifactsFileName in dest && ContentFileName in dest
      modifies this
      ensures var v := VisitFragment(services, st, path, file, now);
        repositories == old(repositories)[rid := v.repo] && result == v.dest && thrown == v.aborted
        && temporaryDirectories == old(temporaryDirectories) + (if v.leaked then 1 else 0)
      ensures configurations == old(configurations) && held == old(held)
    {
      result, thrown := dest, false;
      if services.isP2ArtifactsXml(file) {
        result, thrown := ProcessP2Artifacts(rid, Merge, path, dest, now);
      } else if services.isP2ContentXml(file) {
        result, thrown := ProcessP2Metadata(rid, Merge, path, dest, now);
      } else {
        UpdateSame(repositories, rid);
      }
    }

    /** SerialScanner.scan: onFile for each stored file, until one throws. */
    method ScanStorage(rid: string, base: string, files: seq<string>, dest: Directory, now: int)
      returns (result: Directory, aborted: bool)
      requires rid in repositories && repositories[rid].baseDir == Some(base)
      requires ArtifactsFileName in dest && ContentFileName in dest
      modifies this
      ensures var s := ScanRepository(services, old(repositories[rid]), dest, base, files, now);
        repositories == old(repositories)[rid := s.repo] && result == s.dest && aborted == s.aborted
        && temporaryDirectories == old(temporaryDirectories) + (if s.leaked then 1 else 0)
      ensures configurations == old(configurations) && held == old(held)
    {
      ghost var repo := repositories[rid];
      result, aborted := dest, false;
      var i := 0;
      UpdateSame(repositories, rid);
      while i < |files|
        invariant i <= |files| && rid in repositories
        invariant ScanRepository(services, repo, dest, base, files[..i], now) == ScanState(repositories[rid], result, false, false)
        invariant repositories == old(repositories)[rid := repositories[rid]]
        invariant configurations == old(configurations) && held == old(held)
        invariant temporaryDirectories == old(temporaryDirectories)
      {
        result, aborted := ScanNext(rid, base, files, i, result, now, repo, dest);
        i := i + 1;
        if aborted {
          ScanAbortStops(services, ScanState(repo, dest, false, false), base, files, i, now);
          return;
        }
      }
      assert files[..i] == files;
    }

    /**
     * One step of the scan of `files` that started on `repo` and `dest`:
     * onFile for `files[i]`, once the first `i` files were scanned without a throw.
     */
    method ScanNext(rid: string, base: string, files: seq<string>, i: nat, result: Directory, now: int,
                    ghost repo: Repository, ghost dest: Directory)
      returns (next: Directory, aborted: bool)
      requires i < |files| && rid in repositories && repo.baseDir == Some(base)
      requires ArtifactsFileName in dest && ContentFileName in dest
      requires ScanRepository(services, repo, dest, base, files[..i], now) == ScanState(repositories[rid], result, false, false)
      modifies this
      ensures var s := ScanRepository(services, repo, dest, base, files[..i + 1], now);
        repositories == old(repositories)[rid := s.repo] && next == s.dest && aborted == s.aborted
        && temporaryDirectories == old(temporaryDirectories) + (if s.leaked then 1 else 0)
      ensures configurations == old(configurations) && held == old(held)
    {
      ghost var st := ScanRepository(services, repo, dest, base, files[..i], now);
      ScanStep(services, ScanState(repo, dest, false, false), base, files, i, now);
      next, aborted := OnFile(rid, base, files[i], result, now, st);
    }

    /** scanAndRebuild(repositoryId): rebuild the aggregate from every fragment in the storage. */
    method ScanAndRebuild(repositoryId: string, now: int)
      requires Valid()
      modifies this
      ensures Valid()
      ensures var r := RebuildOne(services, old(configurations), old(repositories), repositoryId, now);
        repositories == r.registry && temporaryDirectories == old(temporaryDirectories) + r.leaks
      ensures configurations == old(configurations) && held == old(held)
    {
      var configuration := GetConfiguration(repositoryId);
      if configuration.None? || repositoryId !in repositories {
        return;
      }
      var base := repositories[repositoryId].baseDir;
      if base.None? {
        return;
      }
      RebuildLocked(repositoryId, base.value, now);
    }

    /** scanAndRebuild(repositoryId) on a file-system storage, under the repository's lock. */
    method RebuildLocked(rid: string, base: string, now: int)
      requires rid in repositories && repositories[rid].baseDir == Some(base)
      modifies this
      ensures var o := Rebuild(services, old(repositories[rid]), now);
        repositories == old(repositories)[rid := o.repo]
        && temporaryDirectories == old(temporaryDirectories) + (if o.leaked then 1 else 0)
      ensures configurations == old(configurations) && held == old(held)
    {
      var dest := CreateTemporaryP2Repository();
      Lock(rid);
      RebuildInto(rid, base, dest, now);
      Unlock(rid);
      DeleteDirectory();
    }

    /** The locked part of scanAndRebuild(repositoryId): staging into `dest`, scan and copy back. */
    method RebuildInto(rid: string, base: string, dest: Directory, now: int)
      requires rid in repositories && repositories[rid].baseDir == Some(base) && dest == map[]
      modifies this
      ensures var o := Rebuild(services, old(repositories[rid]), now);
        repositories == old(repositories)[rid := o.repo]
        && temporaryDirectories == old(temporaryDirectories) + (if o.leaked then 1 else 0)
      ensures configurations == old(configurations) && held == old(held)
    {
      ghost var before := repositories;
      var staged := StageIndexes(rid, dest);
      if staged.Some? {
        ghost var exposed := repositories;
        RebuildFromStaged(rid, base, staged.value, now);
        UpdateTwice(before, rid, exposed[rid], repositories[rid]);
      }
    }

    /** The scan and the copy back of scanAndRebuild, once both index files are staged. */
    method RebuildFromStaged(rid: string, base: string, staged: Directory, now: int)
      requires rid in repositories && repositories[rid].baseDir == Some(base)
      requires ArtifactsFileName in staged && ContentFileName in staged
      modifies this
      ensures var o := RebuildStaged(services, old(repositories[rid]), staged, now);
        repositories == old(repositories)[rid := o.repo]
        && temporaryDirectories == old(temporaryDirectories) + (if o.leaked then 1 else 0)
      ensures configurations == old(configurations) && held == old(held)
    {
      var dest, aborted := ScanStorage(rid, base, services.scanOrder(repositories[rid].items), staged, now);
      if !aborted {
        CopyFileBack(rid, ArtifactsIndexPath, dest[ArtifactsFileName]);
        CopyFileBack(rid, ContentIndexPath, dest[ContentFileName]);
      }
    }

    /** The staging part of scanAndRebuild: both index files, copied into `dest`. */
    method StageIndexes(rid: string, dest: Directory) returns (staged: Option<Directory>)
      requires rid in repositories && repositories[rid].baseDir.Some? && dest == map[]
      modifies this
      ensures var s := Staging(services.toolkit, old(repositories[rid]));
        repositories == old(repositories)[rid := s.repo] && staged == s.staged
      ensures configurations == old(configurations) && held == old(held)
      ensures temporaryDirectories == old(temporaryDirectories)
    {
      staged := None;
      var ok := GetP2Artifacts(rid);
      if !ok {
        return;
      }
      var artifacts := FileLines(repositories[rid], ArtifactsIndexPath);
      if artifacts.None? {
        return;
      }
      ok := GetP2Content(rid);
      if !ok {
        return;
      }
      var content := FileLines(repositories[rid], ContentIndexPath);
      if content.None? {
        return;
      }
      staged := Some(dest[ArtifactsFileName := artifacts.value][ContentFileName := content.value]);
    }

    /** scanAndRebuild(): rebuild every registered repository, in registry order. */
    method ScanAndRebuildAll(now: int)
      requires Valid()
      modifies this
      ensures Valid()
      ensures var r := RebuildEach(services, old(configurations), old(repositories), services.repositoryOrder(old(repositories)), now);
        repositories == r.registry && temporaryDirectories == old(temporaryDirectories) + r.leaks
      ensures repositories.Keys == old(repositories).Keys
      ensures forall id | id in old(repositories) ::
                repositories[id] == if id in old(configurations) then Rebuild(services, old(repositories)[id], now).repo
                                    else old(repositories)[id]
      ensures configurations == old(configurations) && held == old(held)
    {
      var ids := services.repositoryOrder(repositories);
      var i := 0;
      while i < |ids|
        invariant i <= |ids| && Valid()
        invariant var r := RebuildEach(services, old(configurations), old(repositories), ids[..i], now);
          repositories == r.registry && temporaryDirectories == old(temporaryDirectories) + r.leaks
        invariant configurations == old(configurations) && held == old(held)
      {
        assert ids[..i + 1][..i] == ids[..i];
        ScanAndRebuild(ids[i], now);
        i := i + 1;
      }
      assert ids[..i] == ids;
      RebuildEachOfRegistry(services, old(configurations), old(repositories), now);
    }

    // ----- addConfiguration / removeConfiguration -----

    /**
     * addConfiguration: create the aggregate when `/.p2` is missing.  An
     * unknown repository is logged; any other exception is rethrown, which
     * `thrown` reports.
     */
    method AddConfiguration(configuration: Configuration) returns (thrown: bool)
      requires Valid()
      modifies this
      ensures Valid()
      ensures var rid := configuration.repositoryId;
        rid in old(repositories) ==>
          var a := EnsureP2Repository(services.toolkit, old(repositories[rid]));
          repositories == old(repositories)[rid := a.repo] && thrown == !a.ok
      ensures configuration.repositoryId !in old(repositories) ==> repositories == old(repositories) && !thrown
      ensures configurations == old(configurations) && held == old(held)
      ensures temporaryDirectories == old(temporaryDirectories)
    {
      var rid := configuration.repositoryId;
      thrown := false;
      if rid !in repositories {
        return;
      }
      if !HasP2Directory(repositories[rid].items) {
        Lock(rid);
        var ok := CreateP2Repository(rid);
        Unlock(rid);
        thrown := !ok;
      }
    }

    /** removeConfiguration: delete `/.p2`; every failure is logged. */
    method RemoveConfiguration(configuration: Configuration)
      requires Valid()
      modifies this
      ensures Valid()
      ensures var rid := configuration.repositoryId;
        rid in old(repositories) ==> repositories == old(repositories)[rid := DeleteP2Directory(old(repositories[rid])).repo]
      ensures configuration.repositoryId !in old(repositories) ==> repositories == old(repositories)
      ensures configurations == old(configurations) && held == old(held)
      ensures temporaryDirectories == old(temporaryDirectories)
    {
      var rid := configuration.repositoryId;
      if rid !in repositories {
        return;
      }
      Lock(rid);
      var deleted := DeleteP2Directory(repositories[rid]);
      repositories := repositories[rid := deleted.repo];
      Unlock(rid);
    }
  }

  /** Updating a repository to what it already is changes nothing. */
  lemma UpdateSame(m: map<string, Repository>, k: string)
    requires k in m
    ensures m[k := m[k]] == m
  {
  }

  /** A second update of the same repository replaces the first. */
  lemma UpdateTwice(m: map<string, Repository>, k: string, a: Repository, b: Repository)
    ensures m[k := a][k := b] == m[k := b]
  {
  }
}
