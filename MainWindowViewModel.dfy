/**
 * `MainWindowViewModel`: the catalog, the local releases, the selections and
 * the two operation flags, with the operations that change them. The disk
 * is threaded through the operations that touch it; the network, archive
 * and parser calls come from `Services`.
 */
module ViewModels {
  import opened Wrappers
  import opened Text
  import opened Models
  import opened Storage
  import opened Acquisition

  /** The releases the start-up load registers: none when the storage root does not exist. */
  function StartupReleases(fs: FileSystem, listing: seq<Path>): Option<seq<ReleaseRecord>> {
    if StorageRoot in fs.dirs then CachedReleases(fs, listing) else Some([])
  }

  class MainWindowViewModel {
    var repos: seq<Repository>
    var localReleases: seq<ReleaseContentModel>
    var selectedRepository: Option<Repository>
    var selectedRelease: Option<Release>
    var selectedProduct: Product?
    var isDownloading: bool
    var isUpdating: bool
    var canStep2: bool
    var showPrereleases: bool

    /** The field initialisers: empty collections, nothing selected, every flag false. */
    constructor ()
      ensures repos == [] && localReleases == []
      ensures Untouched()
    {
      repos := [];
      localReleases := [];
      selectedRepository := None;
      selectedRelease := None;
      selectedProduct := null;
      isDownloading := false;
      isUpdating := false;
      canStep2 := false;
      showPrereleases := false;
    }

    /** Nothing selected and every flag false, as the field initialisers leave it. */
    predicate Untouched()
      reads this
    {
      selectedRepository == None && selectedRelease == None && selectedProduct == null &&
      !isDownloading && !isUpdating && !canStep2 && !showPrereleases
    }

    // -------------------------------------------------------------------------
    // The operation gate

    predicate CanSelectRepo()
      reads this
    {
      |repos| > 0 && !isDownloading && !isUpdating
    }

    predicate CanSelectRelease()
      reads this
    {
      selectedRepository.Some? && !isDownloading && !isUpdating
    }

    predicate CanDownloadRelease()
      reads this
    {
      selectedRelease.Some? && !isDownloading && !isUpdating
    }

    predicate CanUpdateRepos()
      reads this
    {
      !isUpdating && !isDownloading
    }

    /** Every product of every local release points back at the model that holds it. */
    ghost predicate AllLinked()
      reads this, set m, p | m in localReleases && p in m.products :: p
    {
      Models.AllLinked(localReleases)
    }

    // -------------------------------------------------------------------------
    // Property setters (the change notifications are left out)

    method SetSelectedRepository(value: Option<Repository>)
      modifies this`selectedRepository
      ensures selectedRepository == value
    {
      selectedRepository := value;
    }

    method SetSelectedRelease(value: Option<Release>)
      modifies this`selectedRelease
      ensures selectedRelease == value
    {
      selectedRelease := value;
    }

    method SetIsDownloading(value: bool)
      modifies this`isDownloading
      ensures isDownloading == value
    {
      isDownloading := value;
    }

    method SetIsUpdating(value: bool)
      modifies this`isUpdating
      ensures isUpdating == value
    {
      isUpdating := value;
    }

    method SetCanStep2(value: bool)
      modifies this`canStep2
      ensures canStep2 == value
    {
      canStep2 := value;
    }

    method SetShowPrereleases(value: bool)
      modifies this`showPrereleases
      ensures showPrereleases == value
    {
      showPrereleases := value;
    }

    /** Assigning null is ignored; any product is selected and unlocks the second step. */
    method SetSelectedProduct(value: Product?)
      modifies this`selectedProduct, this`canStep2
      ensures value == null ==> selectedProduct == old(selectedProduct) && canStep2 == old(canStep2)
      ensures value != null ==> selectedProduct == value && canStep2
    {
      if value == null {
        return;
      }
      selectedProduct := value;
      SetCanStep2(true);
    }

    // -------------------------------------------------------------------------
    // Start-up

    /**
     * The constructor's body: the catalog from `cache.json` in the storage
     * root, then one model for each sub-folder (in `listing`'s order) that
     * holds a `cache.json`, its products linked back to it. A cache file that
     * does not deserialise makes the constructor throw: the result is None.
     */
    static method Load(fs: FileSystem, listing: seq<Path>) returns (r: Option<MainWindowViewModel>)
      requires StorageRoot in fs.dirs ==> ListsChildren(fs, StorageRoot, listing)
      ensures r.Some? <==> CachedCatalog(fs).Some? && StartupReleases(fs, listing).Some?
      ensures r.Some? ==> fresh(r.value) && r.value.repos == CachedCatalog(fs).value
      ensures r.Some? ==>
        var vm, recs := r.value, StartupReleases(fs, listing).value;
        |vm.localReleases| == |recs| &&
        (forall i :: 0 <= i < |recs| ==> fresh(vm.localReleases[i]) && vm.localReleases[i].Record() == recs[i]) &&
        vm.AllLinked()
      ensures r.Some? ==> r.value.Untouched()
    {
      var vm := new MainWindowViewModel();
      if CatalogPath in fs.files {
        if !fs.files[CatalogPath].CatalogJson? {
          return None;
        }
        var cached := fs.files[CatalogPath].repos;
        vm.repos := [];
        for i := 0 to |cached|
          invariant vm.repos == cached[..i]
          invariant vm.localReleases == [] && vm.Untouched()
        {
          vm.repos := vm.repos + [cached[i]];
        }
        assert vm.repos == cached;
      }
      if StorageRoot in fs.dirs {
        var loaded := LoadReleases(fs, listing);
        if loaded.None? {
          return None;
        }
        vm.localReleases := loaded.value;
      }
      r := Some(vm);
    }

    /**
     * The folder loop of the constructor: one model per folder of `listing`
     * that holds a `cache.json`, in that order, each with its products linked
     * back to it; None when a cache file does not deserialise.
     */
    static method LoadReleases(fs: FileSystem, listing: seq<Path>) returns (r: Option<seq<ReleaseContentModel>>)
      ensures r.Some? <==> CachedReleases(fs, listing).Some?
      ensures r.Some? ==>
        var recs := CachedReleases(fs, listing).value;
        |r.value| == |recs| &&
        (forall i :: 0 <= i < |recs| ==> fresh(r.value[i]) && r.value[i].Record() == recs[i]) &&
        Models.AllLinked(r.value)
    {
      var models: seq<ReleaseContentModel> := [];
      for i := 0 to |listing|
        invariant CachedReleases(fs, listing[..i]).Some?
        invariant var recs := CachedReleases(fs, listing[..i]).value;
          |models| == |recs| &&
          forall k :: 0 <= k < |recs| ==> fresh(models[k]) && models[k].Record() == recs[k]
        invariant Models.AllLinked(models)
      {
        assert listing[..i + 1][..i] == listing[..i];
        var entry := ReadReleaseCache(fs, listing[i]);
        if entry.Absent? {
          continue;
        }
        if entry.Corrupt? {
          CachedReleasesAppend(fs, listing[..i + 1], listing[i + 1..]);
          assert listing[..i + 1] + listing[i + 1..] == listing;
          return None;
        }
        var model := Materialize(entry.record);
        LinkProducts(model);
        models := models + [model];
      }
      assert listing[..|listing|] == listing;
      r := Some(models);
    }

    // -------------------------------------------------------------------------
    // Acquisition

    /**
     * Runs the acquisition for the current selections with `IsDownloading`
     * raised; whatever step throws, the exception is swallowed and the flag
     * is lowered again. Only a completed run registers a model, appended after
     * the existing ones.
     */
    method DownloadRelease(fs: FileSystem, env: Services) returns (fs': FileSystem)
      modifies this`isDownloading, this`localReleases
      ensures !isDownloading
      ensures var a := Acquire(fs, selectedRepository, selectedRelease, env);
        fs' == FinalDisk(a) &&
        (a.Threw? ==> localReleases == old(localReleases)) &&
        (a.Done? ==>
          |localReleases| == |old(localReleases)| + 1 &&
          localReleases[..|old(localReleases)|] == old(localReleases) &&
          var added := localReleases[|old(localReleases)|];
          fresh(added) && added.Record() == a.value.record && added.Linked())
      ensures old(AllLinked()) ==> AllLinked()
    {
      SetIsDownloading(true);
      var content;
      fs', content := RunPipeline(fs, selectedRepository, selectedRelease, env);
      if content != null {
        localReleases := localReleases + [content];
      }
      SetIsDownloading(false);
    }

    /**
     * The body of the `try` up to the append, for the selections `repo` and
     * `release`: the steps in order, the first that throws ending the run.
     * The model is null exactly when the run threw.
     */
    static method RunPipeline(fs: FileSystem, repo: Option<Repository>, release: Option<Release>, env: Services)
      returns (fs': FileSystem, content: ReleaseContentModel?)
      ensures var a := Acquire(fs, repo, release, env);
        fs' == FinalDisk(a) &&
        (content != null <==> a.Done?) &&
        (content != null ==>
          fresh(content) && content.Record() == a.value.record && content.Linked() &&
          forall p :: p in content.products ==> fresh(p))
    {
      content := null;
      var prepared := PrepareStorage(fs, env);
      if prepared.Threw? { return prepared.state, null; }
      fs' := prepared.value;
      if release.None? { return; }
      var rel := release.value;
      var fetched := FetchArchive(fs', rel, env);
      if fetched.Threw? { return fetched.state, null; }
      fs' := fetched.value;
      var stem := StemBeforeLastDot(rel.name);
      if stem.None? { return; }
      var targetFolder := Combine(StorageRoot, stem.value);
      var unpacked := UnpackArchive(fs', targetFolder, env);
      if unpacked.Threw? { return unpacked.state, null; }
      fs' := unpacked.value;
      fs', content := RegisterContent(fs', targetFolder, repo, rel, env);
    }

    /** Lines 172-178, one disk call at a time. */
    static method PrepareStorage(fs: FileSystem, env: Services) returns (r: Attempt<FileSystem>)
      ensures r == Prepare(fs, env)
    {
      var disk := fs;
      var current := StorageRoot;
      if current !in disk.dirs {
        var created := disk.TryCreateDirectory(current);
        if env.ioFails(CreateRoot) || created.None? { return Threw(CreateRoot, disk); }
        disk := created.value;
      }
      var targetPath := Combine(current, "download.zip");
      if targetPath in disk.files {
        if env.ioFails(DeleteStaleArchive) { return Threw(DeleteStaleArchive, disk); }
        disk := disk.DeleteFile(targetPath);
      }
      r := Done(disk);
    }

    /** Line 181: the download lands in `download.zip`. */
    static method FetchArchive(fs: FileSystem, release: Release, env: Services) returns (r: Attempt<FileSystem>)
      ensures r == Fetch(fs, release, env)
    {
      var bytes := env.download(release.url);
      if bytes.None? { return Threw(Download, fs); }
      var written := fs.WriteFile(ArchivePath, Blob(bytes.value));
      if written.None? { return Threw(Download, fs); }
      r := Done(written.value);
    }

    /** Lines 184-192, one disk call at a time. */
    static method UnpackArchive(fs: FileSystem, targetFolder: Path, env: Services) returns (r: Attempt<FileSystem>)
      ensures r == Unpack(fs, targetFolder, env)
    {
      var disk := fs;
      if targetFolder in disk.dirs {
        if env.ioFails(ClearFolder) { return Threw(ClearFolder, disk); }
        disk := disk.DeleteTree(targetFolder);
        var created := disk.TryCreateDirectory(targetFolder);
        if env.ioFails(RecreateFolder) || created.None? { return Threw(RecreateFolder, disk); }
        disk := created.value;
      }
      var extracted := Unzip(disk, ArchivePath, targetFolder, env);
      if extracted.None? { return Threw(Extract, disk); }
      disk := extracted.value;
      if ArchivePath in disk.files {
        if env.ioFails(DeleteArchive) { return Threw(DeleteArchive, disk); }
        disk := disk.DeleteFile(ArchivePath);
      }
      r := Done(disk);
    }

    /**
     * Lines 194-201: the payload is parsed into a new model, annotated from the
     * selections and written to the folder's `cache.json`. The result is null
     * when one of these throws; the disk is then as the throwing call left it.
     */
    static method RegisterContent(fs: FileSystem, targetFolder: Path, repo: Option<Repository>, release: Release, env: Services)
      returns (fs': FileSystem, content: ReleaseContentModel?)
      ensures var spec := Register(fs, targetFolder, repo, release, env);
        fs' == FinalDisk(spec) &&
        (content != null <==> spec.Done?) &&
        (content != null ==>
          fresh(content) && content.Record() == spec.value.record && content.Linked() &&
          forall p :: p in content.products ==> fresh(p))
    {
      fs' := fs;
      content := null;
      var parsed := env.parse(fs, Combine(targetFolder, "data"));
      if parsed.None? { return; }
      var model := Materialize(parsed.value);
      LinkProducts(model);
      if repo.None? { return; }
      model.repositoryName := repo.value.name;
      model.releaseName := release.name;
      model.isPrerelease := release.isPrerelease;
      model.published := release.published;
      model.version := VersionString(release.major, release.minor, release.build);
      assert model.Record() == Annotated(parsed.value, repo.value, release);
      if env.ioFails(Persist) { return; }
      var written := fs.WriteFile(Combine(targetFolder, CacheFileName), ReleaseJson(model.Record()));
      if written.None? { return; }
      fs', content := written.value, model;
    }

    // -------------------------------------------------------------------------
    // Catalog refresh

    /**
     * Fetches the repositories with `IsUpdating` raised. A failed fetch leaves
     * the catalog as it was; a successful one replaces it by the fetched list
     * and writes it to the catalog cache (a failing write is swallowed and
     * leaves the new catalog in place). The flag is lowered on every path.
     */
    method UpdateRepos(fs: FileSystem, env: Services) returns (fs': FileSystem)
      modifies this`isUpdating, this`repos
      ensures !isUpdating
      ensures var fetched := env.listRepositories(showPrereleases);
        (fetched.None? ==> repos == old(repos) && fs' == fs) &&
        (fetched.Some? ==> repos == fetched.value && fs' == SaveCatalogFile(fs, fetched.value, env))
    {
      SetIsUpdating(true);
      fs' := fs;
      label attempt: {
        var x := env.listRepositories(showPrereleases);
        if x.None? { break attempt; }
        repos := [];
        for i := 0 to |x.value|
          invariant repos == x.value[..i]
        {
          repos := repos + [x.value[i]];
        }
        assert repos == x.value;
        if env.ioFails(SaveCatalog) { break attempt; }
        var written := fs'.WriteFile(CatalogPath, CatalogJson(repos));
        if written.None? { break attempt; }
        fs' := written.value;
      }
      SetIsUpdating(false);
    }

    // -------------------------------------------------------------------------
    // Export

    /**
     * The suggested file name of the export: the selected product's release
     * name up to its last dot. A missing product, a product without its model,
     * or a name without a dot makes the source throw: None.
     */
    method DefaultExportName() returns (name: Option<string>)
      ensures name.Some? <==>
        selectedProduct != null && selectedProduct.releaseContent != null &&
        '.' in selectedProduct.releaseContent.releaseName
      ensures name.Some? ==> IsStemOf(name.value, selectedProduct.releaseContent.releaseName)
    {
      if selectedProduct == null || selectedProduct.releaseContent == null {
        return None;
      }
      var defaultName := selectedProduct.releaseContent.releaseName;
      name := Substring(defaultName, 0, LastIndexOf(defaultName, '.'));
    }
  }

  // ---------------------------------------------------------------------------
  // The gate

  /** While either operation runs, every gated action is unavailable. */
  lemma BusyClosesGate(vm: MainWindowViewModel)
    requires vm.isDownloading || vm.isUpdating
    ensures !vm.CanSelectRepo() && !vm.CanSelectRelease() && !vm.CanDownloadRelease() && !vm.CanUpdateRepos()
  {
  }

  /** With both flags down a refresh can always start. */
  lemma IdleOpensRefresh(vm: MainWindowViewModel)
    requires !vm.isDownloading && !vm.isUpdating
    ensures vm.CanUpdateRepos()
  {
  }

  /** Each open gate implies the selection or catalog its action needs. */
  lemma GateNeedsSelection(vm: MainWindowViewModel)
    ensures vm.CanDownloadRelease() ==> vm.selectedRelease.Some?
    ensures vm.CanSelectRelease() ==> vm.selectedRepository.Some?
    ensures vm.CanSelectRepo() ==> |vm.repos| > 0
  {
  }
}
