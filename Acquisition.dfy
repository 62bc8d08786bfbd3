/**
 * The release-acquisition pipeline and the cache layout, as pure functions
 * over the disk: what `DownloadRelease` does to the disk and which record it
 * produces, what `UpdateRepos` writes, and what the start-up load reads. The
 * network, the archive reader and the content parser are oracles in
 * `Services`; so is every disk call that can throw for reasons of the real
 * machine (permissions, locked files).
 */
module Acquisition {
  import opened Wrappers
  import opened Text
  import opened Models
  import opened Storage

  /** `GetStoragePath()`, fixed. */
  const StorageRoot: Path := ["Storage"]
  const CacheFileName: string := "cache.json"
  /** `download.zip` in the storage root, where every download lands. */
  const ArchivePath: Path := Combine(StorageRoot, "download.zip")
  /** The repository catalog's cache file. */
  const CatalogPath: Path := Combine(StorageRoot, CacheFileName)

  /** The calls that can throw, one per statement of the source that does I/O. */
  datatype Step =
    | CreateRoot          // Directory.CreateDirectory(current)
    | DeleteStaleArchive  // File.Delete(targetPath) before the download
    | Download            // GitHubAccess.DownloadRepo(SelectedRelease.Url, …)
    | DeriveFolder        // the folder name cut from the release name
    | ClearFolder         // Directory.Delete(targetFolder, true)
    | RecreateFolder      // Directory.CreateDirectory(targetFolder) after the delete
    | Extract             // ZipFile.ExtractToDirectory
    | DeleteArchive       // File.Delete(targetPath) after extraction
    | Parse               // ReleaseContentHelper.GetReleaseContent
    | Annotate            // the annotation reads the selected repository
    | Persist             // File.WriteAllText(targetFolder/cache.json)
    | SaveCatalog         // File.WriteAllText(storage/cache.json)

  /** The external capabilities; `None` is an exception thrown by the call. */
  datatype Services = Services(
    listRepositories: bool -> Option<seq<Repository>>, // GitHubAccess.GetOpenKnxRepositoriesAsync(ShowPrereleases)
    download: string -> Option<Bytes>,                  // GitHubAccess.DownloadRepo: the archive fetched from a url
    unzip: FileContent -> Option<map<EntryPath, Bytes>>, // the file entries of an archive (directory entries are not listed)
    parse: (FileSystem, Path) -> Option<ReleaseRecord>, // GetReleaseContent on a directory
    ioFails: Step -> bool)                              // the disk call of that step throws

  /** The outcome of a run: a value, or the step that threw and the disk as it was left. */
  datatype Attempt<+T> = Done(value: T) | Threw(at: Step, state: FileSystem) {

    predicate IsFailure() {
      Threw?
    }

    function PropagateFailure<U>(): Attempt<U>
      requires Threw?
    {
      Threw(at, state)
    }

    function Extract(): T
      requires Done?
    {
      value
    }
  }

  datatype Acquired = Acquired(fs: FileSystem, record: ReleaseRecord)

  function Need<T>(o: Option<T>, at: Step, fs: FileSystem): Attempt<T> {
    if o.Some? then Done(o.value) else Threw(at, fs)
  }

  /** A disk call that either throws before changing anything or leaves `after`. */
  function DiskCall(at: Step, before: FileSystem, after: FileSystem, env: Services): Attempt<FileSystem> {
    if env.ioFails(at) then Threw(at, before) else Done(after)
  }

  /** `Directory.CreateDirectory(p)`: throws for a reason of the machine or because a file is in the way. */
  function CreateDirectoryCall(at: Step, fs: FileSystem, p: Path, env: Services): Attempt<FileSystem> {
    if env.ioFails(at) then Threw(at, fs) else Need(fs.TryCreateDirectory(p), at, fs)
  }

  /** `ZipFile.ExtractToDirectory(archive, folder)`; a missing archive file throws. */
  function Unzip(fs: FileSystem, archive: Path, folder: Path, env: Services): Option<FileSystem> {
    if archive !in fs.files then None
    else
      var entries :- env.unzip(fs.files[archive]);
      fs.ExtractEntries(folder, entries)
  }

  /** The five assignments that annotate a parsed model with its origin. */
  function Annotated(parsed: ReleaseRecord, repo: Repository, rel: Release): ReleaseRecord {
    parsed.(repositoryName := repo.name,
            releaseName := rel.name,
            isPrerelease := rel.isPrerelease,
            published := rel.published,
            version := VersionString(rel.major, rel.minor, rel.build))
  }

  function ReleaseFolder(stem: string): Path {
    Combine(StorageRoot, stem)
  }

  /** Lines 172-178: the storage root is made to exist and a stale `download.zip` is removed. */
  function Prepare(fs: FileSystem, env: Services): (r: Attempt<FileSystem>)
    ensures r.Done? ==> StorageRoot in r.value.dirs && r.value.files == fs.files - {ArchivePath}
    ensures r.Threw? ==> r.at in {CreateRoot, DeleteStaleArchive} && r.state.files == fs.files
    ensures var after := if r.Done? then r.value else r.state;
      fs.dirs <= after.dirs <= fs.CreateDirectory(StorageRoot).dirs
  {
    assert StorageRoot[..1] == StorageRoot;
    var fs1 :- if StorageRoot in fs.dirs then Done(fs) else CreateDirectoryCall(CreateRoot, fs, StorageRoot, env);
    if ArchivePath in fs1.files then DiskCall(DeleteStaleArchive, fs1, fs1.DeleteFile(ArchivePath), env)
    else Done(fs1)
  }

  /**
   * Line 181: the archive at the release's url is written to `download.zip`,
   * which throws when the storage root is missing or `download.zip` is a directory.
   */
  function Fetch(fs: FileSystem, rel: Release, env: Services): (r: Attempt<FileSystem>)
    ensures r.Done? <==> env.download(rel.url).Some? && StorageRoot in fs.dirs && ArchivePath !in fs.dirs
    ensures r.Done? ==>
      r.value.dirs == fs.dirs && ArchivePath in r.value.files &&
      r.value.files[ArchivePath] == Blob(env.download(rel.url).value)
    ensures r.Done? ==> forall q :: q != ArchivePath ==>
      (q in r.value.files <==> q in fs.files) && (q in fs.files ==> r.value.files[q] == fs.files[q])
    ensures r.Threw? ==> r.at == Download && r.state == fs
  {
    var bytes :- Need(env.download(rel.url), Download, fs);
    Need(fs.WriteFile(ArchivePath, Blob(bytes)), Download, fs)
  }

  /**
   * Lines 186-187: an existing target folder is deleted with everything in it
   * and created again; either call can throw, the second after the first took effect.
   */
  function ClearTarget(fs: FileSystem, folder: Path, env: Services): (r: Attempt<FileSystem>)
    ensures r.Done? ==> forall q :: q in r.value.files <==> q in fs.files && !IsUnder(q, folder)
    ensures r.Done? ==> forall q :: q in r.value.files ==> r.value.files[q] == fs.files[q]
  {
    var cleared :- DiskCall(ClearFolder, fs, fs.DeleteTree(folder), env);
    CreateDirectoryCall(RecreateFolder, cleared, folder, env)
  }

  /** The entries of the archive file in `fs`, when there is one and it can be read. */
  function ArchiveEntries(fs: FileSystem, env: Services): Option<map<EntryPath, Bytes>> {
    if ArchivePath in fs.files then env.unzip(fs.files[ArchivePath]) else None
  }

  /**
   * Lines 189-192: the archive is extracted into `folder` and then deleted.
   * Afterwards every entry sits in the folder, no other file has appeared,
   * and only `download.zip` is gone.
   */
  function ExtractAndDrop(fs: FileSystem, folder: Path, env: Services): (r: Attempt<FileSystem>)
    ensures r.Done? ==> folder in r.value.dirs && ArchivePath !in r.value.files
    ensures r.Done? ==> ArchiveEntries(fs, env).Some?
    ensures r.Done? ==> var entries := ArchiveEntries(fs, env).value;
      forall e :: e in entries ==> folder + e in r.value.files && r.value.files[folder + e] == Blob(entries[e])
    ensures r.Done? ==> var entries := ArchiveEntries(fs, env).value;
      forall q :: q in r.value.files ==> q in fs.files || exists e :: e in entries && q == folder + e
    ensures r.Done? ==> forall q :: q in fs.files && q != ArchivePath ==> q in r.value.files && r.value.files[q] == fs.files[q]
  {
    var fs5 :- Need(Unzip(fs, ArchivePath, folder, env), Extract, fs);
    assert forall e :: e in ArchiveEntries(fs, env).value ==> folder + e != ArchivePath;
    if ArchivePath in fs5.files then DiskCall(DeleteArchive, fs5, fs5.DeleteFile(ArchivePath), env)
    else Done(fs5)
  }

  /** `folder + e` lies below `folder`. */
  lemma ExtendedIsUnder(folder: Path, e: Path)
    ensures IsUnder(folder + e, folder)
  {
    assert (folder + e)[..|folder|] == folder;
  }

  /**
   * Lines 184-192: the target folder is emptied, the archive extracted into it
   * and then deleted. Afterwards the folder holds every entry of the archive
   * and, when it existed before, nothing else; outside the folder the only
   * file that changed is `download.zip` (directories may gain the folder's ancestors).
   */
  function Unpack(fs: FileSystem, folder: Path, env: Services): (r: Attempt<FileSystem>)
    ensures r.Done? ==> folder in r.value.dirs && ArchivePath !in r.value.files
    ensures r.Done? ==> ArchiveEntries(fs, env).Some?
    ensures r.Done? ==> var entries := ArchiveEntries(fs, env).value;
      forall e :: e in entries ==> folder + e in r.value.files && r.value.files[folder + e] == Blob(entries[e])
    ensures r.Done? && folder in fs.dirs ==> var entries := ArchiveEntries(fs, env).value;
      forall q :: q in r.value.files && IsUnder(q, folder) ==> exists e :: e in entries && q == folder + e
    ensures r.Done? ==> forall q :: !IsUnder(q, folder) && q != ArchivePath ==>
      (q in r.value.files <==> q in fs.files) && (q in fs.files ==> r.value.files[q] == fs.files[q])
  {
    var fs4 :- if folder in fs.dirs then ClearTarget(fs, folder, env) else Done(fs);
    var r := ExtractAndDrop(fs4, folder, env);
    if r.Done? then
      assert ArchiveEntries(fs4, env) == ArchiveEntries(fs, env);
      assert forall e :: e in ArchiveEntries(fs, env).value ==> IsUnder(folder + e, folder) by {
        forall e | e in ArchiveEntries(fs, env).value { ExtendedIsUnder(folder, e); }
      }
      r
    else r
  }

  /** Lines 194-201: the payload is parsed, annotated and written to the folder's `cache.json`. */
  function Register(fs: FileSystem, folder: Path, repo: Option<Repository>, rel: Release, env: Services): (r: Attempt<Acquired>)
    ensures r.Done? ==> repo.Some? && env.parse(fs, Combine(folder, "data")).Some?
    ensures r.Done? ==> r.value.record == Annotated(env.parse(fs, Combine(folder, "data")).value, repo.value, rel)
    ensures r.Done? ==> r.value.fs == fs.Put(Combine(folder, CacheFileName), ReleaseJson(r.value.record))
  {
    var parsed :- Need(env.parse(fs, Combine(folder, "data")), Parse, fs);
    var r :- Need(repo, Annotate, fs);
    var record := Annotated(parsed, r, rel);
    var written :- Need(if env.ioFails(Persist) then None else fs.WriteFile(Combine(folder, CacheFileName), ReleaseJson(record)),
                        Persist, fs);
    Done(Acquired(written, record))
  }

  /**
   * The body of the `try` in `DownloadRelease`, for the selections `repo` and
   * `release` (None is null): each step in order, the first that throws ends
   * the run. `SelectedRelease.Url` is read (and throws when null) only after
   * the storage root was prepared.
   */
  function Acquire(fs: FileSystem, repo: Option<Repository>, release: Option<Release>, env: Services): Attempt<Acquired> {
    var prepared :- Prepare(fs, env);
    var rel :- Need(release, Download, prepared);
    var fetched :- Fetch(prepared, rel, env);
    var stem :- Need(StemBeforeLastDot(rel.name), DeriveFolder, fetched);
    var unpacked :- Unpack(fetched, ReleaseFolder(stem), env);
    Register(unpacked, ReleaseFolder(stem), repo, rel, env)
  }

  /** The disk after a run, whether it completed or threw. */
  function FinalDisk(a: Attempt<Acquired>): FileSystem {
    match a
    case Done(acq) => acq.fs
    case Threw(_, fs) => fs
  }

  /** The catalog write at the end of `UpdateRepos`; when it throws the disk is as before. */
  function SaveCatalogFile(fs: FileSystem, repos: seq<Repository>, env: Services): FileSystem {
    if env.ioFails(SaveCatalog) then fs
    else match fs.WriteFile(CatalogPath, CatalogJson(repos))
      case Some(fs') => fs'
      case None => fs
  }

  // ---------------------------------------------------------------------------
  // Reading the cache back

  /** The repositories the start-up load reads; None when the file does not deserialise (the constructor throws). */
  function CachedCatalog(fs: FileSystem): Option<seq<Repository>> {
    if CatalogPath !in fs.files then Some([])
    else match fs.files[CatalogPath]
      case CatalogJson(repos) => Some(repos)
      case _ => None
  }

  /** What a release folder contributes to the start-up load. */
  datatype CacheEntry = Absent | Corrupt | Cached(record: ReleaseRecord)

  function ReadReleaseCache(fs: FileSystem, folder: Path): CacheEntry {
    var p := Combine(folder, CacheFileName);
    if p !in fs.files then Absent
    else match fs.files[p]
      case ReleaseJson(rec) => Cached(rec)
      case _ => Corrupt
  }

  /**
   * The records of `folders`, in order: a folder without `cache.json` adds
   * nothing, one whose file does not deserialise makes the load throw (None).
   */
  function CachedReleases(fs: FileSystem, folders: seq<Path>): Option<seq<ReleaseRecord>> {
    if folders == [] then Some([])
    else
      var earlier :- CachedReleases(fs, folders[..|folders| - 1]);
      match ReadReleaseCache(fs, folders[|folders| - 1])
      case Absent => Some(earlier)
      case Corrupt => None
      case Cached(rec) => Some(earlier + [rec])
  }

  /** `listing` is an order of the immediate sub-directories of `dir`, as `Directory.GetDirectories` gives them. */
  predicate ListsChildren(fs: FileSystem, dir: Path, listing: seq<Path>) {
    (forall i :: 0 <= i < |listing| ==> listing[i] in fs.dirs && IsChildOf(listing[i], dir)) &&
    (forall d :: d in fs.dirs && IsChildOf(d, dir) ==> d in listing) &&
    (forall i, j :: 0 <= i < j < |listing| ==> listing[i] != listing[j])
  }

  function JoinLoads<T>(x: Option<seq<T>>, y: Option<seq<T>>): Option<seq<T>> {
    if x.Some? && y.Some? then Some(x.value + y.value) else None
  }

  /** Loading two runs of folders one after the other is loading the first and then the second. */
  lemma {:induction false} CachedReleasesAppend(fs: FileSystem, a: seq<Path>, b: seq<Path>)
    ensures CachedReleases(fs, a + b) == JoinLoads(CachedReleases(fs, a), CachedReleases(fs, b))
  {
    if b == [] {
      assert a + b == a;
      if CachedReleases(fs, a).Some? {
        assert CachedReleases(fs, a).value + [] == CachedReleases(fs, a).value;
      }
    } else {
      var b', last := b[..|b| - 1], b[|b| - 1];
      assert (a + b)[..|a + b| - 1] == a + b';
      assert (a + b)[|a + b| - 1] == last;
      CachedReleasesAppend(fs, a, b');
      var x, y := CachedReleases(fs, a), CachedReleases(fs, b');
      if x.Some? && y.Some? && ReadReleaseCache(fs, last).Cached? {
        assert x.value + (y.value + [ReadReleaseCache(fs, last).record]) == (x.value + y.value) + [ReadReleaseCache(fs, last).record];
      }
    }
  }

  /** The folders of `folders` that hold a `cache.json`. */
  function WithCacheFile(fs: FileSystem, folders: seq<Path>): (r: seq<Path>)
    ensures forall f :: f in r ==> f in folders && ReadReleaseCache(fs, f) != Absent
  {
    if folders == [] then []
    else
      var last := folders[|folders| - 1];
      WithCacheFile(fs, folders[..|folders| - 1]) + (if ReadReleaseCache(fs, last) == Absent then [] else [last])
  }

  /** Sub-folders without `cache.json` contribute nothing: dropping them does not change the load. */
  lemma {:induction false} CachedReleasesIgnoresUncached(fs: FileSystem, folders: seq<Path>)
    ensures CachedReleases(fs, folders) == CachedReleases(fs, WithCacheFile(fs, folders))
  {
    if folders != [] {
      var init, last := folders[..|folders| - 1], folders[|folders| - 1];
      var kept := if ReadReleaseCache(fs, last) == Absent then [] else [last];
      assert folders == init + [last];
      assert WithCacheFile(fs, folders) == WithCacheFile(fs, init) + kept;
      CachedReleasesIgnoresUncached(fs, init);
      CachedReleasesAppend(fs, init, [last]);
      CachedReleasesAppend(fs, WithCacheFile(fs, init), kept);
      assert CachedReleases(fs, [last]) == CachedReleases(fs, kept) by {
        assert [last][..0] == [];
      }
    }
  }

  /** When every folder holds a record, the load lists those records in folder order. */
  lemma {:induction false} CachedReleasesInOrder(fs: FileSystem, folders: seq<Path>)
    requires forall i :: 0 <= i < |folders| ==> ReadReleaseCache(fs, folders[i]).Cached?
    ensures CachedReleases(fs, folders).Some?
    ensures |CachedReleases(fs, folders).value| == |folders|
    ensures forall i :: 0 <= i < |folders| ==>
      CachedReleases(fs, folders).value[i] == ReadReleaseCache(fs, folders[i]).record
  {
    if folders != [] {
      CachedReleasesInOrder(fs, folders[..|folders| - 1]);
    }
  }

  /**
   * Without a corrupt cache file the load succeeds and lists, in enumeration
   * order, the record of each folder that holds a `cache.json` and nothing else.
   */
  lemma LoadIsEnumerationOrder(fs: FileSystem, folders: seq<Path>)
    requires forall i :: 0 <= i < |folders| ==> ReadReleaseCache(fs, folders[i]) != Corrupt
    ensures var kept := WithCacheFile(fs, folders);
      CachedReleases(fs, folders).Some? &&
      |CachedReleases(fs, folders).value| == |kept| &&
      forall i :: 0 <= i < |kept| ==> CachedReleases(fs, folders).value[i] == ReadReleaseCache(fs, kept[i]).record
  {
    var kept := WithCacheFile(fs, folders);
    CachedReleasesIgnoresUncached(fs, folders);
    forall i | 0 <= i < |kept|
      ensures ReadReleaseCache(fs, kept[i]).Cached?
    {
      assert kept[i] in kept;
    }
    CachedReleasesInOrder(fs, kept);
  }

  /** A folder whose `cache.json` holds a record loads as exactly that record. */
  lemma CachedReleasesSingle(fs: FileSystem, folder: Path, rec: ReleaseRecord)
    requires Combine(folder, CacheFileName) in fs.files
    requires fs.files[Combine(folder, CacheFileName)] == ReleaseJson(rec)
    ensures CachedReleases(fs, [folder]) == Some([rec])
  {
    assert [folder][..0] == [];
    assert CachedReleases(fs, []) == Some([]);
    assert ReadReleaseCache(fs, folder) == Cached(rec);
    assert [] + [rec] == [rec];
  }

  /** What `UpdateRepos` writes is what the next start-up reads, when the write goes through. */
  lemma CatalogRoundTrip(fs: FileSystem, repos: seq<Repository>, env: Services)
    requires StorageRoot in fs.dirs && CatalogPath !in fs.dirs && !env.ioFails(SaveCatalog)
    ensures CachedCatalog(SaveCatalogFile(fs, repos, env)) == Some(repos)
  {
    assert CatalogPath[..1] == StorageRoot;
  }

  /** Without a storage root the catalog write throws and the disk is untouched. */
  lemma CatalogNotSavedWithoutRoot(fs: FileSystem, repos: seq<Repository>, env: Services)
    requires StorageRoot !in fs.dirs
    ensures SaveCatalogFile(fs, repos, env) == fs
  {
    assert CatalogPath[..1] == StorageRoot;
  }

  // ---------------------------------------------------------------------------
  // Properties of the pipeline

  /**
   * With no release selected the run throws at `SelectedRelease.Url`, before
   * any network call, but only after the storage root was created and a stale
   * archive removed.
   */
  lemma AcquireWithoutRelease(fs: FileSystem, repo: Option<Repository>, env: Services)
    ensures var a := Acquire(fs, repo, None, env);
      a.Threw? && a.at in {CreateRoot, DeleteStaleArchive, Download} &&
      (a.state.files == fs.files || a.state.files == fs.files - {ArchivePath}) &&
      fs.dirs <= a.state.dirs <= fs.CreateDirectory(StorageRoot).dirs
  {
  }

  /** A release name without a dot never gets past the folder-name step. */
  lemma AcquireNeedsDot(fs: FileSystem, repo: Option<Repository>, rel: Release, env: Services)
    requires '.' !in rel.name
    ensures var a := Acquire(fs, repo, Some(rel), env);
      a.Threw? && a.at in {CreateRoot, DeleteStaleArchive, Download, DeriveFolder}
  {
  }

  /** Without a selected repository the run throws at the annotation, after extraction and parsing. */
  lemma AcquireWithoutRepository(fs: FileSystem, release: Option<Release>, env: Services)
    ensures Acquire(fs, None, release, env).Threw?
  {
  }

  /** A completed run annotates the parsed record from the two selections. */
  lemma AcquiredRecord(fs: FileSystem, repo: Option<Repository>, release: Option<Release>, env: Services)
    requires Acquire(fs, repo, release, env).Done?
    ensures var rec := Acquire(fs, repo, release, env).value.record;
      repo.Some? && release.Some? &&
      rec.repositoryName == repo.value.name &&
      rec.releaseName == release.value.name &&
      rec.isPrerelease == release.value.isPrerelease &&
      rec.published == release.value.published &&
      rec.version == VersionString(release.value.major, release.value.minor, release.value.build) &&
      ParseVersion(rec.version) == Some((release.value.major, release.value.minor, release.value.build))
  {
    var prepared := Prepare(fs, env);
    assert prepared.Done? && release.Some?;
    var rel := release.value;
    var fetched := Fetch(prepared.value, rel, env);
    assert fetched.Done?;
    var stem := StemBeforeLastDot(rel.name);
    assert stem.Some?;
    var unpacked := Unpack(fetched.value, ReleaseFolder(stem.value), env);
    assert unpacked.Done?;
    assert Acquire(fs, repo, release, env) == Register(unpacked.value, ReleaseFolder(stem.value), repo, rel, env);
    ParseVersionOfVersionString(rel.major, rel.minor, rel.build);
  }

  /**
   * A completed run leaves no `download.zip` in the storage root and leaves
   * the record in the `cache.json` of the folder named by the stem of the
   * release name, where the next start-up load finds it.
   */
  lemma AcquiredRecordIsCached(fs: FileSystem, repo: Option<Repository>, release: Option<Release>, env: Services)
    requires Acquire(fs, repo, release, env).Done?
    ensures var acq := Acquire(fs, repo, release, env).value;
      release.Some? && StemBeforeLastDot(release.value.name).Some? &&
      var folder := ReleaseFolder(StemBeforeLastDot(release.value.name).value);
      ArchivePath !in acq.fs.files &&
      folder in acq.fs.dirs &&
      CachedReleases(acq.fs, [folder]) == Some([acq.record])
  {
    var prepared := Prepare(fs, env);
    assert prepared.Done? && release.Some?;
    var rel := release.value;
    var fetched := Fetch(prepared.value, rel, env);
    assert fetched.Done?;
    var stem := StemBeforeLastDot(rel.name);
    assert stem.Some?;
    var folder := ReleaseFolder(stem.value);
    var unpacked := Unpack(fetched.value, folder, env);
    assert unpacked.Done?;
    var acq := Acquire(fs, repo, release, env).value;
    assert Acquire(fs, repo, release, env) == Register(unpacked.value, folder, repo, rel, env);
    assert Combine(folder, CacheFileName) != ArchivePath;
    CachedReleasesSingle(acq.fs, folder, acq.record);
  }

  /**
   * A release whose name starts with its only dot (".zip") has an empty stem,
   * so the target folder is the storage root itself: the root is deleted with
   * every cached release and the catalog in it, and the extraction then fails
   * because the archive went with it.
   */
  lemma AcquireOfDotOnlyNameWipesStorage(fs: FileSystem, repo: Option<Repository>, rel: Release, env: Services)
    requires StemBeforeLastDot(rel.name) == Some("")
    requires env.download(rel.url).Some? && ArchivePath !in fs.dirs && StorageRoot !in fs.files
    requires !env.ioFails(CreateRoot) && !env.ioFails(DeleteStaleArchive)
    requires !env.ioFails(ClearFolder) && !env.ioFails(RecreateFolder)
    ensures var a := Acquire(fs, repo, Some(rel), env);
      a.Threw? && a.at == Extract &&
      forall p :: p in a.state.files ==> !IsUnder(p, StorageRoot)
  {
    assert StorageRoot[..1] == StorageRoot;
    var prepared := Prepare(fs, env);
    assert prepared.Done?;
    var fetched := Fetch(prepared.value, rel, env).value;
    assert ReleaseFolder("") == StorageRoot;
    assert StorageRoot in fetched.dirs;
    var cleared := fetched.DeleteTree(StorageRoot).CreateDirectory(StorageRoot);
    assert IsUnder(ArchivePath, StorageRoot);
    assert Unpack(fetched, StorageRoot, env) == Threw(Extract, cleared);
  }

  /**
   * A release whose folder name is that of an existing file in the storage
   * root (`download.zip.zip` names the archive just downloaded,
   * `cache.json.zip` the catalog cache) never completes: the extraction cannot
   * create its target folder.
   */
  lemma AcquireOntoFileFails(fs: FileSystem, repo: Option<Repository>, rel: Release, env: Services)
    requires StemBeforeLastDot(rel.name).Some? && StemBeforeLastDot(rel.name).value != ""
    requires var folder := ReleaseFolder(StemBeforeLastDot(rel.name).value);
      folder == ArchivePath || (folder in fs.files && folder !in fs.dirs)
    ensures Acquire(fs, repo, Some(rel), env).Threw?
  {
    var prepared := Prepare(fs, env);
    if prepared.Done? {
      var fetched := Fetch(prepared.value, rel, env);
      if fetched.Done? {
        var folder := ReleaseFolder(StemBeforeLastDot(rel.name).value);
        assert folder in fetched.value.files && folder !in fetched.value.dirs;
        assert folder[..|folder|] == folder;
        assert Unpack(fetched.value, folder, env).Threw?;
      }
    }
  }
}
