# MainWindowViewModel of the OpenKNX Toolbox, in Dafny

This project models the release-acquisition and cache bookkeeping in the main window view model of the OpenKNX Toolbox (`ViewModels/MainWindowViewModel.cs`). It also proves properties of that model.

The view model holds these fields:

- the repository catalog `Repos`;
- the releases downloaded so far, `LocalReleases`;
- the selected repository, release and product;
- the two operation flags `IsDownloading` and `IsUpdating`, from which the availability predicates `CanSelectRepo`, `CanSelectRelease`, `CanDownloadRelease` and `CanUpdateRepos` are derived.

Its operations:

- **The constructor.** Loads the cached catalog (`Storage/cache.json`) and every cached release (`Storage/<folder>/cache.json`). It points each product back at its release model.
- **`DownloadRelease`.** Prepares the storage folder, downloads the selected release as `download.zip` and names the target folder after the release name up to its last dot. It then clears that folder, extracts the archive into it, deletes the archive, parses the payload, annotates the parsed model from the selections, writes it to the folder's `cache.json` and appends it to `LocalReleases`. The flag is raised for the run and lowered afterwards. Any exception along the way is swallowed.
- **`UpdateRepos`.** Fetches the repository list, replaces `Repos` with it (clear, then add one by one) and writes the catalog cache.
- **The setters**, and the default export name of `CreateKnxProd` (the selected product's release name up to its last dot).

## Structure

| file | module | contents |
|---|---|---|
| `Wrappers.dfy` | `Wrappers` | `Option` |
| `Text.dfy` | `Text` | `LastIndexOf` and `Substring` as .NET defines them (out-of-range arguments fail); the stem rule; decimal rendering of integers; the version string and its inverse |
| `Models.dfy` | `Models` | `Release` and `Repository` (values); `ReleaseRecord` (a serialised release model); the classes `Product` and `ReleaseContentModel`, whose fields are assigned in place |
| `Storage.dfy` | `Storage` | the disk as a value: a set of directory paths and a map from file paths to contents, with the `System.IO` calls the view model makes |
| `Acquisition.dfy` | `Acquisition` | the external capabilities (`Services`); the acquisition pipeline as pure stage functions `Prepare`, `Fetch`, `Unpack` and `Register`, composed by `Acquire`; the cache readers; the lemmas about them |
| `MainWindowViewModel.dfy` | `ViewModels` | class `MainWindowViewModel` with its fields, gate predicates, setters, the start-up load, `DownloadRelease`, `UpdateRepos` and the export name |

### How the model works

- **External capabilities.** The network calls, the archive reader and the content parser are oracle functions in `Services`; `None` means the call threw. A disk call that can throw for reasons outside the program, such as permissions or a locked file, can be made to fail through the oracle `ioFails`, one flag per step.
- **The disk** is a value passed in and returned by the operations that touch it. Its primitives in `Storage.dfy` are defined directly, as `System.IO` behaves:
  - `CreateDirectory` adds the path and all its ancestors; `TryCreateDirectory` throws instead when one of them is a file;
  - `DeleteFile` removes one file;
  - `DeleteTree` removes a directory and everything below it;
  - `WriteFile` stores a content and throws when the parent directory is missing or the path is a directory;
  - `ExtractEntries` writes archive entries, with the failure conditions given in its row below.
- **Directory operations.** Directory creation, the recursive delete and the re-creation of a cleared folder (lines 186-187, the steps `ClearFolder` and `RecreateFolder`) can each throw on their own.
- **The `try`/`catch` of the two async operations** is a labelled block left by `break`.
- **`DownloadRelease`** is proved against the pure function `Acquire`. Its result disk is `FinalDisk(Acquire(…))`. `LocalReleases` grows by exactly one fresh model when `Acquire` completes, and is unchanged when it throws.
- **Constructor exceptions.** The C# constructor can throw: a cache file that does not deserialise ends in a JSON exception or a null dereference. It is therefore modelled in two parts:
  - an anonymous `constructor` for the field initialisers;
  - the static method `Load`, whose result is `None` exactly when the constructor would throw.
- **`Path.Combine(p, "")` is `p`.** So a release named `.zip` has the storage root itself as its target folder. `AcquireOfDotOnlyNameWipesStorage` proves what follows:
  - the root is deleted recursively, taking every cached release and the catalog with it;
  - the extraction then fails, because the archive went with it.

### Behaviour of the code worth knowing

- **Exceptions are swallowed.** Every exception of `DownloadRelease` is caught and discarded, and every exception of `UpdateRepos` is caught and only logged. No typed error reaches the caller.
- **No gate check.** Neither operation checks its gate predicate before starting. The gate only tells the UI what to enable.
- **A missing selected release fails late.** It is first dereferenced at `SelectedRelease.Url`, after the storage root has been created and a stale `download.zip` deleted. `AcquireWithoutRelease` states exactly these effects.
- **A missing selected repository fails after disk work.** It is dereferenced only after extraction and parsing, so the extracted folder stays on disk.
- **A release name without a dot** makes `Substring(0, -1)` throw. Inside `DownloadRelease` that exception is swallowed like any other.
- **A corrupt cache file makes the constructor throw**; it is not skipped.
- **A repeated download of the same release appends a second model** to `LocalReleases`.

## Model

| member | source | states |
|---|---|---|
| Text.Substring | ViewModels/MainWindowViewModel.cs:183 | defined exactly when start and length are non-negative and the range lies inside the string (otherwise .NET throws); the result is that range, character for character |
| Text.LastIndexOf | ViewModels/MainWindowViewModel.cs:183 | -1 exactly when the character is absent; otherwise an index holding it with no occurrence after it |
| Text.StemBeforeLastDot | ViewModels/MainWindowViewModel.cs:183 | defined exactly when the name contains a dot; the result is the prefix before the last dot |
| Text.StemUnique | ViewModels/MainWindowViewModel.cs:239 | the prefix before the last dot is unique, so the folder name and the export name agree |
| Text.StemOfDottedName | ViewModels/MainWindowViewModel.cs:183 | cutting the extension of `stem.ext`, where the extension has no dot, gives back `stem` |
| Text.IntToString | ViewModels/MainWindowViewModel.cs:199 | at least one character; a leading `-` exactly for a negative number, followed by digits without a leading zero |
| Text.NatToString | ViewModels/MainWindowViewModel.cs:199 | a non-empty string of digits with no leading zero |
| Text.NatToStringValue | ViewModels/MainWindowViewModel.cs:199 | the digits read back as the number rendered |
| Text.IntToStringRoundTrip | ViewModels/MainWindowViewModel.cs:199 | an integer's rendering, sign included, parses back to that integer |
| Text.IntToStringHasNoDot | ViewModels/MainWindowViewModel.cs:199 | a rendered integer contains no dot, so the dots of a version string are its two separators |
| Text.VersionString | ViewModels/MainWindowViewModel.cs:199 | definition: `v`, then the three numbers rendered by `IntToString` and separated by dots; its contract gives the leading `v` and a length of at least six, and `ParseVersionOfVersionString` gives the inverse |
| Text.ParseVersionOfVersionString | ViewModels/MainWindowViewModel.cs:199 | `v{Major}.{Minor}.{Build}` parses back to the three numbers |
| Text.VersionStringInjective | ViewModels/MainWindowViewModel.cs:199 | two version strings are equal only when all three numbers are |
| Storage.Combine | ViewModels/MainWindowViewModel.cs:176 | an empty name leaves the path unchanged; otherwise the name is appended as a child |
| Storage.FileSystem.ExtractEntries | ViewModels/MainWindowViewModel.cs:189 | throws exactly when a directory it must create is an existing file (the folder, an ancestor of it, or an entry's parent), or an entry already exists as a file or directory, or is the parent of another entry; otherwise every entry is written below the folder, every earlier file is kept, and nothing else is written |
| Models.Materialize | ViewModels/MainWindowViewModel.cs:154 | a fresh model with the record's values over fresh products whose back-references are still unset |
| Models.LinkProducts | ViewModels/MainWindowViewModel.cs:156-157 | every product of the model points back at it |
| Acquisition.Prepare | ViewModels/MainWindowViewModel.cs:172-178 | on success the root exists and a stale `download.zip` is gone, with no other file changed; a failure is at one of these two calls; directories only ever gain the root's prefixes |
| Acquisition.Fetch | ViewModels/MainWindowViewModel.cs:181 | completes exactly when the download succeeds, the root exists and `download.zip` is not a directory; then `download.zip` holds the downloaded bytes and every other file and directory is unchanged; otherwise it throws at the download with the disk untouched |
| Acquisition.Unpack | ViewModels/MainWindowViewModel.cs:184-192 | on success the folder exists, `download.zip` is gone, and every entry of the archive sits in the folder; a folder that existed before holds nothing else; outside the folder the only file that changed is `download.zip` (the folder's ancestors may be created as directories) |
| Acquisition.ClearTarget | ViewModels/MainWindowViewModel.cs:186-187 | on success exactly the files below the folder are gone and every other file keeps its content |
| Acquisition.ExtractAndDrop | ViewModels/MainWindowViewModel.cs:189-192 | on success the archive could be read, every entry sits in the folder, no file other than an entry appeared, and only `download.zip` is gone |
| Acquisition.Annotated | ViewModels/MainWindowViewModel.cs:195-199 | definition: the parsed record with its repository name set from the selected repository, its release name, prerelease flag and publication time from the selected release, and its version `VersionString(Major, Minor, Build)` |
| Acquisition.Register | ViewModels/MainWindowViewModel.cs:194-201 | on success a repository was selected, the parser returned a model, and the record (the parsed one annotated from the selections) was written to the folder's `cache.json` |
| Acquisition.Acquire | ViewModels/MainWindowViewModel.cs:170-203 | definition: `Prepare`, then the selected release (none throws at the download), `Fetch`, the folder name (no dot throws), `Unpack` and `Register`, in that order; the first step that throws ends the run, with the disk as that step left it |
| Acquisition.AcquireWithoutRelease | ViewModels/MainWindowViewModel.cs:171-181 | with no release selected the run throws at the download; before that it may only have created the root and deleted a stale archive |
| Acquisition.AcquireNeedsDot | ViewModels/MainWindowViewModel.cs:183 | a release name without a dot never gets past the folder-name step |
| Acquisition.AcquireWithoutRepository | ViewModels/MainWindowViewModel.cs:195 | with no repository selected the run always throws |
| Acquisition.AcquiredRecord | ViewModels/MainWindowViewModel.cs:195-199 | a completed run's record has the repository name from the selected repository, and the release name, prerelease flag and publication time from the selected release; its version is `v{Major}.{Minor}.{Build}` and parses back to those numbers |
| Acquisition.AcquiredRecordIsCached | ViewModels/MainWindowViewModel.cs:191-202 | after a completed run `download.zip` is gone, the release folder exists, and loading that folder gives back exactly the record |
| Acquisition.AcquireOntoFileFails | ViewModels/MainWindowViewModel.cs:183-189 | a release whose folder name is an existing file of the storage root (`download.zip.zip`, or `cache.json.zip` while the catalog is cached) never completes |
| Acquisition.AcquireOfDotOnlyNameWipesStorage | ViewModels/MainWindowViewModel.cs:183-189 | for a release named `.<ext>` the storage root is cleared of every file and the run then throws at the extraction |
| Acquisition.CachedCatalog | ViewModels/MainWindowViewModel.cs:137-146 | definition: no catalog file gives an empty catalog, a catalog file gives its repositories, anything else does not deserialise and the constructor throws |
| Acquisition.ReadReleaseCache | ViewModels/MainWindowViewModel.cs:152-155 | definition: a folder without `cache.json` is skipped, one whose `cache.json` holds a release record gives that record, anything else does not deserialise |
| Acquisition.CachedReleases | ViewModels/MainWindowViewModel.cs:150-160 | definition: the records of the folders in order, skipping folders without `cache.json`, and failing at the first that does not deserialise |
| Acquisition.CachedReleasesAppend | ViewModels/MainWindowViewModel.cs:150-160 | loading two runs of folders one after the other is loading each and concatenating, failing if either fails |
| Acquisition.WithCacheFile | ViewModels/MainWindowViewModel.cs:152-153 | keeps only folders of the listing that hold a `cache.json` |
| Acquisition.CachedReleasesIgnoresUncached | ViewModels/MainWindowViewModel.cs:152-153 | folders without `cache.json` contribute nothing to the load |
| Acquisition.CachedReleasesInOrder | ViewModels/MainWindowViewModel.cs:150-160 | when every folder holds a record, the load lists the records one per folder, in folder order |
| Acquisition.LoadIsEnumerationOrder | ViewModels/MainWindowViewModel.cs:150-160 | without a corrupt cache file the load succeeds and lists, in enumeration order, the record of each folder that holds `cache.json` |
| Acquisition.CachedReleasesSingle | ViewModels/MainWindowViewModel.cs:152-154 | a folder whose `cache.json` holds a record loads as exactly that record |
| Acquisition.SaveCatalogFile | ViewModels/MainWindowViewModel.cs:222 | definition: the catalog is written to `Storage/cache.json`; a write that throws (an I/O fault, a missing root, a directory at that path) leaves the disk as it was |
| Acquisition.CatalogRoundTrip | ViewModels/MainWindowViewModel.cs:222 | the catalog `UpdateRepos` writes is the catalog the next start-up reads |
| Acquisition.CatalogNotSavedWithoutRoot | ViewModels/MainWindowViewModel.cs:222 | without the storage root the catalog write throws and the disk is unchanged |
| ViewModels.StartupReleases | ViewModels/MainWindowViewModel.cs:148 | definition: without a storage root no release folder is read; otherwise the releases are those `CachedReleases` loads |
| ViewModels.MainWindowViewModel.CanSelectRepo | ViewModels/MainWindowViewModel.cs:30-33 | definition: a non-empty catalog and neither flag up |
| ViewModels.MainWindowViewModel.CanSelectRelease | ViewModels/MainWindowViewModel.cs:57-60 | definition: a selected repository and neither flag up |
| ViewModels.MainWindowViewModel.CanDownloadRelease | ViewModels/MainWindowViewModel.cs:62-65 | definition: a selected release and neither flag up |
| ViewModels.MainWindowViewModel.CanUpdateRepos | ViewModels/MainWindowViewModel.cs:67-70 | definition: neither flag up |
| ViewModels.MainWindowViewModel.constructor | ViewModels/MainWindowViewModel.cs:27-118 | both collections empty, nothing selected, every flag false |
| ViewModels.MainWindowViewModel.SetSelectedRepository | ViewModels/MainWindowViewModel.cs:39-43 | sets the selected repository and changes no other field, so the selected release is kept |
| ViewModels.MainWindowViewModel.SetSelectedRelease | ViewModels/MainWindowViewModel.cs:50-54 | sets the selected release and changes no other field, so the selected repository is kept |
| ViewModels.MainWindowViewModel.SetIsDownloading | ViewModels/MainWindowViewModel.cs:76-82 | sets the download flag only |
| ViewModels.MainWindowViewModel.SetIsUpdating | ViewModels/MainWindowViewModel.cs:89-95 | sets the update flag only |
| ViewModels.MainWindowViewModel.SetCanStep2 | ViewModels/MainWindowViewModel.cs:102-105 | sets the second-step flag only |
| ViewModels.MainWindowViewModel.SetShowPrereleases | ViewModels/MainWindowViewModel.cs:112-115 | sets the prerelease filter only |
| ViewModels.MainWindowViewModel.SetSelectedProduct | ViewModels/MainWindowViewModel.cs:122-128 | null changes nothing; any product becomes the selection and unlocks the second step |
| ViewModels.MainWindowViewModel.Load | ViewModels/MainWindowViewModel.cs:135-162 | throws exactly when the catalog or a release cache does not deserialise; otherwise `Repos` is the cached catalog and `LocalReleases` holds one fresh model per cached folder, in order, each with its products linked back; nothing is selected and the flags are down |
| ViewModels.MainWindowViewModel.LoadReleases | ViewModels/MainWindowViewModel.cs:148-161 | one fresh, linked model per folder holding `cache.json`, in listing order; none when a cache file is corrupt |
| ViewModels.MainWindowViewModel.DownloadRelease | ViewModels/MainWindowViewModel.cs:164-210 | the flag is down on every path; the disk is as the pipeline leaves it; a failure at any step leaves `LocalReleases` unchanged; a completed run appends exactly one fresh, linked model holding the pipeline's record; back-references of the earlier models are kept |
| ViewModels.MainWindowViewModel.RunPipeline | ViewModels/MainWindowViewModel.cs:170-203 | the steps of the `try` in order leave the disk `Acquire` describes, and give a fresh, linked model holding its record exactly when `Acquire` completes |
| ViewModels.MainWindowViewModel.PrepareStorage | ViewModels/MainWindowViewModel.cs:172-178 | the disk calls of the preparation, one by one, give the outcome `Prepare` describes |
| ViewModels.MainWindowViewModel.FetchArchive | ViewModels/MainWindowViewModel.cs:181 | the download lands in `download.zip`, or the run throws at the download |
| ViewModels.MainWindowViewModel.UnpackArchive | ViewModels/MainWindowViewModel.cs:184-192 | the clear, extract and delete calls, one by one, give the outcome `Unpack` describes |
| ViewModels.MainWindowViewModel.RegisterContent | ViewModels/MainWindowViewModel.cs:194-201 | parses, annotates in place from the selected repository and release and persists; returns a fresh, linked model holding `Register`'s record exactly when `Register` completes, and the disk it leaves |
| ViewModels.MainWindowViewModel.UpdateRepos | ViewModels/MainWindowViewModel.cs:212-228 | the flag is down on every path; a failed fetch leaves `Repos` and the disk unchanged; otherwise `Repos` is exactly the fetched list, in order, and the catalog is written unless that write throws |
| ViewModels.MainWindowViewModel.DefaultExportName | ViewModels/MainWindowViewModel.cs:238-239 | defined exactly when a product is selected, has its model, and the model's release name contains a dot; then it is the prefix before the last dot |
| ViewModels.BusyClosesGate | ViewModels/MainWindowViewModel.cs:30-70 | while either flag is up, all four gate predicates are false |
| ViewModels.IdleOpensRefresh | ViewModels/MainWindowViewModel.cs:67-70 | with both flags down a refresh is available |
| ViewModels.GateNeedsSelection | ViewModels/MainWindowViewModel.cs:30-65 | an open download gate implies a selected release; an open release gate, a selected repository; an open repository gate, a non-empty catalog |

## Left out

- **Avalonia bindings and `NotifyPropertyChanged`:** presentation events only. The setters model the field assignments alone.
- **`async`/`await`:** each operation is one sequential transition. Interleaving and concurrency are not modelled.
- **The rest of `CreateKnxProd`** (the storage-provider lookup, the file picker, `SignHelper.SignXml`): a UI dialog and a foreign signing library. Only the default-name derivation is modelled, by `DefaultExportName`.
- **DefaultExportName:** in the source it runs only after the storage-provider lookup succeeded. The model leaves that precondition out.
- **`GitHubAccess`, `ZipFile` and `ReleaseContentHelper`:** network I/O, archive decompression and a parser whose code is not part of this model. They appear only as fallible oracles in `Services`.
- **The parser linking products.** The code of `ReleaseContentHelper.GetReleaseContent` is not part of this model. The back-reference is not serialised, and line 201 writes the model it returns without linking. So the parser is taken to link each product to its model, and `RegisterContent` does this with `LinkProducts`.
- **JSON serialisation:** a persisted file holds the value it serialised. A file that does not deserialise to that type is corrupt.
- **`GetStoragePath`:** depends on the working directory, so it is the fixed root `["Storage"]`.
- **Partial writes on failure:** a failing extraction is modelled as throwing before it writes anything. In the source it may leave some entries behind.
- **Partial recursive delete:** `Directory.Delete(targetFolder, true)` at line 186 is modelled as throwing before it removes anything. In the source it can throw part way through, after removing some of the tree.
- **Partial download:** a failing `DownloadRepo` at line 181 is modelled as leaving the disk untouched. In the source it may leave a partly written `download.zip`.
- **Text.IntToString:** renders a negative number with `-`, as the invariant culture does. The interpolation at line 199 uses the current culture, whose negative sign may differ.
- **Null returns:** a fetch or parse that returns null rather than throwing is not modelled separately. For the parse the outcome is the same (the next statement throws). For `UpdateRepos` a null list would clear `Repos` before the exception, and the model does not capture that.
- **Read errors in the constructor:** `File.ReadAllText` can throw there for reasons other than the content. Directory enumeration is the parameter `listing`.
- **Paths are segment sequences.** Directory separators, `..` or invalid characters inside a release name are not interpreted.
- **Path comparison is exact.** On Windows and macOS names compare case-insensitively, so there a release named `Download.zip.zip` collides with `download.zip` and the extraction throws; the model completes that run.
- **Directory entries of an archive:** the archive reader yields only file entries. The empty directories that directory entries stand for are not created, and a directory entry that carries data (which makes .NET throw) is not modelled.
- **Entries that leave the folder:** an entry with an empty, `.` or `..` segment is excluded by the type `EntryPath`. In the source an entry that resolves outside the folder makes `ExtractToDirectory` throw.
- **`ReleaseContent` (the unused top-level property) and console logging.** Neither affects the modelled state.
