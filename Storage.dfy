/**
 * The disk as the view model sees it: a set of directory paths and a map
 * from file paths to contents. A path is a sequence of segments; the
 * operations are the `System.IO` calls the view model makes.
 */
module Storage {
  import opened Wrappers
  import opened Models

  type Path = seq<string>
  type Bytes = seq<bv8>

  /**
   * The path of a file entry of an archive, relative to the extraction
   * folder: at least one segment, and no segment that is empty, `.` or `..`.
   */
  type EntryPath = e: Path | |e| > 0 && forall i :: 0 <= i < |e| ==> e[i] != "" && e[i] != "." && e[i] != ".."
    witness ["data"]

  /**
   * What a file holds. JSON written by the view model keeps the value it
   * serialised; anything else (the downloaded archive, extracted payload) is bytes.
   */
  datatype FileContent =
    | Blob(bytes: Bytes)
    | CatalogJson(repos: seq<Repository>)
    | ReleaseJson(record: ReleaseRecord)

  /** `q` is `p` or lies somewhere below it. */
  predicate IsUnder(q: Path, p: Path) {
    |p| <= |q| && q[..|p|] == p
  }

  /** `d` is an immediate sub-directory path of `dir`. */
  predicate IsChildOf(d: Path, dir: Path) {
    |d| == |dir| + 1 && d[..|dir|] == dir
  }

  /** `Path.Combine(p, name)`: an empty `name` leaves `p` as it is. */
  function Combine(p: Path, name: string): (r: Path)
    ensures name == "" ==> r == p
    ensures name != "" ==> IsChildOf(r, p) && r[|p|] == name
  {
    if name == "" then p else p + [name]
  }

  datatype FileSystem = FileSystem(dirs: set<Path>, files: map<Path, FileContent>) {

    /** `Directory.CreateDirectory(p)`: `p` and all its ancestors exist afterwards. */
    function CreateDirectory(p: Path): (r: FileSystem)
      ensures r.files == files
      ensures r.dirs == dirs + set k | 1 <= k <= |p| :: p[..k]
    {
      FileSystem(dirs + set k | 1 <= k <= |p| :: p[..k], files)
    }

    /**
     * `Directory.CreateDirectory(p)` where it can throw: an `IOException` when
     * `p` or one of its ancestors is an existing file.
     */
    function TryCreateDirectory(p: Path): (r: Option<FileSystem>)
      ensures r.Some? <==> forall k :: 1 <= k <= |p| ==> p[..k] !in files
      ensures r.Some? ==> r.value == CreateDirectory(p)
    {
      if exists k :: 1 <= k <= |p| && p[..k] in files then None else Some(CreateDirectory(p))
    }

    /** `File.Delete(p)`. */
    function DeleteFile(p: Path): (r: FileSystem)
      ensures r.dirs == dirs && r.files == files - {p}
    {
      FileSystem(dirs, files - {p})
    }

    /** `Directory.Delete(p, true)`: `p` and everything below it disappear. */
    function DeleteTree(p: Path): (r: FileSystem)
      ensures forall q :: q in r.dirs <==> q in dirs && !IsUnder(q, p)
      ensures forall q :: q in r.files <==> q in files && !IsUnder(q, p)
      ensures forall q :: q in r.files ==> r.files[q] == files[q]
    {
      FileSystem(set q | q in dirs && !IsUnder(q, p), map q | q in files && !IsUnder(q, p) :: files[q])
    }

    /** The content a download or an extraction stores at `p`, replacing any earlier file. */
    function Put(p: Path, c: FileContent): (r: FileSystem)
      ensures r.dirs == dirs && r.files == files[p := c]
    {
      FileSystem(dirs, files[p := c])
    }

    /**
     * `File.WriteAllText(p, …)`: fails when the parent directory is missing
     * (`DirectoryNotFoundException`) or `p` is a directory.
     */
    function WriteFile(p: Path, c: FileContent): (r: Option<FileSystem>)
      ensures r.Some? <==> |p| >= 1 && (|p| == 1 || p[..|p| - 1] in dirs) && p !in dirs
      ensures r.Some? ==> r.value == Put(p, c)
    {
      if |p| >= 1 && (|p| == 1 || p[..|p| - 1] in dirs) && p !in dirs then Some(Put(p, c)) else None
    }

    /**
     * `ZipFile.ExtractToDirectory(archive, folder)` for the file entries of
     * the archive: the folder and the parent directories of every entry are
     * created and every entry is written as a new file. The call throws when
     * a directory it has to create is an existing file (the folder, one of its
     * ancestors, or the parent of an entry), and when an entry's file already
     * exists, is a directory, or is the parent of another entry.
     */
    function ExtractEntries(folder: Path, entries: map<EntryPath, Bytes>): (r: Option<FileSystem>)
      ensures r.Some? <==>
        (forall k :: 1 <= k <= |folder| ==> folder[..k] !in files) &&
        (forall e, k :: e in entries && 0 < k < |e| ==> folder + e[..k] !in files) &&
        (forall e :: e in entries ==> folder + e !in files && folder + e !in dirs) &&
        (forall e, e', k :: e in entries && e' in entries && 0 < k < |e'| ==> e'[..k] != e)
      ensures r.Some? ==> folder in r.value.dirs && dirs <= r.value.dirs
      ensures r.Some? ==> forall e :: e in entries ==> folder + e in r.value.files && r.value.files[folder + e] == Blob(entries[e])
      ensures r.Some? ==> forall q :: q in files ==> q in r.value.files && r.value.files[q] == files[q]
      ensures r.Some? ==> forall q :: q in r.value.files ==> q in files || exists e :: e in entries && q == folder + e
    {
      if (exists k :: 1 <= k <= |folder| && folder[..k] in files) ||
         (exists e, k :: e in entries && 0 < k < |e| && folder + e[..k] in files) ||
         (exists e :: e in entries && (folder + e in files || folder + e in dirs)) ||
         (exists e, e', k :: e in entries && e' in entries && 0 < k < |e'| && e'[..k] == e)
      then None
      else
        var created := CreateDirectory(folder);
        var parents := set e, k | e in entries && 0 < k < |e| :: folder + e[..k];
        var written := set e | e in entries :: folder + e;
        assert forall e :: e in entries ==> folder + e in written && (folder + e)[|folder|..] == e;
        Some(FileSystem(
          created.dirs + {folder} + parents,
          map q | q in files.Keys + written :: if q in written then Blob(entries[q[|folder|..]]) else files[q]))
    }
  }
}
