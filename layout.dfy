/**
 * The on-disk layout both install procedures share, and the small
 * filesystem steps they repeat: making sure a directory exists, and
 * placing one file (creating its parent directories, then replacing it).
 */
module Layout {
  import opened Outcomes
  import opened Disk
  import opened Progress

  /** The ways an install fails; every one of them is an IOException in the program. */
  datatype InstallError =
    | DirectoryCreationError
    | FileWriteError
    | ServiceRequestError
    | DownloadError(library: string)
    | ArchiveReadError

  /** A whole install: the disk afterwards, the progress messages, and the returned name or the thrown error. */
  datatype Run = Run(tree: Tree, events: seq<Event>, result: Result<string, InstallError>)

  const VersionsDir: Path := ["versions"]
  const LibrariesDir: Path := ["libraries"]

  /** `mcDir.resolve("versions").resolve(name)`; resolving the empty name yields `versions` itself. */
  function ProfileDir(name: string): Path
  {
    if name == "" then VersionsDir else VersionsDir + [name]
  }

  /** `<profileDir>/<name>.json`: the persisted profile descriptor. */
  function ProfileJsonPath(name: string): Path
  {
    ProfileDir(name) + [name + ".json"]
  }

  /** `<profileDir>/<name>.jar`: the legacy jar each remote install deletes. */
  function ProfileJarPath(name: string): Path
  {
    ProfileDir(name) + [name + ".jar"]
  }

  /** The descriptor and the jar are two different files inside the profile directory, both outside the library store. */
  lemma ProfileFiles(name: string)
    ensures ProfileJsonPath(name) != ProfileJarPath(name)
    ensures Parent(ProfileJsonPath(name)) == ProfileDir(name) == Parent(ProfileJarPath(name))
    ensures !Under(ProfileJsonPath(name), LibrariesDir) && !Under(ProfileJarPath(name), LibrariesDir)
    ensures !Under(ProfileDir(name), LibrariesDir)
  {
    var dir := ProfileDir(name);
    var json, jar := name + ".json", name + ".jar";
    assert json[|name| + 2] == 's' && jar[|name| + 2] == 'a';
    assert (dir + [json])[|dir|] == json && (dir + [jar])[|dir|] == jar;
    assert dir[0] == "versions" && "versions"[0] != "libraries"[0];
    assert (dir + [json])[0] == dir[0] == (dir + [jar])[0];
  }


  /**
   * `if (!Files.exists(dir)) Files.createDirectories(dir)`: an existing
   * entry is left alone, otherwise the directory is created with its
   * parents. Files are never touched.
   */
  function EnsureDirectory(t: Tree, dir: Path): (r: Io)
    ensures r.tree.files == t.files && t.dirs <= r.tree.dirs
    ensures r.ok ==> r.tree.Exists(dir)
    ensures r.tree.dirs <= t.dirs + Prefixes(dir)
    ensures t.Exists(dir) ==> r == Io(t, true)
    ensures !t.Exists(dir) ==> (r.ok <==> !t.FileAbove(dir))
    ensures r.ok && !t.Exists(dir) ==> r.tree.dirs == t.dirs + Prefixes(dir)
    ensures t.Valid() ==> r.tree.Valid()
  {
    if t.Exists(dir) then Io(t, true)
    else
      CreateDirectoriesSpec(t, dir);
      t.CreateDirectories(dir)
  }

  /** Ensuring a directory a second time changes nothing and cannot fail. */
  lemma EnsureDirectoryIdempotent(t: Tree, dir: Path)
    ensures var r := EnsureDirectory(t, dir);
            r.ok ==> EnsureDirectory(r.tree, dir) == Io(r.tree, true)
  {
  }

  /**
   * Creates the parent directories of `dest`, then copies `data` over it
   * (REPLACE_EXISTING). Only `dest` can change among the files, and only
   * prefixes of `dest` among the directories.
   */
  function PlaceFile(t: Tree, dest: Path, data: Bytes): Io
  {
    var made := t.CreateDirectories(Parent(dest));
    if !made.ok then made else made.tree.Copy(dest, data)
  }

  /** PlaceFile on the live disk: `Files.createDirectories(dest.getParent())`, then `Files.copy(…, dest, REPLACE_EXISTING)`. */
  method Place(mc: FileSystem, dest: Path, data: Bytes) returns (ok: bool)
    modifies mc
    ensures Io(mc.State(), ok) == PlaceFile(old(mc.State()), dest, data)
  {
    ok := mc.CreateDirectories(Parent(dest));
    if ok {
      ok := mc.Copy(dest, data);
    }
  }

  /**
   * Placing a file changes no file but `dest`, which holds `data` when it
   * succeeds, and no directory but those above `dest`; a well-formed tree
   * stays well-formed.
   */
  lemma PlaceFileSpec(t: Tree, dest: Path, data: Bytes)
    ensures PlaceFile(t, dest, data).ok ==> PlaceFile(t, dest, data).tree.files == t.files[dest := data]
    ensures !PlaceFile(t, dest, data).ok ==> PlaceFile(t, dest, data).tree.files == t.files
    ensures PlaceFile(t, dest, data).tree.dirs - Prefixes(dest) == t.dirs - Prefixes(dest)
    ensures t.Valid() ==> PlaceFile(t, dest, data).tree.Valid()
  {
    var made := t.CreateDirectories(Parent(dest));
    CreateDirectoriesSpec(t, Parent(dest));
    CopySpec(made.tree, dest, data);
    PrefixesOfParent(dest);
  }

  /** Placing a file over an existing regular file of a well-formed tree always succeeds and changes only its contents. */
  lemma PlaceFileOverExisting(t: Tree, dest: Path, data: Bytes)
    requires t.Valid() && dest in t.files
    ensures PlaceFile(t, dest, data) == Io(Tree(t.files[dest := data], t.dirs), true)
  {
    NoFileAboveEntry(t, dest);
    PlaceFileSucceeds(t, dest, data);
    assert Prefixes(Parent(dest)) <= t.dirs by {
      forall q | q in Prefixes(Parent(dest)) ensures q in t.dirs {
        assert q == dest[..|q|];
      }
    }
    assert t.dirs + Prefixes(Parent(dest)) == t.dirs;
  }

  /**
   * Placing a file succeeds when no regular file stands on the way to
   * `dest` and `dest` is not a directory; it then adds exactly the file and
   * the directories above it.
   */
  lemma PlaceFileSucceeds(t: Tree, dest: Path, data: Bytes)
    requires t.Valid() && dest != []
    requires !t.FileAbove(dest) && dest !in t.dirs
    ensures PlaceFile(t, dest, data) == Io(Tree(t.files[dest := data], t.dirs + Prefixes(Parent(dest))), true)
  {
    var parent := Parent(dest);
    assert !t.FileAbove(parent) && parent !in t.files;
    var made := t.CreateDirectories(parent);
    CreateDirectoriesSpec(t, parent);
    CopySpec(made.tree, dest, data);
    assert made.ok;
    assert dest !in Prefixes(parent);
    assert made.tree.IsDirectory(Parent(dest));
  }
}
