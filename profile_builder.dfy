/**
 * `ClientInstaller.install`: derive the profile name, make sure the profile
 * directory exists, delete the legacy jar, persist the descriptor returned
 * by the metadata service, then download every listed library in order,
 * stopping at the first failure.
 *
 * InstallProfile is the procedure as a function of the disk before it; the
 * method Install is proved to follow it, and the lemmas state what the
 * procedure guarantees.
 */
module ProfileBuilder {
  import opened Outcomes
  import opened Disk
  import opened Progress
  import opened Naming
  import opened Layout

  /** One entry of the descriptor's `libraries` list: display name, path in the library store, download URL. */
  datatype Library = Library(name: string, path: Path, url: string)

  /** A metadata-service answer: the serialized descriptor and the libraries it lists. */
  datatype ProfileJson = ProfileJson(text: Bytes, libraries: seq<Library>)

  /** The state after the library loop, and the download that stopped it, if any. */
  datatype Downloads = Downloads(tree: Tree, events: seq<Event>, error: Option<InstallError>)

  /** `mcDir.resolve("libraries").resolve(library.getPath())`. */
  function LibraryFile(lib: Library): Path
  {
    LibrariesDir + lib.path
  }

  /** Every directory a download may create lies in the library store. */
  lemma LibraryDirectories(lib: Library)
    ensures forall q :: q in Prefixes(LibraryFile(lib)) ==> Under(q, LibrariesDir)
  {
    var file := LibraryFile(lib);
    forall q | q in Prefixes(file) ensures Under(q, LibrariesDir) {
      assert q[..1] == file[..1] == LibrariesDir;
    }
  }

  /**
   * `downloadSubstitutedMaven(url, file)`: `fetch` is what the server
   * answers for a URL (None when the transfer fails); a received artifact
   * is placed at the library's file.
   */
  function Download(t: Tree, lib: Library, fetch: string -> Option<Bytes>): Io
  {
    match fetch(lib.url)
    case None => Io(t, false)
    case Some(jar) => PlaceFile(t, LibraryFile(lib), jar)
  }

  /**
   * A download that succeeds received the artifact and stored exactly it at
   * the library's file; one that fails changed no file. It creates no
   * directory outside the library store and keeps a well-formed disk
   * well-formed.
   */
  lemma DownloadSpec(t: Tree, lib: Library, fetch: string -> Option<Bytes>)
    ensures Download(t, lib, fetch).ok ==>
              fetch(lib.url).Some? && Download(t, lib, fetch).tree.files == t.files[LibraryFile(lib) := fetch(lib.url).value]
    ensures !Download(t, lib, fetch).ok ==> Download(t, lib, fetch).tree.files == t.files
    ensures forall p :: !Under(p, LibrariesDir) ==> (p in Download(t, lib, fetch).tree.dirs <==> p in t.dirs)
    ensures t.Valid() ==> Download(t, lib, fetch).tree.Valid()
  {
    LibraryDirectories(lib);
    if fetch(lib.url).Some? {
      var r := PlaceFile(t, LibraryFile(lib), fetch(lib.url).value);
      PlaceFileSpec(t, LibraryFile(lib), fetch(lib.url).value);
      forall p | !Under(p, LibrariesDir) ensures p in r.tree.dirs <==> p in t.dirs {
        assert p !in Prefixes(LibraryFile(lib));
        assert p in r.tree.dirs - Prefixes(LibraryFile(lib)) <==> p in t.dirs - Prefixes(LibraryFile(lib));
      }
    }
  }

  /** The progress messages of the first `n` iterations of the library loop, one per library in list order. */
  function Announce(libs: seq<Library>, n: nat): seq<Event>
    requires n <= |libs|
  {
    if n == 0 then [] else Announce(libs, n - 1) + [DownloadingLibrary(libs[n - 1].name)]
  }

  /** Exactly one message per library, naming it, in list order, and never "done". */
  lemma {:induction false} AnnounceAt(libs: seq<Library>, n: nat)
    requires n <= |libs|
    ensures |Announce(libs, n)| == n
    ensures forall i :: 0 <= i < n ==> Announce(libs, n)[i] == DownloadingLibrary(libs[i].name)
    ensures Done !in Announce(libs, n)
  {
    if n > 0 {
      AnnounceAt(libs, n - 1);
    }
  }

  /**
   * The first `n` iterations of the `for` loop over the libraries: each
   * announces its library, then downloads it; the first failed download
   * ends the loop.
   */
  function DownloadLibraries(t: Tree, libs: seq<Library>, n: nat, fetch: string -> Option<Bytes>): Downloads
    requires n <= |libs|
  {
    if n == 0 then Downloads(t, [], None)
    else
      var before := DownloadLibraries(t, libs, n - 1, fetch);
      if before.error.Some? then before
      else
        var lib := libs[n - 1];
        var d := Download(before.tree, lib, fetch);
        Downloads(d.tree, before.events + [DownloadingLibrary(lib.name)],
                  if d.ok then None else Some(DownloadError(lib.name)))
  }

  /** The files the first `n` libraries leave in the library store, a later library overwriting an earlier one at the same path. */
  function LibraryWrites(libs: seq<Library>, n: nat, fetch: string -> Option<Bytes>): map<Path, Bytes>
    requires n <= |libs|
  {
    if n == 0 then map[]
    else
      var w := LibraryWrites(libs, n - 1, fetch);
      match fetch(libs[n - 1].url)
      case Some(jar) => w[LibraryFile(libs[n - 1]) := jar]
      case None => w
  }

  /** One iteration that completes announced its library and wrote its artifact, after iterations that completed too. */
  lemma CompletedIteration(t: Tree, libs: seq<Library>, n: nat, fetch: string -> Option<Bytes>)
    requires 0 < n <= |libs| && DownloadLibraries(t, libs, n, fetch).error.None?
    ensures DownloadLibraries(t, libs, n - 1, fetch).error.None?
    ensures fetch(libs[n - 1].url).Some?
    ensures DownloadLibraries(t, libs, n, fetch).events
            == DownloadLibraries(t, libs, n - 1, fetch).events + [DownloadingLibrary(libs[n - 1].name)]
    ensures DownloadLibraries(t, libs, n, fetch).tree.files
            == DownloadLibraries(t, libs, n - 1, fetch).tree.files[LibraryFile(libs[n - 1]) := fetch(libs[n - 1].url).value]
  {
    var before := DownloadLibraries(t, libs, n - 1, fetch);
    DownloadSpec(before.tree, libs[n - 1], fetch);
  }

  /** Iterations that complete announced every library once, in order, got every artifact, and wrote exactly LibraryWrites. */
  lemma DownloadsCompleted(t: Tree, libs: seq<Library>, n: nat, fetch: string -> Option<Bytes>)
    requires n <= |libs| && DownloadLibraries(t, libs, n, fetch).error.None?
    ensures DownloadLibraries(t, libs, n, fetch).events == Announce(libs, n)
    ensures DownloadLibraries(t, libs, n, fetch).tree.files == t.files + LibraryWrites(libs, n, fetch)
    ensures forall i :: 0 <= i < n ==> fetch(libs[i].url).Some?
  {
    CompletedAnnounced(t, libs, n, fetch);
    CompletedWrote(t, libs, n, fetch);
    CompletedFetched(t, libs, n, fetch);
  }

  lemma {:induction false} CompletedAnnounced(t: Tree, libs: seq<Library>, n: nat, fetch: string -> Option<Bytes>)
    requires n <= |libs| && DownloadLibraries(t, libs, n, fetch).error.None?
    ensures DownloadLibraries(t, libs, n, fetch).events == Announce(libs, n)
  {
    if n > 0 {
      CompletedIteration(t, libs, n, fetch);
      CompletedAnnounced(t, libs, n - 1, fetch);
    }
  }

  lemma {:induction false} CompletedWrote(t: Tree, libs: seq<Library>, n: nat, fetch: string -> Option<Bytes>)
    requires n <= |libs| && DownloadLibraries(t, libs, n, fetch).error.None?
    ensures DownloadLibraries(t, libs, n, fetch).tree.files == t.files + LibraryWrites(libs, n, fetch)
  {
    if n > 0 {
      CompletedIteration(t, libs, n, fetch);
      CompletedWrote(t, libs, n - 1, fetch);
      UpdateUnion(t.files, LibraryWrites(libs, n - 1, fetch), LibraryFile(libs[n - 1]), fetch(libs[n - 1].url).value);
    }
  }

  lemma {:induction false} CompletedFetched(t: Tree, libs: seq<Library>, n: nat, fetch: string -> Option<Bytes>)
    requires n <= |libs| && DownloadLibraries(t, libs, n, fetch).error.None?
    ensures forall i :: 0 <= i < n ==> fetch(libs[i].url).Some?
  {
    if n > 0 {
      CompletedIteration(t, libs, n, fetch);
      CompletedFetched(t, libs, n - 1, fetch);
      forall i | 0 <= i < n - 1 ensures fetch(libs[i].url).Some? {
      }
    }
  }

  /** The loop writes no file but the libraries' own. */
  lemma {:induction false} LibraryWritesWithin(libs: seq<Library>, n: nat, fetch: string -> Option<Bytes>, keys: set<Path>)
    requires n <= |libs|
    requires forall i :: 0 <= i < n ==> LibraryFile(libs[i]) in keys
    ensures LibraryWrites(libs, n, fetch).Keys <= keys
  {
    if n > 0 {
      LibraryWritesWithin(libs, n - 1, fetch, keys);
    }
  }

  /** When every artifact arrives, the loop writes a file for every listed library. */
  lemma {:induction false} LibraryWritesCover(libs: seq<Library>, n: nat, fetch: string -> Option<Bytes>)
    requires n <= |libs|
    requires forall i :: 0 <= i < n ==> fetch(libs[i].url).Some?
    ensures forall i :: 0 <= i < n ==> LibraryFile(libs[i]) in LibraryWrites(libs, n, fetch)
  {
    if n > 0 {
      LibraryWritesCover(libs, n - 1, fetch);
    }
  }

  /** A library's file holds what it fetched unless a later library shares its path: the last download wins. */
  lemma {:induction false} LibraryWritesLastWins(libs: seq<Library>, n: nat, fetch: string -> Option<Bytes>, i: nat)
    requires i < n <= |libs| && fetch(libs[i].url).Some?
    requires forall j :: i < j < n ==> LibraryFile(libs[j]) != LibraryFile(libs[i])
    ensures LibraryFile(libs[i]) in LibraryWrites(libs, n, fetch)
    ensures LibraryWrites(libs, n, fetch)[LibraryFile(libs[i])] == fetch(libs[i].url).value
  {
    if i < n - 1 {
      LibraryWritesLastWins(libs, n - 1, fetch, i);
    }
  }

  /** The loop never touches a file or a directory outside the library store. */
  lemma {:induction false} DownloadsStayInLibraries(t: Tree, libs: seq<Library>, n: nat, fetch: string -> Option<Bytes>)
    requires n <= |libs|
    ensures forall p :: !Under(p, LibrariesDir) ==>
              && SameFile(t, DownloadLibraries(t, libs, n, fetch).tree, p)
              && (p in DownloadLibraries(t, libs, n, fetch).tree.dirs <==> p in t.dirs)
  {
    if n > 0 {
      DownloadsStayInLibraries(t, libs, n - 1, fetch);
      DownloadSpec(DownloadLibraries(t, libs, n - 1, fetch).tree, libs[n - 1], fetch);
      assert Under(LibraryFile(libs[n - 1]), LibrariesDir);
    }
  }

  /** The loop keeps a well-formed disk well-formed. */
  lemma {:induction false} DownloadsKeepValid(t: Tree, libs: seq<Library>, n: nat, fetch: string -> Option<Bytes>)
    requires n <= |libs| && t.Valid()
    ensures DownloadLibraries(t, libs, n, fetch).tree.Valid()
  {
    if n > 0 {
      DownloadsKeepValid(t, libs, n - 1, fetch);
      DownloadSpec(DownloadLibraries(t, libs, n - 1, fetch).tree, libs[n - 1], fetch);
    }
  }

  /** Fail-fast: once library k fails, the libraries after it have no effect at all (no message, no download). */
  lemma {:induction false} DownloadStopsAtFailure(t: Tree, libs: seq<Library>, fetch: string -> Option<Bytes>, k: nat, n: nat)
    requires k < n <= |libs| && DownloadLibraries(t, libs, k + 1, fetch).error.Some?
    ensures DownloadLibraries(t, libs, n, fetch) == DownloadLibraries(t, libs, k + 1, fetch)
  {
    if n > k + 1 {
      DownloadStopsAtFailure(t, libs, fetch, k, n - 1);
    }
  }

  /**
   * The loop stopped at library k: k was announced and failed, nothing
   * after it was announced, and the files of the libraries before it are
   * on disk.
   */
  ghost predicate StoppedAt(d: Downloads, libs: seq<Library>, k: int)
  {
    && 0 <= k < |libs|
    && d.error == Some(DownloadError(libs[k].name))
    && d.events == Announce(libs, k + 1)
    && (forall j :: 0 <= j < k ==> LibraryFile(libs[j]) in d.tree.files)
  }

  /**
   * The loop started on `start` failed at library k, the first failing
   * one: it stopped there, every earlier library was fetched, and the disk
   * holds the starting files overlaid with the earlier libraries' bytes.
   */
  ghost predicate FailedAt(start: Tree, d: Downloads, libs: seq<Library>, k: int, fetch: string -> Option<Bytes>)
  {
    && StoppedAt(d, libs, k)
    && (forall j :: 0 <= j < k ==> fetch(libs[j].url).Some?)
    && d.tree.files == start.files + LibraryWrites(libs, k, fetch)
  }

  /** The first library whose download fails is where the loop stops. */
  lemma StoppedAtFirstFailure(t: Tree, libs: seq<Library>, k: nat, fetch: string -> Option<Bytes>)
    requires k < |libs| && DownloadLibraries(t, libs, k, fetch).error.None?
    requires DownloadLibraries(t, libs, k + 1, fetch).error.Some?
    ensures FailedAt(t, DownloadLibraries(t, libs, k + 1, fetch), libs, k, fetch)
  {
    var before := DownloadLibraries(t, libs, k, fetch);
    DownloadsCompleted(t, libs, k, fetch);
    LibraryWritesCover(libs, k, fetch);
    var d := Download(before.tree, libs[k], fetch);
    DownloadSpec(before.tree, libs[k], fetch);
    assert !d.ok && DownloadLibraries(t, libs, k + 1, fetch).tree.files == before.tree.files;
  }

  /** Iterations that fail stopped at a library k before which every download succeeded. */
  lemma {:induction false} DownloadFailed(t: Tree, libs: seq<Library>, n: nat, fetch: string -> Option<Bytes>)
    requires n <= |libs| && DownloadLibraries(t, libs, n, fetch).error.Some?
    ensures exists k :: 0 <= k < n && DownloadLibraries(t, libs, k, fetch).error.None?
                        && FailedAt(t, DownloadLibraries(t, libs, n, fetch), libs, k, fetch)
  {
    if DownloadLibraries(t, libs, n - 1, fetch).error.Some? {
      DownloadFailed(t, libs, n - 1, fetch);
      var k :| 0 <= k < n - 1 && DownloadLibraries(t, libs, k, fetch).error.None?
               && FailedAt(t, DownloadLibraries(t, libs, n - 1, fetch), libs, k, fetch);
      assert DownloadLibraries(t, libs, n, fetch) == DownloadLibraries(t, libs, n - 1, fetch);
    } else {
      StoppedAtFirstFailure(t, libs, n - 1, fetch);
    }
  }

  /** Overwriting existing files of a well-formed disk keeps it well-formed. */
  lemma OverwriteKeepsValid(t: Tree, w: map<Path, Bytes>)
    requires t.Valid() && w.Keys <= t.files.Keys
    ensures Tree(t.files + w, t.dirs).Valid()
  {
    assert (t.files + w).Keys == t.files.Keys;
  }

  /** Downloading a library whose file already exists replaces its contents and creates nothing. */
  lemma DownloadOverExisting(t: Tree, lib: Library, fetch: string -> Option<Bytes>)
    requires t.Valid() && LibraryFile(lib) in t.files && fetch(lib.url).Some?
    ensures Download(t, lib, fetch) == Io(Tree(t.files[LibraryFile(lib) := fetch(lib.url).value], t.dirs), true)
  {
    PlaceFileOverExisting(t, LibraryFile(lib), fetch(lib.url).value);
  }

  /**
   * Downloading again into a well-formed disk where every library's file
   * already exists announces every library, fails nowhere, creates no
   * directory, and only rewrites those files.
   */
  lemma {:induction false} RedownloadOverExisting(t: Tree, libs: seq<Library>, n: nat, fetch: string -> Option<Bytes>)
    requires t.Valid() && n <= |libs|
    requires forall i :: 0 <= i < n ==> fetch(libs[i].url).Some? && LibraryFile(libs[i]) in t.files
    ensures DownloadLibraries(t, libs, n, fetch)
         == Downloads(Tree(t.files + LibraryWrites(libs, n, fetch), t.dirs), Announce(libs, n), None)
    decreases n, 1
  {
    if n > 0 {
      RedownloadStep(t, libs, n, fetch);
    }
  }

  /** One iteration of RedownloadOverExisting: the last library's file is overwritten in place. */
  lemma {:induction false} RedownloadStep(t: Tree, libs: seq<Library>, n: nat, fetch: string -> Option<Bytes>)
    requires t.Valid() && 0 < n <= |libs|
    requires forall i :: 0 <= i < n ==> fetch(libs[i].url).Some? && LibraryFile(libs[i]) in t.files
    ensures DownloadLibraries(t, libs, n, fetch)
         == Downloads(Tree(t.files + LibraryWrites(libs, n, fetch), t.dirs), Announce(libs, n), None)
    decreases n, 0
  {
    RedownloadOverExisting(t, libs, n - 1, fetch);
    LibraryWritesWithin(libs, n - 1, fetch, t.files.Keys);
    DownloadAfterOverwrites(t, LibraryWrites(libs, n - 1, fetch), libs[n - 1], fetch);
  }

  /** On a well-formed disk whose earlier downloads only overwrote existing files, one more such download does too. */
  lemma DownloadAfterOverwrites(t: Tree, w: map<Path, Bytes>, lib: Library, fetch: string -> Option<Bytes>)
    requires t.Valid() && w.Keys <= t.files.Keys
    requires LibraryFile(lib) in t.files && fetch(lib.url).Some?
    ensures Download(Tree(t.files + w, t.dirs), lib, fetch)
         == Io(Tree(t.files + w[LibraryFile(lib) := fetch(lib.url).value], t.dirs), true)
  {
    OverwriteKeepsValid(t, w);
    DownloadOverExisting(Tree(t.files + w, t.dirs), lib, fetch);
    UpdateUnion(t.files, w, LibraryFile(lib), fetch(lib.url).value);
  }

  /**
   * `ClientInstaller.install` on the disk `t`, for the profile `name`, where
   * `answer` is what the metadata service returned for the profile query
   * (None when the request failed) and `fetch` is the artifact server.
   */
  function InstallProfile(t: Tree, name: string, answer: Option<ProfileJson>, fetch: string -> Option<Bytes>): Run
  {
    var made := EnsureDirectory(t, ProfileDir(name));
    if !made.ok then Run(made.tree, [], Failure(DirectoryCreationError))
    else
      var deleted := made.tree.DeleteIfExists(ProfileJarPath(name));
      if !deleted.ok then Run(deleted.tree, [], Failure(FileWriteError))
      else
        match answer
        case None => Run(deleted.tree, [], Failure(ServiceRequestError))
        case Some(json) =>
          var written := deleted.tree.Write(ProfileJsonPath(name), json.text);
          if !written.ok then Run(written.tree, [], Failure(FileWriteError))
          else
            var downloads := DownloadLibraries(written.tree, json.libraries, |json.libraries|, fetch);
            if downloads.error.Some? then Run(downloads.tree, downloads.events, Failure(downloads.error.value))
            else Run(downloads.tree, downloads.events + [Done], Success(name))
  }

  /**
   * The steps of `install` before the library loop, for a service that
   * answered `json`: afterwards the profile directory exists, the jar is
   * gone and the descriptor holds `json`'s text; no other file changes.
   */
  function DescriptorWritten(t: Tree, name: string, json: ProfileJson): (r: Io)
    ensures r.ok ==> ProfileDir(name) in r.tree.dirs
    ensures r.ok ==> r.tree.files == (t.files - {ProfileJarPath(name)})[ProfileJsonPath(name) := json.text]
    ensures t.Valid() ==> r.tree.Valid()
    ensures t.Valid() && r.ok ==> ProfileJarPath(name) !in r.tree.dirs
  {
    var made := EnsureDirectory(t, ProfileDir(name));
    var deleted := made.tree.DeleteIfExists(ProfileJarPath(name));
    var written := deleted.tree.Write(ProfileJsonPath(name), json.text);
    ProfileFiles(name);
    assert deleted.tree.files == t.files - {ProfileJarPath(name)};
    assert written.ok ==> deleted.tree.IsDirectory(ProfileDir(name)) && ProfileDir(name) != [];
    assert t.Valid() ==> made.tree.Valid() && deleted.tree.Valid();
    Io(written.tree, made.ok && deleted.ok && written.ok)
  }

  /** A run that reaches the library loop is that loop, started on the disk with the descriptor written. */
  lemma InstallReachesLoop(t: Tree, name: string, json: ProfileJson, fetch: string -> Option<Bytes>)
    requires DescriptorWritten(t, name, json).ok
    ensures var d := DownloadLibraries(DescriptorWritten(t, name, json).tree, json.libraries, |json.libraries|, fetch);
            InstallProfile(t, name, Some(json), fetch)
            == (if d.error.Some? then Run(d.tree, d.events, Failure(d.error.value))
                else Run(d.tree, d.events + [Done], Success(name)))
  {
  }

  /** A run that succeeds, or fails on a library, got a descriptor from the service and wrote it. */
  lemma InstallPassedDescriptor(t: Tree, name: string, answer: Option<ProfileJson>, fetch: string -> Option<Bytes>)
    requires InstallProfile(t, name, answer, fetch).result.Success?
          || InstallProfile(t, name, answer, fetch).result.error.DownloadError?
    ensures answer.Some? && DescriptorWritten(t, name, answer.value).ok
  {
  }

  /**
   * Once past the descriptor step (the install succeeds, or fails in the
   * library loop), the profile directory exists, `<name>.json` holds
   * exactly the serialized descriptor, `<name>.jar` is gone, and every
   * other file outside the library store is as it was.
   */
  lemma InstallWritesDescriptor(t: Tree, name: string, answer: Option<ProfileJson>, fetch: string -> Option<Bytes>, run: Run)
    requires run == InstallProfile(t, name, answer, fetch)
    requires run.result.Success? || run.result.error.DownloadError?
    ensures answer.Some?
    ensures ProfileDir(name) in run.tree.dirs
    ensures ProfileJsonPath(name) in run.tree.files && run.tree.files[ProfileJsonPath(name)] == answer.value.text
    ensures ProfileJarPath(name) !in run.tree.files
    ensures forall p :: !Under(p, LibrariesDir) && p != ProfileJsonPath(name) && p != ProfileJarPath(name)
              ==> SameFile(t, run.tree, p)
  {
    InstallPassedDescriptor(t, name, answer, fetch);
    var json := answer.value;
    var w := DescriptorWritten(t, name, json);
    InstallReachesLoop(t, name, json, fetch);
    var d := DownloadLibraries(w.tree, json.libraries, |json.libraries|, fetch);
    assert run.tree == d.tree;
    ProfileFiles(name);
    DownloadsStayInLibraries(w.tree, json.libraries, |json.libraries|, fetch);
    assert SameFile(w.tree, d.tree, ProfileJsonPath(name)) && SameFile(w.tree, d.tree, ProfileJarPath(name));
    forall p | !Under(p, LibrariesDir) && p != ProfileJsonPath(name) && p != ProfileJarPath(name)
      ensures SameFile(t, run.tree, p)
    {
      assert SameFile(w.tree, d.tree, p);
    }
  }

  /**
   * A successful install returns the profile name, announced every library
   * once in list order followed by one "done", and left a file at every
   * listed library path.
   */
  lemma InstallSucceeds(t: Tree, name: string, answer: Option<ProfileJson>, fetch: string -> Option<Bytes>, run: Run)
    requires run == InstallProfile(t, name, answer, fetch)
    requires run.result.Success?
    ensures run.result.value == name
    ensures answer.Some? && run.events == Announce(answer.value.libraries, |answer.value.libraries|) + [Done]
    ensures forall i :: 0 <= i < |answer.value.libraries| ==> LibraryFile(answer.value.libraries[i]) in run.tree.files
  {
    InstallPassedDescriptor(t, name, answer, fetch);
    var json := answer.value;
    var w := DescriptorWritten(t, name, json);
    InstallReachesLoop(t, name, json, fetch);
    DownloadsCompleted(w.tree, json.libraries, |json.libraries|, fetch);
    LibraryWritesCover(json.libraries, |json.libraries|, fetch);
  }

  /**
   * A failed install never reports "done". It fails before any message
   * unless a library download failed; then it stopped at the first
   * failing library, every earlier one was fetched, and the disk holds the
   * descriptor step's files overlaid with the earlier libraries' bytes.
   */
  lemma InstallFailsFast(t: Tree, name: string, answer: Option<ProfileJson>, fetch: string -> Option<Bytes>, run: Run)
    requires run == InstallProfile(t, name, answer, fetch)
    requires run.result.Failure?
    ensures Done !in run.events
    ensures !run.result.error.DownloadError? ==> run.events == []
    ensures run.result.error.DownloadError? ==>
              answer.Some? && exists k :: FailedAt(DescriptorWritten(t, name, answer.value).tree,
                                                    Downloads(run.tree, run.events, Some(run.result.error)),
                                                    answer.value.libraries, k, fetch)
  {
    if answer.Some? && DescriptorWritten(t, name, answer.value).ok {
      var json := answer.value;
      var w := DescriptorWritten(t, name, json);
      InstallReachesLoop(t, name, json, fetch);
      var d := DownloadLibraries(w.tree, json.libraries, |json.libraries|, fetch);
      DownloadFailed(w.tree, json.libraries, |json.libraries|, fetch);
      LoopNeverDone(w.tree, json.libraries, |json.libraries|, fetch);
      assert Downloads(run.tree, run.events, Some(run.result.error)) == d;
    }
  }

  /** The loop only ever announces libraries, never completion. */
  lemma {:induction false} LoopNeverDone(t: Tree, libs: seq<Library>, n: nat, fetch: string -> Option<Bytes>)
    requires n <= |libs|
    ensures Done !in DownloadLibraries(t, libs, n, fetch).events
  {
    if n > 0 {
      LoopNeverDone(t, libs, n - 1, fetch);
    }
  }


  /**
   * A failing metadata request writes no descriptor: the install fails with
   * no progress message, and every file but the legacy jar is as it was.
   */
  lemma ServiceFailureWritesNoDescriptor(t: Tree, name: string, fetch: string -> Option<Bytes>)
    ensures InstallProfile(t, name, None, fetch).result.Failure?
    ensures var made := EnsureDirectory(t, ProfileDir(name));
            made.ok && made.tree.DeleteIfExists(ProfileJarPath(name)).ok ==>
              InstallProfile(t, name, None, fetch).result == Failure(ServiceRequestError)
    ensures InstallProfile(t, name, None, fetch).events == []
    ensures InstallProfile(t, name, None, fetch).tree.files - {ProfileJarPath(name)} == t.files - {ProfileJarPath(name)}
  {
  }

  /**
   * On a well-formed disk where the profile directory exists, the jar is
   * absent and the descriptor already holds `json`, the steps before the
   * library loop succeed and change nothing.
   */
  lemma DescriptorRewriteUnchanged(t: Tree, name: string, json: ProfileJson)
    requires t.Valid()
    requires ProfileDir(name) in t.dirs
    requires ProfileJarPath(name) !in t.files && ProfileJarPath(name) !in t.dirs
    requires ProfileJsonPath(name) in t.files && t.files[ProfileJsonPath(name)] == json.text
    ensures DescriptorWritten(t, name, json) == Io(t, true)
  {
    var dir, jar, jsonFile := ProfileDir(name), ProfileJarPath(name), ProfileJsonPath(name);
    ProfileFiles(name);
    assert EnsureDirectory(t, dir) == Io(t, true);
    NoFileAboveEntry(t, dir);
    assert !t.FileAbove(jar);
    assert t.DeleteIfExists(jar) == Io(t, true);
    assert t.files[jsonFile := json.text] == t.files;
    assert t.Write(jsonFile, json.text) == Io(t, true);
  }

  /**
   * Installing again with the same inputs and the same remote answers,
   * after a successful install on a well-formed disk, succeeds again with
   * the same messages and leaves the disk exactly as it was: no directory
   * is duplicated and the descriptor is overwritten, not appended to.
   */
  lemma InstallIdempotent(t: Tree, name: string, answer: Option<ProfileJson>, fetch: string -> Option<Bytes>, run: Run)
    requires t.Valid()
    requires run == InstallProfile(t, name, answer, fetch)
    requires run.result.Success?
    ensures InstallProfile(run.tree, name, answer, fetch) == run
  {
    InstallPassedDescriptor(t, name, answer, fetch);
    var json := answer.value;
    var w := DescriptorWritten(t, name, json);
    InstallReachesLoop(t, name, json, fetch);
    var d := DownloadLibraries(w.tree, json.libraries, |json.libraries|, fetch);
    assert d.error.None? && run == Run(d.tree, d.events + [Done], Success(name));
    InstallWritesDescriptor(t, name, answer, fetch, run);
    DownloadsStayInLibraries(w.tree, json.libraries, |json.libraries|, fetch);
    DownloadsCompleted(w.tree, json.libraries, |json.libraries|, fetch);
    ProfileFiles(name);
    DownloadsKeepValid(w.tree, json.libraries, |json.libraries|, fetch);
    var big := run.tree;
    assert big.Valid() && ProfileJarPath(name) !in big.dirs;
    DescriptorRewriteUnchanged(big, name, json);
    InstallReachesLoop(big, name, json, fetch);
    LibraryWritesCover(json.libraries, |json.libraries|, fetch);
    RedownloadOverExisting(big, json.libraries, |json.libraries|, fetch);
    var lw := LibraryWrites(json.libraries, |json.libraries|, fetch);
    assert big.files == w.tree.files + lw;
    UnionAbsorbs(w.tree.files, lw);
  }

  /** `downloadSubstitutedMaven` acting on the disk. */
  method DownloadSubstitutedMaven(mc: FileSystem, lib: Library, fetch: string -> Option<Bytes>) returns (ok: bool)
    modifies mc
    ensures Io(mc.State(), ok) == Download(old(mc.State()), lib, fetch)
  {
    match fetch(lib.url)
    case None =>
      ok := false;
    case Some(jar) =>
      ok := Place(mc, LibraryFile(lib), jar);
  }

  /** One more iteration of the library loop, after iterations that all succeeded, is the announcement plus the download. */
  lemma LoopIteration(start: Tree, libs: seq<Library>, i: nat, fetch: string -> Option<Bytes>, tree: Tree, ok: bool)
    requires i < |libs| && DownloadLibraries(start, libs, i, fetch).error.None?
    requires Io(tree, ok) == Download(DownloadLibraries(start, libs, i, fetch).tree, libs[i], fetch)
    ensures DownloadLibraries(start, libs, i + 1, fetch).events
            == DownloadLibraries(start, libs, i, fetch).events + [DownloadingLibrary(libs[i].name)]
    ensures DownloadLibraries(start, libs, i + 1, fetch).tree == tree
    ensures DownloadLibraries(start, libs, i + 1, fetch).error.None? <==> ok
  {
  }

  /**
   * The `for` loop of `install`: announce each library, download it, and
   * throw at the first download that fails.
   */
  method DownloadAll(mc: FileSystem, progress: InstallerProgress, libraries: seq<Library>,
                     fetch: string -> Option<Bytes>) returns (error: Option<InstallError>)
    modifies mc, progress
    ensures var d := DownloadLibraries(old(mc.State()), libraries, |libraries|, fetch);
            mc.State() == d.tree && progress.messages == old(progress.messages) + d.events && error == d.error
  {
    ghost var start := mc.State();
    ghost var messages := progress.messages;
    for i := 0 to |libraries|
      invariant DownloadLibraries(start, libraries, i, fetch).error.None?
      invariant mc.State() == DownloadLibraries(start, libraries, i, fetch).tree
      invariant progress.messages == messages + DownloadLibraries(start, libraries, i, fetch).events
    {
      ghost var before := DownloadLibraries(start, libraries, i, fetch);
      var library := libraries[i];
      progress.UpdateProgress(DownloadingLibrary(library.name));
      var ok := DownloadSubstitutedMaven(mc, library, fetch);
      LoopIteration(start, libraries, i, fetch, mc.State(), ok);
      AppendAssoc(messages, before.events, DownloadingLibrary(library.name));
      if !ok {
        DownloadStopsAtFailure(start, libraries, fetch, i, |libraries|);
        return Some(DownloadError(library.name));
      }
    }
    return None;
  }

  /** `ClientInstaller.install`: returns the profile name, or the error the program throws. */
  method Install(mc: FileSystem, progress: InstallerProgress, loaderName: string, gameVersion: string,
                 loaderVersion: string, service: string -> Option<ProfileJson>, fetch: string -> Option<Bytes>)
    returns (r: Result<string, InstallError>)
    modifies mc, progress
    ensures var run := InstallProfile(old(mc.State()), ProfileName(loaderName, loaderVersion, gameVersion),
                                      service(MetaQueryPath(gameVersion, loaderVersion)), fetch);
            mc.State() == run.tree && progress.messages == old(progress.messages) + run.events && r == run.result
  {
    var profileName := ProfileName(loaderName, loaderVersion, gameVersion);
    var profileDir := ProfileDir(profileName);
    ghost var t0 := mc.State();
    ghost var made := EnsureDirectory(t0, profileDir);
    if !mc.State().Exists(profileDir) {
      var ok := mc.CreateDirectories(profileDir);
      if !ok {
        return Failure(DirectoryCreationError);
      }
    }
    assert made.ok && mc.State() == made.tree;
    ghost var deleted := made.tree.DeleteIfExists(ProfileJarPath(profileName));
    var ok := mc.DeleteIfExists(ProfileJarPath(profileName));
    if !ok {
      return Failure(FileWriteError);
    }
    var answer := service(MetaQueryPath(gameVersion, loaderVersion));
    if answer.None? {
      return Failure(ServiceRequestError);
    }
    ok := mc.Write(ProfileJsonPath(profileName), answer.value.text);
    if !ok {
      return Failure(FileWriteError);
    }
    assert DescriptorWritten(t0, profileName, answer.value) == Io(mc.State(), true);
    InstallReachesLoop(t0, profileName, answer.value, fetch);
    var error := DownloadAll(mc, progress, answer.value.libraries, fetch);
    if error.Some? {
      return Failure(error.value);
    }
    progress.UpdateProgress(Done);
    return Success(profileName);
  }
}
