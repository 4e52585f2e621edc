/**
 * `ClientInstaller.installFromZip`: name the profile after the bundle file
 * without its extension, make sure the profile directory exists, extract
 * every zip entry into a fresh temporary directory, then walk that
 * directory and copy each regular file to the same relative place in the
 * profile directory. Extraction errors end the install; a copy that fails
 * during the walk is only logged.
 *
 * InstallFromZipRun is the procedure as a function of the disk before it,
 * the archive, and the order in which the walk visits the staged files;
 * the method InstallFromZip is proved to follow it.
 */
module BundleInstaller {
  import opened Outcomes
  import opened Disk
  import opened Progress
  import opened Naming
  import opened Layout

  /** What `ZipInputStream.getNextEntry` yields: a file and its bytes, a directory, or a stream it cannot read on. */
  datatype ZipItem = FileEntry(name: Path, data: Bytes) | DirectoryEntry(name: Path) | Unreadable

  /** The staging directory after some entries, and the exception that ended the extraction, if any. */
  datatype Extraction = Extraction(staging: Tree, error: Option<InstallError>)

  /** The walk after some files: the disk, and the files whose copy threw (the program prints those and goes on). */
  datatype Merge = Merge(tree: Tree, failed: set<Path>)

  /**
   * One pass of the extraction loop: a file entry creates its parent
   * directories and replaces the file with the entry's bytes; a directory
   * entry creates the directory with its parents.
   */
  function ExtractEntry(t: Tree, item: ZipItem): Extraction
  {
    match item
    case FileEntry(name, data) =>
      var r := PlaceFile(t, name, data);
      Extraction(r.tree, if r.ok then None else Some(FileWriteError))
    case DirectoryEntry(name) =>
      var r := t.CreateDirectories(name);
      Extraction(r.tree, if r.ok then None else Some(DirectoryCreationError))
    case Unreadable =>
      Extraction(t, Some(ArchiveReadError))
  }

  /** An entry changes no file but its own name, and only when it is a file entry that succeeds; a directory entry adds its directories. */
  lemma ExtractEntrySpec(t: Tree, item: ZipItem)
    ensures ExtractEntry(t, item).staging.files
            == if ExtractEntry(t, item).error.None? && item.FileEntry? then t.files[item.name := item.data] else t.files
    ensures item.DirectoryEntry? && ExtractEntry(t, item).error.None? ==>
              ExtractEntry(t, item).staging.dirs == t.dirs + Prefixes(item.name)
    ensures t.Valid() ==> ExtractEntry(t, item).staging.Valid()
  {
    match item
    case FileEntry(name, data) =>
      PlaceFileSpec(t, name, data);
    case DirectoryEntry(name) =>
      CreateDirectoriesSpec(t, name);
    case Unreadable =>
  }

  /** The first `n` passes of the `while` loop over the entries, starting from the empty temporary directory. */
  function Extract(archive: seq<ZipItem>, n: nat): Extraction
    requires n <= |archive|
  {
    if n == 0 then Extraction(EmptyTree(), None)
    else
      var before := Extract(archive, n - 1);
      if before.error.Some? then before else ExtractEntry(before.staging, archive[n - 1])
  }

  /** The files the first `n` entries describe: each file entry sets its name, a later entry replacing an earlier one. */
  function EntryFiles(archive: seq<ZipItem>, n: nat): map<Path, Bytes>
    requires n <= |archive|
  {
    if n == 0 then map[]
    else
      var w := EntryFiles(archive, n - 1);
      match archive[n - 1]
      case FileEntry(name, data) => w[name := data]
      case _ => w
  }

  /** One more pass after passes that all succeeded is that entry's extraction. */
  lemma ExtractIteration(archive: seq<ZipItem>, i: nat, e: Extraction)
    requires i < |archive| && Extract(archive, i).error.None?
    requires e == ExtractEntry(Extract(archive, i).staging, archive[i])
    ensures Extract(archive, i + 1) == e
  {
  }

  /** An extraction that completes holds exactly the files the entries describe, in a well-formed temporary directory. */
  lemma {:induction false} ExtractedFiles(archive: seq<ZipItem>, n: nat)
    requires n <= |archive| && Extract(archive, n).error.None?
    ensures Extract(archive, n).staging.files == EntryFiles(archive, n)
    ensures Extract(archive, n).staging.Valid()
  {
    if n > 0 {
      var before := Extract(archive, n - 1);
      assert before.error.None?;
      ExtractedFiles(archive, n - 1);
      ExtractEntrySpec(before.staging, archive[n - 1]);
    }
  }

  /** After the first entry that fails, no later entry is read. */
  lemma {:induction false} ExtractionStops(archive: seq<ZipItem>, k: nat, n: nat)
    requires k <= n <= |archive| && Extract(archive, k).error.Some?
    ensures Extract(archive, n) == Extract(archive, k)
    decreases n
  {
    if n > k {
      ExtractionStops(archive, k, n - 1);
    }
  }

  /** Every extracted file comes from a file entry of that name: directory entries and unreadable entries make no file. */
  lemma {:induction false} EntryFilesFromEntries(archive: seq<ZipItem>, n: nat)
    requires n <= |archive|
    ensures forall p :: p in EntryFiles(archive, n) ==>
              exists i :: 0 <= i < n && archive[i].FileEntry? && archive[i].name == p
  {
    if n > 0 {
      EntryFilesFromEntries(archive, n - 1);
    }
  }

  /** A file entry not followed by another entry of the same name decides that file's contents. */
  lemma {:induction false} EntryFilesLastWins(archive: seq<ZipItem>, n: nat, i: nat)
    requires i < n <= |archive| && archive[i].FileEntry?
    requires forall j :: i < j < n && archive[j].FileEntry? ==> archive[j].name != archive[i].name
    ensures archive[i].name in EntryFiles(archive, n)
    ensures EntryFiles(archive, n)[archive[i].name] == archive[i].data
  {
    if i < n - 1 {
      EntryFilesLastWins(archive, n - 1, i);
    }
  }

  /** `profileDir.resolve(tempDir.relativize(file))` for every staged file. */
  function Relocation(dir: Path, staged: map<Path, Bytes>): set<Path>
  {
    set rel | rel in staged :: dir + rel
  }

  /** The destinations of the files the walk visited. */
  function Destinations(dir: Path, walk: seq<Path>): set<Path>
  {
    set rel | rel in walk :: dir + rel
  }

  /** The order of `Files.walk`: every staged regular file exactly once. */
  predicate IsWalk(walk: seq<Path>, staged: map<Path, Bytes>)
  {
    && (forall i, j :: 0 <= i < j < |walk| ==> walk[i] != walk[j])
    && (forall rel :: rel in walk ==> rel in staged)
    && (forall rel :: rel in staged ==> rel in walk)
  }

  /**
   * The `forEach` over the staged files, in the order `walk` visits them:
   * each file gets its parent directories created in `dir` and is copied
   * over its destination; a copy that throws is recorded and skipped. A
   * visited file that is not staged fails to copy like a missing file.
   */
  function MergeAll(t: Tree, dir: Path, staged: map<Path, Bytes>, walk: seq<Path>): Merge
    decreases |walk|
  {
    if walk == [] then Merge(t, {})
    else
      var before := MergeAll(t, dir, staged, walk[..|walk| - 1]);
      var rel := walk[|walk| - 1];
      if rel !in staged then Merge(before.tree, before.failed + {rel})
      else
        var r := PlaceFile(before.tree, dir + rel, staged[rel]);
        Merge(r.tree, if r.ok then before.failed else before.failed + {rel})
  }

  /** Resolving against the same directory keeps different relative paths apart. */
  lemma ResolveInjective(dir: Path, a: Path, b: Path)
    requires dir + a == dir + b
    ensures a == b
  {
    assert a == (dir + a)[|dir|..];
    assert b == (dir + b)[|dir|..];
  }

  /** Visiting one more staged file is placing it. */
  lemma MergeIteration(t: Tree, dir: Path, staged: map<Path, Bytes>, walk: seq<Path>, rel: Path, r: Io)
    requires rel in staged
    requires r == PlaceFile(MergeAll(t, dir, staged, walk).tree, dir + rel, staged[rel])
    ensures MergeAll(t, dir, staged, walk + [rel]).tree == r.tree
  {
    assert (walk + [rel])[..|walk|] == walk;
  }

  /**
   * After the walk, every visited staged file whose copy did not fail is
   * at its destination with the staged bytes, only visited files can have
   * failed, every path that is not a destination holds what it held
   * before, and a well-formed disk stays well-formed.
   */
  lemma {:induction false} MergeSpec(t: Tree, dir: Path, staged: map<Path, Bytes>, walk: seq<Path>)
    ensures forall rel :: rel in MergeAll(t, dir, staged, walk).failed ==> rel in walk
    ensures forall rel :: rel in staged && rel in walk && rel !in MergeAll(t, dir, staged, walk).failed ==>
              dir + rel in MergeAll(t, dir, staged, walk).tree.files
              && MergeAll(t, dir, staged, walk).tree.files[dir + rel] == staged[rel]
    ensures forall p :: p !in Destinations(dir, walk) ==> SameFile(t, MergeAll(t, dir, staged, walk).tree, p)
    ensures t.Valid() ==> MergeAll(t, dir, staged, walk).tree.Valid()
    decreases |walk|
  {
    if walk != [] {
      var init := walk[..|walk| - 1];
      var rel := walk[|walk| - 1];
      assert walk == init + [rel];
      var before := MergeAll(t, dir, staged, init);
      var after := MergeAll(t, dir, staged, walk);
      MergeSpec(t, dir, staged, init);
      if rel in staged {
        var dest := dir + rel;
        PlaceFileSpec(before.tree, dest, staged[rel]);
        forall q | q in staged && q in walk && q !in after.failed
          ensures dir + q in after.tree.files && after.tree.files[dir + q] == staged[q]
        {
          if dir + q == dest {
            ResolveInjective(dir, q, rel);
          } else {
            assert q in init;
          }
        }
        forall p | p !in Destinations(dir, walk) ensures SameFile(t, after.tree, p) {
          assert p !in Destinations(dir, init) && p != dest;
        }
      } else {
        forall p | p !in Destinations(dir, walk) ensures SameFile(t, after.tree, p) {
          assert p !in Destinations(dir, init);
        }
      }
    }
  }

  /**
   * `installFromZip(mcDir, zipFilePath, progress)`: `fileName` is the
   * bundle's file name and `walk` the order in which `Files.walk` visits the
   * staged files.
   */
  function InstallFromZipRun(t: Tree, fileName: string, archive: seq<ZipItem>, walk: seq<Path>): Run
  {
    var name := StripExtension(fileName);
    var dir := ProfileDir(name);
    var made := EnsureDirectory(t, dir);
    if !made.ok then Run(made.tree, [], Failure(DirectoryCreationError))
    else
      var extracted := Extract(archive, |archive|);
      if extracted.error.Some? then Run(made.tree, [], Failure(extracted.error.value))
      else
        var merged := MergeAll(made.tree, dir, extracted.staging.files, walk);
        Run(merged.tree, [Done], Success(name))
  }

  /**
   * An install that fails reports no progress and changes no file; when
   * the profile directory was there to receive the bundle, the failure is
   * the one that ended the extraction.
   */
  lemma ZipFailsBeforeMerge(t: Tree, fileName: string, archive: seq<ZipItem>, walk: seq<Path>)
    requires InstallFromZipRun(t, fileName, archive, walk).result.Failure?
    ensures InstallFromZipRun(t, fileName, archive, walk).events == []
    ensures InstallFromZipRun(t, fileName, archive, walk).tree.files == t.files
    ensures EnsureDirectory(t, ProfileDir(StripExtension(fileName))).ok ==>
              Extract(archive, |archive|).error == Some(InstallFromZipRun(t, fileName, archive, walk).result.error)
  {
  }

  /**
   * Once the bundle is extracted, the install returns the bundle name and
   * reports "done" whatever copies failed: each staged file that did not
   * fail is in the profile directory with the bytes of its last entry,
   * no file outside the files' destinations changes, and a well-formed
   * disk stays well-formed. (`ZipDirectories` frames the directories.)
   */
  lemma ZipMerged(t: Tree, fileName: string, archive: seq<ZipItem>, walk: seq<Path>)
    requires EnsureDirectory(t, ProfileDir(StripExtension(fileName))).ok
    requires Extract(archive, |archive|).error.None?
    requires IsWalk(walk, EntryFiles(archive, |archive|))
    ensures var run := InstallFromZipRun(t, fileName, archive, walk);
            run.result == Success(StripExtension(fileName)) && run.events == [Done]
    ensures var dir := ProfileDir(StripExtension(fileName));
            var staged := EntryFiles(archive, |archive|);
            var run := InstallFromZipRun(t, fileName, archive, walk);
            var failed := MergeAll(EnsureDirectory(t, dir).tree, dir, staged, walk).failed;
            && (forall rel :: rel in failed ==> rel in staged)
            && (forall rel :: rel in staged && rel !in failed ==>
                  dir + rel in run.tree.files && run.tree.files[dir + rel] == staged[rel])
            && (forall p :: p !in Relocation(dir, staged) ==> SameFile(t, run.tree, p))
            && (t.Valid() ==> run.tree.Valid())
  {
    var dir := ProfileDir(StripExtension(fileName));
    var made := EnsureDirectory(t, dir);
    var staged := EntryFiles(archive, |archive|);
    ExtractedFiles(archive, |archive|);
    MergeSpec(made.tree, dir, staged, walk);
    var merged := MergeAll(made.tree, dir, staged, walk);
    forall p | p !in Relocation(dir, staged) ensures SameFile(t, merged.tree, p) {
      assert p !in Destinations(dir, walk);
    }
  }

  /**
   * On a well-formed disk, a destination that already holds a regular
   * file keeps one through the walk, and the copy of its staged file never
   * fails.
   */
  lemma {:induction false} MergeReplacesExisting(t: Tree, dir: Path, staged: map<Path, Bytes>, walk: seq<Path>, rel: Path)
    requires t.Valid() && dir + rel in t.files
    ensures dir + rel in MergeAll(t, dir, staged, walk).tree.files
    ensures rel in staged ==> rel !in MergeAll(t, dir, staged, walk).failed
    decreases |walk|
  {
    if walk != [] {
      var init := walk[..|walk| - 1];
      var last := walk[|walk| - 1];
      var before := MergeAll(t, dir, staged, init);
      MergeReplacesExisting(t, dir, staged, init, rel);
      MergeSpec(t, dir, staged, init);
      if last in staged {
        PlaceFileSpec(before.tree, dir + last, staged[last]);
        if last == rel {
          PlaceFileOverExisting(before.tree, dir + rel, staged[rel]);
        }
      }
    }
  }

  /**
   * Once the bundle is extracted on a well-formed disk, a file of the
   * profile directory that the bundle also holds is replaced by the bytes
   * of its last entry.
   */
  lemma ZipReplacesExisting(t: Tree, fileName: string, archive: seq<ZipItem>, walk: seq<Path>, rel: Path)
    requires t.Valid()
    requires EnsureDirectory(t, ProfileDir(StripExtension(fileName))).ok
    requires Extract(archive, |archive|).error.None?
    requires IsWalk(walk, EntryFiles(archive, |archive|))
    requires rel in EntryFiles(archive, |archive|)
    requires ProfileDir(StripExtension(fileName)) + rel in t.files
    ensures var dest := ProfileDir(StripExtension(fileName)) + rel;
            var run := InstallFromZipRun(t, fileName, archive, walk);
            dest in run.tree.files && run.tree.files[dest] == EntryFiles(archive, |archive|)[rel]
  {
    var dir := ProfileDir(StripExtension(fileName));
    var made := EnsureDirectory(t, dir);
    MergeReplacesExisting(made.tree, dir, EntryFiles(archive, |archive|), walk, rel);
    ZipMerged(t, fileName, archive, walk);
  }

  /** Every directory the copy of `dir + rel` can create lies in `dir` or above it. */
  lemma DestinationPrefixes(dir: Path, rel: Path)
    ensures forall q :: q in Prefixes(dir + rel) ==> Under(q, dir) || q in Prefixes(dir)
  {
    forall q | q in Prefixes(dir + rel) ensures Under(q, dir) || q in Prefixes(dir) {
      if |q| <= |dir| {
        assert q == dir[..|q|];
        PrefixIn(dir, |q|);
      } else {
        assert q[..|dir|] == dir;
      }
    }
  }

  /** The walk changes no directory outside `dir` but, at most, the directories above it. */
  lemma {:induction false} MergeDirectories(t: Tree, dir: Path, staged: map<Path, Bytes>, walk: seq<Path>)
    ensures forall p :: !Under(p, dir) && p !in Prefixes(dir) ==>
              (p in MergeAll(t, dir, staged, walk).tree.dirs <==> p in t.dirs)
    decreases |walk|
  {
    if walk != [] {
      var init := walk[..|walk| - 1];
      var last := walk[|walk| - 1];
      MergeDirectories(t, dir, staged, init);
      if last in staged {
        var before := MergeAll(t, dir, staged, init).tree;
        var after := PlaceFile(before, dir + last, staged[last]).tree;
        assert MergeAll(t, dir, staged, walk).tree == after;
        PlaceFileSpec(before, dir + last, staged[last]);
        DestinationPrefixes(dir, last);
        forall p | !Under(p, dir) && p !in Prefixes(dir) ensures p in after.dirs <==> p in before.dirs {
          assert p !in Prefixes(dir + last);
          assert p in after.dirs - Prefixes(dir + last) <==> p in before.dirs - Prefixes(dir + last);
        }
      }
    }
  }

  /**
   * Installing a bundle, whatever the outcome, creates or removes no
   * directory outside the profile directory except the directories above
   * it.
   */
  lemma ZipDirectories(t: Tree, fileName: string, archive: seq<ZipItem>, walk: seq<Path>)
    ensures var dir := ProfileDir(StripExtension(fileName));
            var run := InstallFromZipRun(t, fileName, archive, walk);
            forall p :: !Under(p, dir) && p !in Prefixes(dir) ==> (p in run.tree.dirs <==> p in t.dirs)
  {
    var dir := ProfileDir(StripExtension(fileName));
    var made := EnsureDirectory(t, dir);
    MergeDirectories(made.tree, dir, Extract(archive, |archive|).staging.files, walk);
  }

  /** `q` lies strictly inside the directory `dir`. */
  predicate Below(q: Path, dir: Path)
  {
    |dir| < |q| && q[..|dir|] == dir
  }

  /** No staged file lies on the way to another one, and none is the staging root itself. */
  predicate PrefixFree(staged: map<Path, Bytes>)
  {
    && [] !in staged
    && (forall a, b :: a in staged && b in staged && |a| < |b| ==> b[..|a|] != a)
  }

  /** The regular files of a well-formed directory are prefix-free. */
  lemma StagedPrefixFree(s: Tree)
    requires s.Valid()
    ensures PrefixFree(s.files)
  {
    forall a, b | a in s.files && b in s.files && |a| < |b| ensures b[..|a|] != a {
      assert b[..|a|] in s.dirs;
    }
  }

  /** The proper, non-empty prefixes of the relative paths in `w`: the directories that copying them creates. */
  ghost function Stems(w: seq<Path>): set<Path>
  {
    set rel, k | rel in w && 0 < k < |rel| :: rel[..k]
  }

  /**
   * Inside `dir`, the well-formed disk `s` holds only what copying the
   * relative paths `w` put there: files at their destinations, and
   * directories on the way to them.
   */
  ghost predicate Fits(s: Tree, dir: Path, w: seq<Path>)
  {
    && s.Valid() && dir in s.dirs
    && (forall q :: q in s.files && Below(q, dir) ==> q[|dir|..] in w)
    && (forall q :: q in s.dirs && Below(q, dir) ==> q[|dir|..] in Stems(w))
  }

  /** In such a directory, nothing stands where the next staged file goes. */
  lemma DestinationClear(s: Tree, dir: Path, w: seq<Path>, staged: map<Path, Bytes>, rel: Path)
    requires Fits(s, dir, w) && PrefixFree(staged)
    requires forall r :: r in w ==> r in staged
    requires rel in staged
    ensures !s.FileAbove(dir + rel) && dir + rel !in s.dirs
  {
    var dest := dir + rel;
    assert dest[..|dir|] == dir && dest[|dir|..] == rel;
    forall k | 1 <= k < |dest| ensures dest[..k] !in s.files {
      if k < |dir| {
        assert dest[..k] == dir[..k] && dir[..k] in s.dirs;
      } else if k == |dir| {
        assert dest[..k] == dir;
      } else {
        var r := rel[..k - |dir|];
        assert rel[..|r|] == r && |r| < |rel|;
        assert r !in staged;
        assert Below(dest[..k], dir) && dest[..k][|dir|..] == r;
      }
    }
    NoFileAboveFromPrefixes(s, dest);
    forall r, k | r in w && 0 < k < |r| ensures r[..k] != rel {
      assert r in staged;
    }
    assert rel !in Stems(w);
    assert Below(dest, dir);
  }

  /** Adding the file `dir + rel` and its parent directories keeps inside `dir` only what was copied. */
  lemma FitsGrow(s: Tree, after: Tree, dir: Path, w: seq<Path>, rel: Path)
    requires Fits(s, dir, w) && after.Valid() && rel != []
    requires after.files.Keys == s.files.Keys + {dir + rel}
    requires after.dirs == s.dirs + Prefixes(Parent(dir + rel))
    ensures Fits(after, dir, w + [rel])
  {
    var dest := dir + rel;
    assert dest[..|dir|] == dir && dest[|dir|..] == rel;
    assert dir in after.dirs;
    forall q | q in after.files && Below(q, dir) ensures q[|dir|..] in w + [rel] {
      if q != dest {
        assert q in s.files;
      }
    }
    forall q | q in after.dirs && Below(q, dir) ensures q[|dir|..] in Stems(w + [rel]) {
      if q in s.dirs {
        var x := q[|dir|..];
        var r, k :| r in w && 0 < k < |r| && r[..k] == x;
        assert r in w + [rel];
      } else {
        assert q in Prefixes(Parent(dest)) && |q| < |dest|;
        assert q == dest[..|q|];
        assert q[|dir|..] == rel[..|q| - |dir|];
        assert rel in w + [rel];
      }
    }
  }

  /** Copying one more staged file into such a directory cannot fail, and the directory again holds only what was copied. */
  lemma FitsStep(s: Tree, dir: Path, w: seq<Path>, staged: map<Path, Bytes>, rel: Path)
    requires Fits(s, dir, w) && PrefixFree(staged)
    requires forall r :: r in w ==> r in staged
    requires rel in staged
    ensures PlaceFile(s, dir + rel, staged[rel]).ok
    ensures Fits(PlaceFile(s, dir + rel, staged[rel]).tree, dir, w + [rel])
  {
    var dest := dir + rel;
    DestinationClear(s, dir, w, staged, rel);
    PlaceFileSucceeds(s, dest, staged[rel]);
    PlaceFileSpec(s, dest, staged[rel]);
    var after := PlaceFile(s, dest, staged[rel]).tree;
    assert after.files.Keys == s.files.Keys + {dest};
    FitsGrow(s, after, dir, w, rel);
  }

  /** Visiting one more staged file whose copy succeeds adds no failure. */
  lemma MergeStepOk(t: Tree, dir: Path, staged: map<Path, Bytes>, walk: seq<Path>)
    requires walk != [] && walk[|walk| - 1] in staged
    requires var rel := walk[|walk| - 1];
             PlaceFile(MergeAll(t, dir, staged, walk[..|walk| - 1]).tree, dir + rel, staged[rel]).ok
    ensures var before := MergeAll(t, dir, staged, walk[..|walk| - 1]);
            var rel := walk[|walk| - 1];
            && MergeAll(t, dir, staged, walk).failed == before.failed
            && MergeAll(t, dir, staged, walk).tree == PlaceFile(before.tree, dir + rel, staged[rel]).tree
            && walk == walk[..|walk| - 1] + [rel]
  {
    assert walk == walk[..|walk| - 1] + [walk[|walk| - 1]];
  }

  /** A walk over staged files of a prefix-free staging directory, into a directory holding nothing yet, fails nowhere. */
  lemma {:induction false} MergeNoConflict(t: Tree, dir: Path, staged: map<Path, Bytes>, walk: seq<Path>)
    requires Fits(t, dir, []) && PrefixFree(staged)
    requires forall r :: r in walk ==> r in staged
    ensures MergeAll(t, dir, staged, walk).failed == {}
    ensures Fits(MergeAll(t, dir, staged, walk).tree, dir, walk)
    decreases |walk|
  {
    if walk != [] {
      var init := walk[..|walk| - 1];
      var rel := walk[|walk| - 1];
      MergeNoConflict(t, dir, staged, init);
      FitsStep(MergeAll(t, dir, staged, init).tree, dir, init, staged, rel);
      MergeStepOk(t, dir, staged, walk);
    }
  }

  /**
   * Installing a bundle on a well-formed disk whose profile directory is
   * absent or empty, with no file in its way: no copy fails, so every
   * extracted file ends up in the profile directory with the bytes of its
   * last entry.
   */
  lemma ZipFreshInstall(t: Tree, fileName: string, archive: seq<ZipItem>, walk: seq<Path>)
    requires t.Valid()
    requires var dir := ProfileDir(StripExtension(fileName));
             && dir !in t.files && !t.FileAbove(dir)
             && (forall q :: (q in t.files || q in t.dirs) ==> !Below(q, dir))
    requires Extract(archive, |archive|).error.None?
    requires IsWalk(walk, EntryFiles(archive, |archive|))
    ensures var dir := ProfileDir(StripExtension(fileName));
            var staged := EntryFiles(archive, |archive|);
            var run := InstallFromZipRun(t, fileName, archive, walk);
            && run.result == Success(StripExtension(fileName))
            && MergeAll(EnsureDirectory(t, dir).tree, dir, staged, walk).failed == {}
            && (forall rel :: rel in staged ==> dir + rel in run.tree.files && run.tree.files[dir + rel] == staged[rel])
  {
    var dir := ProfileDir(StripExtension(fileName));
    var staged := EntryFiles(archive, |archive|);
    var made := EnsureDirectory(t, dir);
    if !t.Exists(dir) {
      CreateDirectoriesSpec(t, dir);
    }
    assert made.ok && dir in made.tree.dirs;
    forall q | q in made.tree.dirs ensures !Below(q, dir) {
      if q !in t.dirs {
        assert |q| <= |dir|;
      }
    }
    assert Fits(made.tree, dir, []);
    ExtractedFiles(archive, |archive|);
    StagedPrefixFree(Extract(archive, |archive|).staging);
    MergeNoConflict(made.tree, dir, staged, walk);
    ZipMerged(t, fileName, archive, walk);
  }

  /** One pass of the `while` loop over the zip entries. */
  method ExtractOne(staging: FileSystem, item: ZipItem) returns (error: Option<InstallError>)
    modifies staging
    ensures Extraction(staging.State(), error) == ExtractEntry(old(staging.State()), item)
  {
    var ok;
    match item
    case FileEntry(name, data) =>
      ok := Place(staging, name, data);
      error := if ok then None else Some(FileWriteError);
    case DirectoryEntry(name) =>
      ok := staging.CreateDirectories(name);
      error := if ok then None else Some(DirectoryCreationError);
    case Unreadable =>
      error := Some(ArchiveReadError);
  }

  /** The `while` loop over the zip entries, into the temporary directory `staging`. */
  method ExtractInto(staging: FileSystem, archive: seq<ZipItem>) returns (error: Option<InstallError>)
    requires staging.State() == EmptyTree()
    modifies staging
    ensures staging.State() == Extract(archive, |archive|).staging && error == Extract(archive, |archive|).error
  {
    var i := 0;
    while i < |archive|
      invariant i <= |archive|
      invariant Extract(archive, i).error.None?
      invariant staging.State() == Extract(archive, i).staging
    {
      error := ExtractOne(staging, archive[i]);
      ExtractIteration(archive, i, Extraction(staging.State(), error));
      if error.Some? {
        ExtractionStops(archive, i + 1, |archive|);
        return;
      }
      i := i + 1;
    }
    error := None;
  }

  /** The walk over the staged files, in an order the platform chooses, copying each into `dir`. */
  method MergeInto(mc: FileSystem, staging: FileSystem, dir: Path) returns (ghost walk: seq<Path>)
    requires mc != staging
    modifies mc
    ensures IsWalk(walk, staging.files)
    ensures mc.State() == MergeAll(old(mc.State()), dir, staging.files, walk).tree
  {
    ghost var start := mc.State();
    var staged := staging.files;
    var remaining := staged.Keys;
    walk := [];
    while remaining != {}
      invariant remaining <= staged.Keys
      invariant forall i, j :: 0 <= i < j < |walk| ==> walk[i] != walk[j]
      invariant forall rel :: rel in walk ==> rel in staged && rel !in remaining
      invariant forall rel :: rel in staged ==> rel in walk || rel in remaining
      invariant mc.State() == MergeAll(start, dir, staged, walk).tree
      decreases remaining
    {
      var rel :| rel in remaining;
      var ok := Place(mc, dir + rel, staged[rel]);
      MergeIteration(start, dir, staged, walk, rel, Io(mc.State(), ok));
      walk := walk + [rel];
      remaining := remaining - {rel};
    }
  }

  /** `ClientInstaller.installFromZip`: returns the bundle's name, or the error the program throws. */
  method InstallFromZip(mc: FileSystem, progress: InstallerProgress, fileName: string, archive: seq<ZipItem>)
    returns (r: Result<string, InstallError>, ghost walk: seq<Path>)
    modifies mc, progress
    ensures r.Success? ==> IsWalk(walk, Extract(archive, |archive|).staging.files)
    ensures var run := InstallFromZipRun(old(mc.State()), fileName, archive, walk);
            mc.State() == run.tree && progress.messages == old(progress.messages) + run.events && r == run.result
  {
    walk := [];
    var zipFileName := StripExtension(fileName);
    var profileDir := ProfileDir(zipFileName);
    if !mc.State().Exists(profileDir) {
      var ok := mc.CreateDirectories(profileDir);
      if !ok {
        return Failure(DirectoryCreationError), walk;
      }
    }
    var staging := new FileSystem.Empty();
    var error := ExtractInto(staging, archive);
    if error.Some? {
      return Failure(error.value), walk;
    }
    walk := MergeInto(mc, staging, profileDir);
    progress.UpdateProgress(Done);
    return Success(zipFileName), walk;
  }
}
