/**
 * The slice of java.nio.file.Files that ClientInstaller uses, over an
 * abstract directory tree: regular files with their contents and a set of
 * directories, addressed by paths of name segments relative to a root that
 * always exists (the game directory, or a staging directory).
 *
 * Each operation returns the new tree and whether it completed; an
 * operation that throws leaves the tree as it was.
 */
module Disk {

  type Bytes = seq<bv8>

  /** A path below the root, as its name segments; `[]` is the root itself. */
  type Path = seq<string>

  function Parent(p: Path): Path
  {
    if p == [] then [] else p[..|p| - 1]
  }

  /** The non-empty prefixes of `p`, `p` included: the directories `createDirectories(p)` makes sure of. */
  function Prefixes(p: Path): (r: set<Path>)
    ensures forall q :: q in r ==> 0 < |q| <= |p| && q == p[..|q|]
    decreases |p|
  {
    if p == [] then {} else Prefixes(Parent(p)) + {p}
  }

  /** Every non-empty prefix of `p` is among its Prefixes. */
  lemma {:induction false} PrefixIn(p: Path, k: nat)
    requires 1 <= k <= |p|
    ensures p[..k] in Prefixes(p)
    decreases |p|
  {
    if k < |p| {
      PrefixIn(Parent(p), k);
      assert Parent(p)[..k] == p[..k];
    } else {
      assert p[..k] == p;
    }
  }

  lemma PrefixesOfParent(p: Path)
    ensures Prefixes(Parent(p)) <= Prefixes(p)
  {
  }

  /** Overwriting one entry of a union of maps is overwriting it in the right-hand map. */
  lemma UpdateUnion<K, V>(m: map<K, V>, w: map<K, V>, k: K, v: V)
    ensures (m + w)[k := v] == m + w[k := v]
  {
  }

  /** Applying the same overrides twice is applying them once. */
  lemma UnionAbsorbs<K, V>(m: map<K, V>, w: map<K, V>)
    ensures (m + w) + w == m + w
  {
  }

  /** `p` is `root` or lies below it. */
  predicate Under(p: Path, root: Path)
  {
    |root| <= |p| && p[..|root|] == root
  }

  /** The result of one filesystem call: the tree afterwards, and false when the call threw. */
  datatype Io = Io(tree: Tree, ok: bool)

  datatype Tree = Tree(files: map<Path, Bytes>, dirs: set<Path>)
  {
    predicate IsDirectory(p: Path)
    {
      p == [] || p in dirs
    }

    /** `Files.exists`. */
    predicate Exists(p: Path)
    {
      p == [] || p in files || p in dirs
    }

    /**
     * A well-formed tree: the root is not an entry, nothing is both a file
     * and a directory, and every proper prefix of an entry is a directory.
     */
    ghost predicate Valid()
    {
      && [] !in files && [] !in dirs
      && files.Keys !! dirs
      && (forall p, k :: (p in files || p in dirs) && 1 <= k < |p| ==> p[..k] in dirs)
    }

    /** Some proper prefix of `p` is a regular file, so nothing can be created at `p`. */
    predicate FileAbove(p: Path)
      decreases |p|
    {
      |p| > 1 && (Parent(p) in files || FileAbove(Parent(p)))
    }

    /** The directory `p` is not empty: some entry lies below it. */
    predicate HasEntries(p: Path)
    {
      || (exists q :: q in files && |p| < |q| && q[..|p|] == p)
      || (exists q :: q in dirs && |p| < |q| && q[..|p|] == p)
    }

    /**
     * `Files.createDirectories(p)`: creates the missing directories from the
     * top down; fails when `p` or a directory on the way to it is a regular
     * file, and then changes nothing.
     */
    function CreateDirectories(p: Path): Io
      decreases |p|
    {
      if p == [] then Io(this, true)
      else if p in files then Io(this, false)
      else
        var up := CreateDirectories(Parent(p));
        if !up.ok then up else Io(Tree(files, up.tree.dirs + {p}), true)
    }

    /** `Files.deleteIfExists(p)`: removes a file or an empty directory; an absent path is no error unless a file stands on the way. */
    function DeleteIfExists(p: Path): (r: Io)
      ensures p in files ==> r.ok
      ensures p !in files && p in dirs ==> (r.ok <==> !HasEntries(p))
      ensures !Exists(p) ==> (r.ok <==> !FileAbove(p))
      ensures r.tree.files == files - {p}
      ensures Valid() && r.ok ==> p !in r.tree.dirs
      ensures r.tree.dirs - {p} == dirs - {p}
      ensures !r.ok ==> r.tree == this
      ensures Valid() ==> r.tree.Valid()
    {
      if p in files then Io(Tree(files - {p}, dirs), true)
      else if p in dirs then
        if HasEntries(p) then Io(this, false) else Io(Tree(files, dirs - {p}), true)
      else Io(this, !FileAbove(p))
    }

    /** `Files.write(p, data)`: creates or truncates a regular file; its directory must exist. */
    function Write(p: Path, data: Bytes): (r: Io)
      ensures r.ok ==> r.tree == Tree(files[p := data], dirs)
      ensures r.ok <==> p != [] && IsDirectory(Parent(p)) && p !in dirs
      ensures !r.ok ==> r.tree == this
      ensures Valid() ==> r.tree.Valid()
    {
      DirectoryPrefixes(this, p);
      if p != [] && IsDirectory(Parent(p)) && p !in dirs then Io(Tree(files[p := data], dirs), true)
      else Io(this, false)
    }

    /** `Files.copy(.., p, REPLACE_EXISTING)`: replaces a file or an empty directory; its directory must exist. */
    function Copy(p: Path, data: Bytes): Io
    {
      if p != [] && IsDirectory(Parent(p)) && !(p in dirs && HasEntries(p)) then
        Io(Tree(files[p := data], dirs - {p}), true)
      else Io(this, false)
    }
  }

  /**
   * `createDirectories(p)` succeeds exactly when no regular file stands at
   * `p` or on the way to it (the root always exists); it then adds `p` and every directory above it,
   * and otherwise changes nothing. Files are never touched, and a
   * well-formed tree stays well-formed.
   */
  lemma {:induction false} CreateDirectoriesSpec(t: Tree, p: Path)
    ensures t.CreateDirectories(p).tree.files == t.files
    ensures t.CreateDirectories(p).ok <==> p == [] || (p !in t.files && !t.FileAbove(p))
    ensures t.CreateDirectories(p).ok ==> t.CreateDirectories(p).tree.dirs == t.dirs + Prefixes(p)
    ensures !t.CreateDirectories(p).ok ==> t.CreateDirectories(p).tree == t
    ensures t.Valid() ==> t.CreateDirectories(p).tree.Valid()
    decreases |p|
  {
    if p != [] && p !in t.files {
      var q := Parent(p);
      CreateDirectoriesSpec(t, q);
      var up := t.CreateDirectories(q);
      if up.ok {
        var made := Tree(t.files, up.tree.dirs + {p});
        assert t.CreateDirectories(p).tree == made;
        if t.Valid() {
          forall x, k | (x in made.files || x in made.dirs) && 1 <= k < |x| ensures x[..k] in made.dirs {
            if x == p {
              PrefixIn(q, k);
              assert x[..k] == q[..k];
            }
          }
        }
      }
    }
  }

  /**
   * `copy(.., p, REPLACE_EXISTING)` succeeds exactly when the directory of
   * `p` exists and `p` is not a directory with entries; it then holds
   * `data` as a regular file. It keeps a well-formed tree well-formed.
   */
  lemma CopySpec(t: Tree, p: Path, data: Bytes)
    ensures t.Copy(p, data).ok ==> t.Copy(p, data).tree == Tree(t.files[p := data], t.dirs - {p})
    ensures t.Copy(p, data).ok <==> p != [] && t.IsDirectory(Parent(p)) && !(p in t.dirs && t.HasEntries(p))
    ensures !t.Copy(p, data).ok ==> t.Copy(p, data).tree == t
    ensures t.Valid() ==> t.Copy(p, data).tree.Valid()
  {
    var r := t.Copy(p, data);
    if t.Valid() && r.ok {
      DirectoryPrefixes(t, p);
      forall x, k | (x in r.tree.files || x in r.tree.dirs) && 1 <= k < |x| ensures x[..k] in r.tree.dirs {
        if x != p {
          assert x[..k] in t.dirs && |x[..k]| == k;
        }
      }
    }
  }

  function EmptyTree(): (t: Tree)
    ensures t.Valid()
  {
    Tree(map[], {})
  }

  /** `p` is the same regular file, or equally absent, in `a` and `b`. */
  predicate SameFile(a: Tree, b: Tree, p: Path)
  {
    (p in a.files <==> p in b.files) && (p in a.files ==> a.files[p] == b.files[p])
  }

  /** Conversely, when no proper prefix of `p` is a regular file, no file stands on the way to `p`. */
  lemma {:induction false} NoFileAboveFromPrefixes(t: Tree, p: Path)
    requires forall k :: 1 <= k < |p| ==> p[..k] !in t.files
    ensures !t.FileAbove(p)
    decreases |p|
  {
    if |p| > 1 {
      var q := Parent(p);
      assert q == p[..|p| - 1];
      forall k | 1 <= k < |q| ensures q[..k] !in t.files {
        assert q[..k] == p[..k];
      }
      NoFileAboveFromPrefixes(t, q);
    }
  }

  /** In a well-formed tree no regular file stands on the way to an existing entry. */
  lemma {:induction false} NoFileAboveEntry(t: Tree, p: Path)
    requires t.Valid() && (p in t.files || p in t.dirs)
    ensures !t.FileAbove(p)
    decreases |p|
  {
    if |p| > 1 {
      NoFileAboveEntry(t, Parent(p));
    }
  }

  /** A path whose directory exists in a well-formed tree has every proper prefix among the directories. */
  lemma DirectoryPrefixes(t: Tree, p: Path)
    ensures t.Valid() && p != [] && t.IsDirectory(Parent(p)) ==> forall k :: 1 <= k < |p| ==> p[..k] in t.dirs
  {
    if t.Valid() && p != [] && t.IsDirectory(Parent(p)) {
      var q := Parent(p);
      forall k | 1 <= k < |p| ensures p[..k] in t.dirs {
        if k < |q| {
          assert p[..k] == q[..k];
        } else {
          assert p[..k] == q;
        }
      }
    }
  }

  /**
   * The disk that ClientInstaller's static methods act on through
   * java.nio.file.Files; each method changes it as the Tree operation of the
   * same name says.
   */
  class FileSystem {
    var files: map<Path, Bytes>
    var dirs: set<Path>

    function State(): Tree
      reads this
    {
      Tree(files, dirs)
    }

    /** `Files.createTempDirectory`: a fresh, empty directory. */
    constructor Empty()
      ensures State() == EmptyTree()
    {
      files, dirs := map[], {};
    }

    method CreateDirectories(p: Path) returns (ok: bool)
      modifies this
      ensures Io(State(), ok) == old(State()).CreateDirectories(p)
    {
      var r := State().CreateDirectories(p);
      files, dirs, ok := r.tree.files, r.tree.dirs, r.ok;
    }

    method DeleteIfExists(p: Path) returns (ok: bool)
      modifies this
      ensures Io(State(), ok) == old(State()).DeleteIfExists(p)
    {
      var r := State().DeleteIfExists(p);
      files, dirs, ok := r.tree.files, r.tree.dirs, r.ok;
    }

    method Write(p: Path, data: Bytes) returns (ok: bool)
      modifies this
      ensures Io(State(), ok) == old(State()).Write(p, data)
    {
      var r := State().Write(p, data);
      files, dirs, ok := r.tree.files, r.tree.dirs, r.ok;
    }

    method Copy(p: Path, data: Bytes) returns (ok: bool)
      modifies this
      ensures Io(State(), ok) == old(State()).Copy(p, data)
    {
      var r := State().Copy(p, data);
      files, dirs, ok := r.tree.files, r.tree.dirs, r.ok;
    }
  }
}
