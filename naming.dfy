/**
 * The names ClientInstaller derives from its inputs: the profile name of a
 * remote install, the metadata query path, and the profile name of a bundle
 * install (the archive's file name without its last extension).
 */
module Naming {
  import opened Outcomes

  /** `String.format("%s-%s-%s", LOADER_NAME, loaderVersion, gameVersion)`. */
  function ProfileName(loaderName: string, loaderVersion: string, gameVersion: string): string
  {
    loaderName + "-" + loaderVersion + "-" + gameVersion
  }

  /** The metadata-service path queried for a profile, keyed game version first. */
  function MetaQueryPath(gameVersion: string, loaderVersion: string): string
  {
    "v2/versions/loader/" + gameVersion + "/" + loaderVersion + "/profile/json"
  }

  /** The first index at or after `from` holding `c`, if any. */
  function IndexOf(s: string, c: char, from: nat): (r: Option<nat>)
    requires from <= |s|
    ensures r.Some? ==> from <= r.value < |s| && s[r.value] == c
    ensures r.Some? ==> forall j :: from <= j < r.value ==> s[j] != c
    ensures r.None? ==> forall j :: from <= j < |s| ==> s[j] != c
    decreases |s| - from
  {
    if from == |s| then None
    else if s[from] == c then Some(from)
    else IndexOf(s, c, from + 1)
  }

  /** Reads a profile name back as (loader, loader version, game version), cutting at its first two dashes. */
  function SplitProfileName(s: string): Option<(string, string, string)>
  {
    match IndexOf(s, '-', 0)
    case None => None
    case Some(i) =>
      match IndexOf(s, '-', i + 1)
      case None => None
      case Some(j) => Some((s[..i], s[i + 1..j], s[j + 1..]))
  }

  /** In `p + a + [c] + rest` with no `c` in `a`, the first `c` at or after `|p|` closes `a`. */
  lemma {:induction false} FirstOccurrence(s: string, p: string, a: string, c: char, rest: string)
    requires s == p + a + [c] + rest && c !in a
    ensures IndexOf(s, c, |p|) == Some(|p| + |a|)
  {
    assert s[|p| + |a|] == c;
    assert forall j :: |p| <= j < |p| + |a| ==> s[j] == a[j - |p|];
  }

  /** When neither the loader name nor the loader version holds a dash, the profile name determines all three parts. */
  lemma {:induction false} ProfileNameRoundTrip(loaderName: string, loaderVersion: string, gameVersion: string)
    requires '-' !in loaderName && '-' !in loaderVersion
    ensures SplitProfileName(ProfileName(loaderName, loaderVersion, gameVersion))
            == Some((loaderName, loaderVersion, gameVersion))
  {
    var s := ProfileName(loaderName, loaderVersion, gameVersion);
    var i, j := |loaderName|, |loaderName| + 1 + |loaderVersion|;
    FirstOccurrence(s, [], loaderName, '-', loaderVersion + "-" + gameVersion);
    FirstOccurrence(s, loaderName + "-", loaderVersion, '-', gameVersion);
    assert s[..i] == loaderName;
    assert s[i + 1..j] == loaderVersion;
    assert s[j + 1..] == gameVersion;
  }

  /** Profile names are not unique in general: a dash inside a part makes two inputs collide. */
  lemma ProfileNameCollides()
    ensures ProfileName("a-b", "c", "d") == ProfileName("a", "b-c", "d")
  {
  }

  /** Where the game version and the loader version sit inside the metadata query path. */
  lemma {:induction false} MetaQueryPathParts(g: string, l: string)
    requires '/' !in g
    ensures var s := MetaQueryPath(g, l);
      && IndexOf(s, '/', 19) == Some(19 + |g|)
      && s[19..19 + |g|] == g
      && |s| == |g| + |l| + 33
      && s[20 + |g|..|s| - 13] == l
  {
    var s := MetaQueryPath(g, l);
    var head, tail := "v2/versions/loader/", "/profile/json";
    assert |head| == 19 && |tail| == 13;
    FirstOccurrence(s, head, g, '/', l + tail);
    assert s[19..19 + |g|] == g;
    assert s[20 + |g|..|s| - 13] == l;
  }

  /** Distinct (game version, loader version) pairs query distinct metadata paths when the game version holds no slash. */
  lemma {:induction false} MetaQueryPathInjective(g1: string, l1: string, g2: string, l2: string)
    requires '/' !in g1 && '/' !in g2
    requires MetaQueryPath(g1, l1) == MetaQueryPath(g2, l2)
    ensures g1 == g2 && l1 == l2
  {
    MetaQueryPathParts(g1, l1);
    MetaQueryPathParts(g2, l2);
  }

  /**
   * `s[i..]` is a match of the pattern `[.][^.]+$`: a dot, then at least
   * one more character, and no dot from there to the end of the name.
   */
  predicate ExtensionAt(s: string, i: int)
  {
    0 <= i < |s| - 1 && s[i] == '.' && forall j :: i < j < |s| ==> s[j] != '.'
  }

  /** The last index below `end` holding a dot, if any. */
  function LastDot(s: string, end: nat): (r: Option<nat>)
    requires end <= |s|
    ensures r.Some? ==> r.value < end && s[r.value] == '.'
    ensures r.Some? ==> forall j :: r.value < j < end ==> s[j] != '.'
    ensures r.None? ==> forall j :: 0 <= j < end ==> s[j] != '.'
  {
    if end == 0 then None
    else if s[end - 1] == '.' then Some(end - 1)
    else LastDot(s, end - 1)
  }

  /**
   * `fileName.replaceFirst("[.][^.]+$", "")`: drops the final dot and the
   * non-empty, dot-free tail after it; a name without a dot, or ending in
   * one, is kept whole.
   */
  function StripExtension(fileName: string): (r: string)
    ensures r <= fileName
    ensures r == fileName || (ExtensionAt(fileName, |r|) && |r| < |fileName|)
  {
    match LastDot(fileName, |fileName|)
    case Some(i) => if i < |fileName| - 1 then fileName[..i] else fileName
    case None => fileName
  }

  /**
   * StripExtension replaces exactly the regular-expression match: the match,
   * when there is one, is unique, and the result is the name cut just before
   * it; without a match the name is returned unchanged.
   */
  lemma {:induction false} StripExtensionIsReplaceFirst(fileName: string)
    ensures forall i :: ExtensionAt(fileName, i) ==> StripExtension(fileName) == fileName[..i]
    ensures (forall i :: !ExtensionAt(fileName, i)) ==> StripExtension(fileName) == fileName
    ensures forall i, j :: ExtensionAt(fileName, i) && ExtensionAt(fileName, j) ==> i == j
  {
    var n := |fileName|;
    forall i | ExtensionAt(fileName, i)
      ensures StripExtension(fileName) == fileName[..i]
    {
      var d := LastDot(fileName, n);
      assert fileName[i] == '.';
      assert d == Some(i);
    }
    if forall i :: !ExtensionAt(fileName, i) {
      var d := LastDot(fileName, n);
      if d.Some? && d.value < n - 1 {
        assert ExtensionAt(fileName, d.value);
      }
    }
  }

  /** The names the bundle installer derives from typical archive names. */
  lemma {:induction false} StripExtensionExamples()
    ensures StripExtension("Fabric-1.0.zip") == "Fabric-1.0"
    ensures StripExtension("bundle") == "bundle"
    ensures StripExtension("bundle.") == "bundle."
    ensures StripExtension(".zip") == ""
    ensures StripExtension("a.b.c") == "a.b"
  {
    StripExtensionIsReplaceFirst("Fabric-1.0.zip");
    assert ExtensionAt("Fabric-1.0.zip", 10);
    StripExtensionIsReplaceFirst("bundle");
    StripExtensionIsReplaceFirst("bundle.");
    StripExtensionIsReplaceFirst(".zip");
    assert ExtensionAt(".zip", 0);
    StripExtensionIsReplaceFirst("a.b.c");
    assert ExtensionAt("a.b.c", 3);
  }

  /** A name holding at most one dot is stripped once and for all: stripping again changes nothing. */
  lemma {:induction false} StripExtensionIdempotent(fileName: string)
    requires forall i, j :: 0 <= i < j < |fileName| && fileName[i] == '.' ==> fileName[j] != '.'
    ensures StripExtension(StripExtension(fileName)) == StripExtension(fileName)
  {
    var r := StripExtension(fileName);
    StripExtensionIsReplaceFirst(r);
  }
}
