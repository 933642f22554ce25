/** The filesystem as the delete action sees it: a tree of files and
    directories, keyed by absolute normalised path. The root directory is
    implicit and is never a key. */
module Filesystem {
  import opened Paths

  datatype Node = File(content: string) | Directory

  type Tree = map<Path, Node>

  /** Every key is a normalised path below the root, and every proper ancestor
      of a key is present as a directory. */
  predicate WellFormed(fs: Tree) {
    [] !in fs &&
    (forall k :: k in fs ==> IsNormal(k)) &&
    (forall k, n :: k in fs && 0 < n < |k| ==> k[..n] in fs && fs[k[..n]].Directory?)
  }

  /** The parent directory of a path below the root. */
  function Parent(p: Path): Path
    requires p != []
  {
    p[..|p| - 1]
  }

  /** Creating a new entry whose parent directory exists keeps the tree well formed. */
  lemma {:induction false} AddEntry(fs: Tree, p: Path, node: Node)
    requires WellFormed(fs)
    requires IsNormal(p) && p != [] && p !in fs
    requires |p| > 1 ==> Parent(p) in fs && fs[Parent(p)].Directory?
    ensures WellFormed(fs[p := node])
  {
    var r := fs[p := node];
    forall k, n | k in r && 0 < n < |k|
      ensures k[..n] in r && r[k[..n]].Directory?
    {
      if k == p {
        if n < |p| - 1 {
          assert k[..n] == Parent(p)[..n];
        }
      } else {
        AncestorExists(fs, k, p);
      }
    }
  }

  /** `fs.existsSync`: the root always exists. */
  predicate Exists(fs: Tree, p: Path) {
    p == [] || p in fs
  }

  /** In a well-formed tree, a path that exists has every ancestor existing as
      a directory, and every path below an absent one is absent too. */
  lemma ExistsAncestors(fs: Tree, p: Path, n: nat)
    requires WellFormed(fs) && n <= |p|
    ensures Exists(fs, p) ==> Exists(fs, p[..n]) && (0 < n < |p| ==> fs[p[..n]].Directory?)
    ensures !Exists(fs, p[..n]) ==> !Exists(fs, p)
  {
    if Exists(fs, p) && n == |p| {
      assert p[..n] == p;
    }
  }

  /** `fs.remove`: removes `target` and, when it is a directory, everything
      under it; an absent target leaves the tree as it was. */
  function Remove(fs: Tree, target: Path): (r: Tree)
    ensures forall k :: k in r <==> k in fs && !IsWithin(target, k)
    ensures forall k :: k in r ==> r[k] == fs[k]
    ensures target != [] ==> !Exists(r, target)
    ensures WellFormed(fs) ==> WellFormed(r)
  {
    var r := map k | k in fs && !IsWithin(target, k) :: fs[k];
    assert WellFormed(fs) ==> WellFormed(r) by {
      if WellFormed(fs) {
        forall k, n | k in r && 0 < n < |k|
          ensures k[..n] in r && r[k[..n]].Directory?
        {
        }
      }
    }
    r
  }

  /** In a well-formed tree, whatever has an entry below it exists itself. */
  lemma AncestorExists(fs: Tree, k: Path, target: Path)
    requires WellFormed(fs) && k in fs
    ensures IsWithin(target, k) ==> Exists(fs, target)
  {
    if IsWithin(target, k) && 0 < |target| < |k| {
      assert k[..|target|] in fs;
    } else if IsWithin(target, k) {
      assert k[..|k|] == k;
    }
  }

  /** Removing a path that does not exist is a no-op. */
  lemma RemoveAbsent(fs: Tree, target: Path)
    requires WellFormed(fs)
    requires !Exists(fs, target)
    ensures Remove(fs, target) == fs
  {
    forall k | k in fs
      ensures !IsWithin(target, k)
    {
      AncestorExists(fs, k, target);
    }
  }

  /** Removing the same path twice is the same as removing it once. */
  lemma RemoveIdempotent(fs: Tree, target: Path)
    ensures Remove(Remove(fs, target), target) == Remove(fs, target)
  {
  }

  /** Removes the targets one after the other, in order. */
  function RemoveAll(fs: Tree, targets: seq<Path>): (r: Tree)
    ensures forall k :: k in r <==> k in fs && forall j :: 0 <= j < |targets| ==> !IsWithin(targets[j], k)
    ensures forall k :: k in r ==> r[k] == fs[k]
    ensures WellFormed(fs) ==> WellFormed(r)
    decreases |targets|
  {
    if targets == [] then fs
    else
      var last := |targets| - 1;
      var r := Remove(RemoveAll(fs, targets[..last]), targets[last]);
      assert forall j :: 0 <= j < last ==> targets[..last][j] == targets[j];
      r
  }

  /** Whatever has an entry strictly below it is a directory (or the root). */
  lemma BelowIsDirectory(fs: Tree, t: Path, k: Path)
    requires WellFormed(fs) && k in fs
    ensures IsWithin(t, k) && k != t && t != [] ==> t in fs && fs[t].Directory?
  {
  }

  /** A file has nothing below it, so removing files removes exactly those files. */
  lemma RemoveAllFiles(fs: Tree, targets: seq<Path>)
    requires WellFormed(fs)
    requires forall j :: 0 <= j < |targets| ==> targets[j] in fs && fs[targets[j]].File?
    ensures RemoveAll(fs, targets) == fs - (set j | 0 <= j < |targets| :: targets[j])
  {
    var r := RemoveAll(fs, targets);
    var gone := set j | 0 <= j < |targets| :: targets[j];
    forall k | k in fs
      ensures k in r <==> k !in gone
    {
      forall j | 0 <= j < |targets|
        ensures IsWithin(targets[j], k) ==> k == targets[j]
      {
        BelowIsDirectory(fs, targets[j], k);
      }
    }
    assert r.Keys == (fs - gone).Keys;
  }

  /** None of the removed targets exists afterwards (the root excepted). */
  lemma RemoveAllGone(fs: Tree, targets: seq<Path>, j: nat)
    requires j < |targets| && targets[j] != []
    ensures !Exists(RemoveAll(fs, targets), targets[j])
  {
  }
}
