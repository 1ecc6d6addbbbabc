/** PruneEmptyDirs: directories that hold no file disappear, bottom up. */
module Prune {
  import opened FileTree
  import opened StringOrder
  import opened Reconcile

  /** A regular file lies at or below q. */
  ghost predicate HasFile(t: Tree, q: Path) {
    exists f :: IsFile(t, f) && q <= f
  }

  /** t without the paths at or below p, other than root, that hold no file. */
  ghost function Cut(t: Tree, p: Path, root: Path): Tree {
    map q | q in t && !(p <= q && q != root && !HasFile(t, q)) :: t[q]
  }

  /** t without the paths at or below the first i entries that hold no file. */
  ghost function CutEntries(t: Tree, entries: seq<Path>, i: nat): Tree
    requires i <= |entries|
  {
    map q | q in t && !(Hit(entries, i, q) && !HasFile(t, q)) :: t[q]
  }

  lemma FilesSurvive(t: Tree, t': Tree, q: Path)
    requires forall f :: IsFile(t, f) <==> IsFile(t', f)
    ensures HasFile(t, q) <==> HasFile(t', q)
  {
  }

  lemma CutNext(t: Tree, entries: seq<Path>, i: nat, root: Path)
    requires i < |entries| && root != entries[i] && !(entries[i] <= root)
    ensures Cut(CutEntries(t, entries, i), entries[i], root) == CutEntries(t, entries, i + 1)
  {
    var u := CutEntries(t, entries, i);
    forall f ensures IsFile(t, f) <==> IsFile(u, f) {
      if IsFile(t, f) {
        assert HasFile(t, f);
      }
    }
    forall q ensures HasFile(t, q) <==> HasFile(u, q) {
      FilesSurvive(t, u, q);
    }
    forall q ensures Hit(entries, i + 1, q) <==> Hit(entries, i, q) || entries[i] <= q {
      HitNext(entries, i, q);
    }
  }

  lemma CutFile(t: Tree, entries: seq<Path>, i: nat)
    requires WellFormed(t) && i < |entries| && IsFile(t, entries[i])
    ensures CutEntries(t, entries, i) == CutEntries(t, entries, i + 1)
  {
    forall q | q in t && entries[i] <= q ensures HasFile(t, q) {
      FileHasNothingBelow(t, entries[i], q);
    }
    forall q ensures Hit(entries, i + 1, q) <==> Hit(entries, i, q) || entries[i] <= q {
      HitNext(entries, i, q);
    }
  }

  /** Entries not yet walked are untouched. */
  lemma EntryStays(t: Tree, entries: seq<Path>, i: nat, n: nat)
    requires i < |entries| && entries[i] in t && Distinct(entries) && forall e :: e in entries ==> |e| == n
    ensures SameAt(t, CutEntries(t, entries, i), entries[i])
  {
    EntriesApart(entries, i, n, entries[i]);
  }

  lemma EntriesAreBelow(t: Tree, entries: seq<Path>, p: Path, q: Path)
    requires WellFormed(t) && p in t && q in t
    requires forall e :: e in entries <==> e in t && |e| == |p| + 1 && p <= e
    ensures Hit(entries, |entries|, q) <==> p <= q && q != p
  {
    if p <= q && q != p {
      ChildOf(t, p, q);
      var j :| 0 <= j < |entries| && entries[j] == q[..|p| + 1];
      assert entries[j] <= q;
    }
    if Hit(entries, |entries|, q) {
      var j :| 0 <= j < |entries| && entries[j] <= q;
      assert entries[j] in entries;
      assert p == entries[j][..|p|] == q[..|p|];
    }
  }

  /** After the walk of the entries, p is empty exactly when it holds no file. */
  lemma EmptyIffNoFile(t: Tree, u: Tree, entries: seq<Path>, p: Path)
    requires WellFormed(t) && WellFormed(u) && IsDir(t, p) && IsDir(u, p) && u == CutEntries(t, entries, |entries|)
    requires forall e :: e in entries <==> e in t && |e| == |p| + 1 && p <= e
    ensures (forall q :: q in u && |q| == |p| + 1 ==> !(p <= q)) <==> !HasFile(t, p)
    ensures (forall q :: q in u && |q| == |p| + 1 ==> !(p <= q)) ==> forall q :: q in u && p <= q ==> q == p
  {
    hide WellFormed, HasFile, CutEntries;
    forall q | q in u && p <= q && q != p ensures HasFile(t, p) && q[..|p| + 1] in u && p <= q[..|p| + 1] {
      LeftHoldsFile(t, u, entries, p, q);
    }
    if HasFile(t, p) {
      var f := FileLeft(t, u, entries, p);
      assert f[..|p| + 1] in u;
    }
  }

  lemma HasFileAbove(t: Tree, p: Path, q: Path)
    requires p <= q && HasFile(t, q)
    ensures HasFile(t, p)
  {
    var f :| IsFile(t, f) && q <= f;
    assert p == q[..|p|] == f[..|p|];
  }

  /** What is left of an entry's subtree holds a file. */
  lemma LeftOfEntry(t: Tree, entries: seq<Path>, q: Path)
    requires q in CutEntries(t, entries, |entries|) && Hit(entries, |entries|, q)
    ensures q in t && HasFile(t, q)
  {
    hide WellFormed, Hit, HasFile;
  }

  /** What is left below p holds a file, and so does its ancestor directly inside p. */
  lemma LeftHoldsFile(t: Tree, u: Tree, entries: seq<Path>, p: Path, q: Path)
    requires WellFormed(t) && WellFormed(u) && IsDir(t, p) && u == CutEntries(t, entries, |entries|)
    requires forall e :: e in entries <==> e in t && |e| == |p| + 1 && p <= e
    requires q in u && p <= q && q != p
    ensures HasFile(t, p) && q[..|p| + 1] in u && p <= q[..|p| + 1]
  {
    hide WellFormed, Hit, HasFile;
    assert q in t;
    EntriesAreBelow(t, entries, p, q);
    LeftOfEntry(t, entries, q);
    ChildOf(u, p, q);
    HasFileAbove(t, p, q);
  }

  /** A file below p is left, with its ancestor directly inside p. */
  lemma FileLeft(t: Tree, u: Tree, entries: seq<Path>, p: Path) returns (f: Path)
    requires WellFormed(t) && WellFormed(u) && IsDir(t, p) && u == CutEntries(t, entries, |entries|) && HasFile(t, p)
    ensures f in u && p <= f && |f| > |p| && f[..|p| + 1] in u && p <= f[..|p| + 1]
  {
    hide WellFormed;
    f :| IsFile(t, f) && p <= f;
    assert HasFile(t, f) && f in u && f != p;
    assert p == f[..|p|];
    ChildOf(u, p, f);
  }

  lemma CutAll(t: Tree, entries: seq<Path>, p: Path, root: Path)
    requires WellFormed(t) && IsDir(t, p) && root <= p
    requires forall e :: e in entries <==> e in t && |e| == |p| + 1 && p <= e
    ensures p == root || HasFile(t, p) ==> CutEntries(t, entries, |entries|) == Cut(t, p, root)
    ensures p != root && !HasFile(t, p) ==> Without(CutEntries(t, entries, |entries|), p) == Cut(t, p, root)
  {
    forall q | q in t ensures Hit(entries, |entries|, q) <==> p <= q && q != p {
      EntriesAreBelow(t, entries, p, q);
    }
    forall q | q in t && p <= q && HasFile(t, q) ensures HasFile(t, p) {
      HasFileAbove(t, p, q);
    }
    if p <= root {
      assert p == root[..|p|] && root == p[..|root|];
    }
  }

  /** The recursive walk of PruneEmptyDirs. */
  method Walk(disk: Disk, p: Path, root: Path)
    requires WellFormed(disk.tree) && IsDir(disk.tree, p) && root <= p
    modifies disk
    ensures WellFormed(disk.tree) && disk.tree == Cut(old(disk.tree), p, root)
    decreases Under(disk.tree, p)
  {
    hide WellFormed, Cut, CutEntries, Hit, HasFile, Without;
    ghost var t := disk.tree;
    var entries := disk.ReadDir(p);
    CutNone(t, entries);
    for i := 0 to |entries|
      invariant WellFormed(disk.tree) && disk.tree == CutEntries(t, entries, i)
    {
      var e := entries[i];
      assert e in entries && root == e[..|root|];
      EntryStays(t, entries, i, |p| + 1);
      if disk.tree[e].Dir? {
        CutNext(t, entries, i, root);
        CutIsSmaller(t, entries, i);
        BelowShrinks(t, p, e);
        UnderMonotone(disk.tree, t, e);
        Walk(disk, e, root);
      } else {
        CutFile(t, entries, i);
      }
    }
    CutAll(t, entries, p, root);
    if p == root {
      return;
    }
    CutKeeps(t, entries, p);
    EmptyIffNoFile(t, disk.tree, entries, p);
    var rest := disk.ReadDir(p);
    if rest == [] {
      forall q | q in disk.tree && |q| == |p| + 1 ensures !(p <= q) {
        assert q !in rest;
      }
      disk.RemoveDir(p);
    } else {
      assert rest[0] in rest;
    }
  }

  lemma CutNone(t: Tree, entries: seq<Path>)
    ensures CutEntries(t, entries, 0) == t
  {
  }

  lemma CutIsSmaller(t: Tree, entries: seq<Path>, i: nat)
    requires i <= |entries|
    ensures CutEntries(t, entries, i).Keys <= t.Keys
  {
  }

  lemma UnderMonotone(u: Tree, t: Tree, e: Path)
    requires u.Keys <= t.Keys
    ensures Under(u, e) <= Under(t, e)
  {
  }

  /** The directory being walked is not below its own entries. */
  lemma CutKeeps(t: Tree, entries: seq<Path>, p: Path)
    requires WellFormed(t) && IsDir(t, p)
    requires forall e :: e in entries <==> e in t && |e| == |p| + 1 && p <= e
    ensures IsDir(CutEntries(t, entries, |entries|), p)
  {
    EntriesAreBelow(t, entries, p, p);
  }

  /** PruneEmptyDirs */
  method PruneEmptyDirs(disk: Disk, root: Path)
    requires WellFormed(disk.tree)
    modifies disk
    ensures WellFormed(disk.tree)
    ensures disk.tree == if old(IsDir(disk.tree, root)) then Cut(old(disk.tree), root, root) else old(disk.tree)
  {
    if disk.Lstat(root).Found? && disk.tree[root].Dir? {
      Walk(disk, root, root);
    }
  }

  /** What pruning does, path by path: no file goes, the root stays, nothing outside the root changes,
      and every directory left below the root holds a file. */
  lemma PruneEffect(t: Tree, root: Path)
    requires WellFormed(t)
    ensures forall f :: IsFile(t, f) ==> SameAt(t, Cut(t, root, root), f)
    ensures SameAt(t, Cut(t, root, root), root)
    ensures forall q :: !(root <= q) ==> SameAt(t, Cut(t, root, root), q)
    ensures forall q :: q in Cut(t, root, root) && root <= q && q != root ==> HasFile(Cut(t, root, root), q)
  {
    var u := Cut(t, root, root);
    forall f | IsFile(t, f) ensures SameAt(t, u, f) && IsFile(u, f) {
      assert HasFile(t, f);
    }
    hide SameAt, WellFormed;
    forall q | q in u && root <= q && q != root ensures HasFile(u, q) {
      assert HasFile(t, q);
      var f :| IsFile(t, f) && q <= f;
      assert IsFile(u, f);
    }
  }
}
