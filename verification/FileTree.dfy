/** The directory that reconcile works on: a tree of regular files and directories keyed by path,
    and the operating-system calls it makes. A path is relative to the quadlet directory. */
module FileTree {
  import opened StringOrder

  type Path = seq<string>

  datatype Node = File(content: string, perm: nat) | Dir

  type Tree = map<Path, Node>

  /** Everything but the root hangs in a directory. */
  ghost predicate WellFormed(t: Tree) {
    forall p :: p in t && |p| > 0 ==> Parent(p) in t && t[Parent(p)].Dir?
  }

  function Parent(p: Path): Path
    requires |p| > 0
  {
    p[..|p| - 1]
  }

  predicate IsFile(t: Tree, p: Path) {
    p in t && t[p].File?
  }

  predicate IsDir(t: Tree, p: Path) {
    p in t && t[p].Dir?
  }

  /** A proper ancestor of p is a regular file. */
  predicate Blocked(t: Tree, p: Path) {
    exists i :: 0 <= i < |p| && IsFile(t, p[..i])
  }

  ghost predicate SameAt(t: Tree, t': Tree, p: Path) {
    (p in t <==> p in t') && (p in t ==> t[p] == t'[p])
  }

  /** p is an ancestor of q, a descendant of q, or q itself. */
  ghost predicate Related(p: Path, q: Path) {
    p <= q || q <= p
  }

  lemma {:induction false} AncestorIsDir(t: Tree, p: Path, i: nat)
    requires WellFormed(t) && p in t && i < |p|
    ensures IsDir(t, p[..i])
    decreases |p|
  {
    if i < |p| - 1 {
      AncestorIsDir(t, Parent(p), i);
      assert Parent(p)[..i] == p[..i];
    }
  }

  /** t without p and everything below it. */
  function Without(t: Tree, p: Path): Tree {
    map q | q in t && !(p <= q) :: t[q]
  }

  /** t with p and all its ancestors made directories. */
  function WithDirs(t: Tree, p: Path): Tree {
    t + map q | q in Prefixes(p) :: Dir
  }

  function Prefixes(p: Path): set<Path> {
    set i | 0 <= i <= |p| :: p[..i]
  }

  lemma WithDirsAt(t: Tree, p: Path, q: Path)
    ensures q <= p ==> IsDir(WithDirs(t, p), q)
    ensures !(q <= p) ==> SameAt(t, WithDirs(t, p), q)
  {
    if q <= p {
      assert q == p[..|q|];
    }
  }

  lemma WithDirsWellFormed(t: Tree, p: Path)
    requires WellFormed(t) && !Blocked(t, p)
    ensures WellFormed(WithDirs(t, p))
  {
    var t' := WithDirs(t, p);
    forall q | q in t' && |q| > 0 ensures IsDir(t', Parent(q)) {
      WithDirsAt(t, p, q);
      WithDirsAt(t, p, Parent(q));
    }
  }

  lemma WithoutWellFormed(t: Tree, p: Path)
    requires WellFormed(t)
    ensures WellFormed(Without(t, p))
  {
    var t' := Without(t, p);
    forall q | q in t' && |q| > 0 ensures IsDir(t', Parent(q)) {
      if p <= Parent(q) {
        assert p <= q;
      }
    }
  }

  datatype Stat = Found(node: Node) | NotExist | NotDir

  class Disk {
    var tree: Tree

    constructor (tree: Tree)
      ensures this.tree == tree
    {
      this.tree := tree;
    }

    /** os.Stat and os.Lstat: without symbolic links they agree. */
    function Lstat(p: Path): (r: Stat)
      reads this
      ensures r.Found? <==> p in tree
      ensures p in tree ==> r.node == tree[p]
      ensures r.NotDir? <==> p !in tree && Blocked(tree, p)
    {
      if p in tree then Found(tree[p]) else if Blocked(tree, p) then NotDir else NotExist
    }

    /** os.RemoveAll */
    method RemoveAll(p: Path)
      requires WellFormed(tree)
      modifies this
      ensures tree == Without(old(tree), p) && WellFormed(tree)
    {
      WithoutWellFormed(tree, p);
      tree := Without(tree, p);
    }

    /** os.MkdirAll */
    method MkdirAll(p: Path) returns (ok: bool)
      requires WellFormed(tree)
      modifies this
      ensures WellFormed(tree)
      ensures ok <==> !old(Blocked(tree, p)) && !old(IsFile(tree, p))
      ensures tree == if ok then WithDirs(old(tree), p) else old(tree)
    {
      ok := !Blocked(tree, p) && !IsFile(tree, p);
      if ok {
        WithDirsWellFormed(tree, p);
        tree := WithDirs(tree, p);
      }
    }

    /** Renaming a finished temporary file over p, whose parent directory exists. */
    method Rename(p: Path, content: string, perm: nat)
      requires WellFormed(tree) && |p| > 0 && IsDir(tree, Parent(p)) && !IsDir(tree, p)
      modifies this
      ensures tree == old(tree)[p := File(content, perm)] && WellFormed(tree)
    {
      ghost var before := tree;
      tree := tree[p := File(content, perm)];
      forall q | q in tree && |q| > 0 ensures IsDir(tree, Parent(q)) {
        if q != p {
          assert q in before && IsDir(before, Parent(q));
        }
      }
    }

    /** os.Remove of an empty directory. */
    method RemoveDir(p: Path)
      requires WellFormed(tree) && IsDir(tree, p) && forall q :: q in tree && p <= q ==> q == p
      modifies this
      ensures tree == Without(old(tree), p) && WellFormed(tree)
    {
      WithoutWellFormed(tree, p);
      tree := Without(tree, p);
    }

    /** os.ReadDir: the entries of a directory, by name. */
    method ReadDir(p: Path) returns (entries: seq<Path>)
      ensures forall q :: q in entries <==> q in tree && |q| == |p| + 1 && p <= q
      ensures forall i, j :: 0 <= i < j < |entries| ==> entries[i] != entries[j]
    {
      var left := set q | q in tree && |q| == |p| + 1 && p <= q;
      ghost var all := left;
      entries := [];
      while left != {}
        invariant left <= all && forall q :: q in entries <==> q in all - left
        invariant forall i, j :: 0 <= i < j < |entries| ==> entries[i] != entries[j]
        decreases left
      {
        var q :| q in left;
        assert q !in entries;
        entries, left := entries + [q], left - {q};
      }
      var unsorted := entries;
      NameOrder();
      entries := Sort(unsorted, NameLe);
      SameElems(entries, unsorted);
      DistinctPermutation(entries, unsorted);
    }
  }

  /** Paths written with slashes, as they are compared when sorted. */
  function Join(p: Path): string {
    if p == [] then "" else if |p| == 1 then p[0] else p[0] + "/" + Join(p[1..])
  }

  predicate NameLe(p: Path, q: Path) {
    Le(Join(p), Join(q))
  }

  lemma NameOrder()
    ensures Total(NameLe) && Transitive(NameLe)
  {
    LeOrders();
    forall p, q ensures NameLe(p, q) || NameLe(q, p) {
    }
    forall p, q, r | NameLe(p, q) && NameLe(q, r) ensures NameLe(p, r) {
    }
  }
}
