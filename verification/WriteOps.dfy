/** The operations that change the tree: writing one file, and pruning empty directories. */
module WriteOps {
  import opened FileTree
  import opened Reconcile

  /** ensureDir: d becomes a directory unless a file stands above it; a file at d itself is replaced. */
  method EnsureDir(disk: Disk, d: Path) returns (ok: bool)
    requires WellFormed(disk.tree)
    modifies disk
    ensures WellFormed(disk.tree)
    ensures ok <==> !old(Blocked(disk.tree, d))
    ensures disk.tree == if ok then WithDirs(old(disk.tree), d) else old(disk.tree)
    decreases |d|
  {
    ghost var t := disk.tree;
    match disk.Lstat(d)
    case Found(Dir) =>
      DirReady(t, d);
      return true;
    case Found(File(_, _)) =>
      FileReplaced(t, d);
      disk.RemoveAll(d);
      ok := disk.MkdirAll(d);
    case NotDir =>
      return false;
    case NotExist =>
      if |d| > 0 {
        ParentFree(t, d);
        var above := EnsureDir(disk, Parent(d));
        if !above {
          return false;
        }
      }
      ok := disk.MkdirAll(d);
  }

  /** A directory that exists has its ancestors already. */
  lemma DirReady(t: Tree, d: Path)
    requires WellFormed(t) && IsDir(t, d)
    ensures !Blocked(t, d) && WithDirs(t, d) == t
  {
    forall i | 0 <= i < |d| ensures IsDir(t, d[..i]) {
      AncestorIsDir(t, d, i);
    }
    hide WellFormed;
    assert d[..|d|] == d;
    forall q | q in Prefixes(d) ensures IsDir(t, q) {
      var i :| 0 <= i <= |d| && q == d[..i];
    }
    hide Prefixes;
  }

  lemma FileReplaced(t: Tree, d: Path)
    requires WellFormed(t) && IsFile(t, d)
    ensures !Blocked(t, d) && !Blocked(Without(t, d), d) && WithDirs(Without(t, d), d) == WithDirs(t, d)
  {
    forall i | 0 <= i < |d| ensures IsDir(t, d[..i]) {
      AncestorIsDir(t, d, i);
    }
    forall q | q in t && d <= q ensures q == d {
      FileHasNothingBelow(t, d, q);
    }
    assert d == d[..|d|];
  }

  lemma PrefixIff(p: Path, q: Path)
    ensures q in Prefixes(p) <==> q <= p
  {
    if q <= p {
      assert q == p[..|q|];
    }
  }

  lemma PrefixesParent(d: Path)
    requires |d| > 0
    ensures Prefixes(d) == Prefixes(Parent(d)) + {d}
  {
    forall q ensures q in Prefixes(d) <==> q in Prefixes(Parent(d)) + {d} {
      PrefixIff(d, q);
      PrefixIff(Parent(d), q);
      assert |q| < |d| ==> d[..|q|] == Parent(d)[..|q|];
      assert d == d[..|d|];
    }
  }

  lemma ParentFree(t: Tree, d: Path)
    requires !Blocked(t, d) && |d| > 0
    ensures !Blocked(t, Parent(d)) && !Blocked(WithDirs(t, Parent(d)), d)
    ensures WithDirs(WithDirs(t, Parent(d)), d) == WithDirs(t, d)
  {
    var a := Parent(d);
    forall i | 0 <= i < |a| ensures !IsFile(t, a[..i]) {
      assert a[..i] == d[..i];
    }
    forall i | 0 <= i < |d| ensures !IsFile(WithDirs(t, a), d[..i]) {
      WithDirsAt(t, a, d[..i]);
    }
    PrefixesParent(d);
  }

  /** The tree after a successful WriteFile of p. */
  function Written(t: Tree, p: Path, content: string, perm: nat): Tree
    requires |p| > 0
  {
    Without(WithDirs(t, Parent(p)), p)[p := File(content, perm)]
  }

  function FilePerm(mode: Mode): nat {
    if mode.Octal? then Perm(mode.bits) else 420
  }

  /** A file with the content, and the permission that the three low octal digits of the mode say, or 6, 4 and 4. */
  predicate Delivered(t: Tree, p: Path, content: string, mode: Mode) {
    && IsFile(t, p) && t[p].content == content
    && match mode
       case Octal(bits) => t[p].perm == 64 * (bits / 64 % 8) + 8 * (bits / 8 % 8) + bits % 8
       case Unset => t[p].perm == 64 * 6 + 8 * 4 + 4
       case Invalid => false
  }

  lemma WrittenDelivered(t: Tree, p: Path, content: string, mode: Mode)
    requires |p| > 0 && mode != Invalid
    ensures Delivered(Written(t, p, content, FilePerm(mode)), p, content, mode)
  {
    WrittenAt(t, p, content, FilePerm(mode), p);
    hide Written;
    if mode.Octal? {
      PermParts(mode.bits);
      hide Perm;
    }
  }

  /** WriteFile. */
  method WriteFile(disk: Disk, p: Path, content: string, mode: Mode) returns (ok: bool)
    requires WellFormed(disk.tree) && |p| > 0
    modifies disk
    ensures WellFormed(disk.tree)
    ensures ok <==> !old(Blocked(disk.tree, Parent(p))) && mode != Invalid
    ensures ok ==> disk.tree == Written(old(disk.tree), p, content, FilePerm(mode))
    ensures ok ==> Delivered(disk.tree, p, content, mode)
    ensures forall q :: !Related(p, q) ==> SameAt(old(disk.tree), disk.tree, q)
  {
    ghost var t := disk.tree;
    WriteFrame(t, p, content, FilePerm(mode));
    WithDirsAt(t, Parent(p), Parent(p));
    hide WithDirs, Without, Related, WellFormed, Blocked;
    var made := EnsureDir(disk, Parent(p));
    if !made {
      assert disk.tree == t;
      return false;
    }
    ghost var t1 := disk.tree;
    ClearTarget(disk, p, File(content, FilePerm(mode)));
    if mode.Invalid? {
      return false;
    }
    disk.Rename(p, content, FilePerm(mode));
    WrittenDelivered(t, p, content, mode);
    ok := true;
  }

  /** The part of WriteFile that removes a directory standing where the file is to go. */
  method ClearTarget(disk: Disk, p: Path, ghost f: Node)
    requires WellFormed(disk.tree) && |p| > 0 && IsDir(disk.tree, Parent(p))
    modifies disk
    ensures WellFormed(disk.tree) && !IsDir(disk.tree, p) && IsDir(disk.tree, Parent(p))
    ensures disk.tree == old(disk.tree) || disk.tree == Without(old(disk.tree), p)
    ensures disk.tree[p := f] == Without(old(disk.tree), p)[p := f]
  {
    if disk.Lstat(p).Found? && disk.tree[p].Dir? {
      disk.RemoveAll(p);
    } else {
      NothingBelow(disk.tree, p);
    }
  }

  lemma NothingBelow(t: Tree, p: Path)
    requires WellFormed(t) && !IsDir(t, p)
    ensures forall q :: q in t && p <= q ==> q == p
  {
    forall q | q in t && p <= q ensures q == p {
      assert p == q[..|p|];
      if |p| < |q| {
        AncestorIsDir(t, q, |p|);
      }
    }
  }

  lemma WriteFrame(t: Tree, p: Path, content: string, perm: nat)
    requires |p| > 0
    ensures forall q :: !Related(p, q) ==> SameAt(t, WithDirs(t, Parent(p)), q)
    ensures forall q :: !Related(p, q) ==> SameAt(t, Without(WithDirs(t, Parent(p)), p), q)
    ensures forall q :: !Related(p, q) ==> SameAt(t, Written(t, p, content, perm), q)
  {
    forall q | !Related(p, q) ensures SameAt(t, WithDirs(t, Parent(p)), q) {
      WithDirsAt(t, Parent(p), q);
    }
  }

  /** What a write leaves at each path: the file at p, directories above it, nothing below it. */
  lemma WrittenAt(t: Tree, p: Path, content: string, perm: nat, q: Path)
    requires |p| > 0
    ensures q == p ==> IsFile(Written(t, p, content, perm), q) && Written(t, p, content, perm)[q] == File(content, perm)
    ensures q <= p && q != p ==> IsDir(Written(t, p, content, perm), q)
    ensures p <= q && q != p ==> q !in Written(t, p, content, perm)
    ensures !Related(p, q) ==> SameAt(t, Written(t, p, content, perm), q)
  {
    WriteFrame(t, p, content, perm);
    if q <= p && q != p {
      assert q == Parent(p)[..|q|];
      WithDirsAt(t, Parent(p), q);
    }
  }
}
