/** The two passes of crei apply: when a plan is idle, what the removals take, and what the writes reach. */
module Passes {
  import opened Wrappers
  import opened FileTree
  import opened StringOrder
  import opened Reconcile
  import opened WriteOps

  predicate SlashFree(p: Path) {
    forall i :: 0 <= i < |p| ==> '/' !in p[i]
  }

  /** The paths of desired files: managed, of single components. */
  ghost predicate Named(desired: Desired) {
    forall p :: p in desired ==> Managed(p) && SlashFree(p)
  }

  /** No desired path lies below another. The renderer does not see to this: two keys of a build context may nest. */
  ghost predicate PrefixFree(desired: Desired) {
    forall p, q :: p in desired && q in desired && p <= q ==> p == q
  }

  /** Desired files that a directory can hold together. */
  ghost predicate Renderable(desired: Desired) {
    Named(desired) && PrefixFree(desired)
  }

  /** A directory has the desired files only if none lies below another. */
  lemma ConvergedPrefixFree(t: Tree, desired: Desired)
    requires WellFormed(t) && Converged(t, desired)
    ensures PrefixFree(desired)
  {
    forall p, q | p in desired && q in desired && p <= q ensures p == q {
      assert Right(t, p, desired[p]) && Right(t, q, desired[q]);
      FileHasNothingBelow(t, p, q);
    }
  }

  /** The directory is what the desired files ask for. */
  ghost predicate Converged(t: Tree, desired: Desired) {
    && (forall p :: p in desired ==> Right(t, p, desired[p]))
    && ManagedFiles(t) == desired.Keys
  }

  /** Of the paths under images, one directly inside it comes before any deeper one. */
  ghost predicate ImagesFirst(desired: Desired) {
    forall p :: p in desired && |p| >= 3 ==> exists q :: q in desired && |q| == 2 && NameLe(q, p)
  }

  /** When apply succeeds: the directory is not a file, every mode parses, and a file that stands at
      images is cleared by a first write directly inside images. */
  ghost predicate Applicable(t: Tree, desired: Desired) {
    && !IsFile(t, [])
    && (forall p :: p in desired ==> desired[p].mode != Invalid)
    && (IsFile(t, IMAGES) ==> ImagesFirst(desired))
  }

  /** p is neither at, above nor below a desired path. */
  ghost predicate Unrelated(desired: Desired, q: Path) {
    forall p :: p in desired ==> !Related(p, q)
  }

  lemma ImagesUnmanaged(p: Path)
    requires Managed(p)
    ensures p != IMAGES && IsLocal(p)
    ensures |p| == 1 ==> !Related(p, IMAGES)
    ensures |p| >= 2 ==> p[..1] == IMAGES
  {
    assert Ext("images") == "" by {
      assert "images"[1..] == "mages" && "mages"[1..] == "ages" && "ages"[1..] == "ges";
    }
    assert Ext("") == "" && Ext("..") == "." by {
      assert ".."[1..] == ".";
    }
  }

  // ---------- a plan and convergence

  lemma EntryOf(changes: seq<Change>, paths: set<Path>, p: Path) returns (i: nat)
    requires OneEach(changes, paths) && p in paths
    ensures i < |changes| && changes[i].name == p
  {
    i :| 0 <= i < |changes| && changes[i].name == p;
  }

  lemma SomePath(changes: seq<Change>, paths: set<Path>)
    requires OneEach(changes, paths)
    ensures changes != [] ==> paths != {}
  {
    if changes != [] {
      assert changes[0].name in paths;
    }
  }

  lemma FirstRemoval(t: Tree, desired: Desired, changes: seq<Change>, n: nat)
    requires n <= |changes| && RemovalPart(t, desired, changes[n..])
    ensures n < |changes| ==> changes[n].action == Remove
  {
    assert n < |changes| ==> changes[n..][0] == changes[n];
  }

  lemma IdleConverges(t: Tree, desired: Desired, d: seq<Change>, r: seq<Change>)
    requires DesiredPart(t, desired, d) && RemovalPart(t, desired, r) && Named(desired)
    requires forall i :: 0 <= i < |d| ==> d[i].action == Unchanged
    requires r == []
    ensures Converged(t, desired)
  {
    forall p | p in desired ensures Right(t, p, desired[p]) {
      var i := EntryOf(d, desired.Keys, p);
    }
    hide Right, Classify;
    assert Extras(t, desired) == {};
    forall p | p in desired ensures p in ManagedFiles(t) {
      RightIsFile(t, p, desired[p]);
    }
    forall p | p in ManagedFiles(t) ensures p in desired {
      assert p !in Extras(t, desired);
    }
  }

  lemma RightIsFile(t: Tree, p: Path, df: DesiredFile)
    requires Right(t, p, df)
    ensures IsFile(t, p)
  {
  }

  lemma ConvergedIdle(t: Tree, desired: Desired, d: seq<Change>, r: seq<Change>)
    requires DesiredPart(t, desired, d) && RemovalPart(t, desired, r)
    requires Converged(t, desired)
    ensures forall i :: 0 <= i < |d| ==> d[i].action == Unchanged
    ensures r == []
  {
    assert Extras(t, desired) == {};
    SomePath(r, Extras(t, desired));
    forall i | 0 <= i < |d| ensures d[i].action == Unchanged {
      assert d[i].name in desired && Right(t, d[i].name, desired[d[i].name]);
    }
  }

  /** A plan has nothing to do exactly when the directory has converged already. */
  lemma IdleIffConverged(t: Tree, desired: Desired, changes: seq<Change>)
    requires Planned(t, desired, changes) && Named(desired)
    ensures (forall i :: 0 <= i < |changes| ==> changes[i].action == Unchanged) <==> Converged(t, desired)
  {
    hide Converged, Named, DesiredPart, RemovalPart;
    var d, r := changes[..|desired|], changes[|desired|..];
    assert changes == d + r;
    if Converged(t, desired) {
      ConvergedIdle(t, desired, d, r);
    } else if forall i :: 0 <= i < |changes| ==> changes[i].action == Unchanged {
      forall i | 0 <= i < |d| ensures d[i].action == Unchanged {
        assert changes[i].action == Unchanged;
      }
      FirstRemoval(t, desired, changes, |desired|);
      IdleConverges(t, desired, d, r);
    }
  }

  // ---------- the removal pass

  function Removed(changes: seq<Change>): set<Path> {
    set c | c in changes && c.action == Remove :: c.name
  }

  function Minus(t: Tree, gone: set<Path>): Tree {
    map q | q in t && q !in gone :: t[q]
  }

  /** applyPass(true): it deletes single regular files and nothing else. */
  method RemovePass(disk: Disk, changes: seq<Change>)
    requires WellFormed(disk.tree)
    requires forall c :: c in changes && c.action == Remove ==> IsFile(disk.tree, c.name)
    modifies disk
    ensures WellFormed(disk.tree) && disk.tree == Minus(old(disk.tree), Removed(changes))
  {
    ghost var t := disk.tree;
    RemovedNone(t);
    hide WellFormed, Minus, Removed, Without, IsFile;
    for i := 0 to |changes|
      invariant WellFormed(disk.tree) && disk.tree == Minus(t, Removed(changes[..i]))
    {
      var c := changes[i];
      assert c in changes && changes[..i + 1] == changes[..i] + [c];
      RemovedNext(changes[..i], c);
      if c.action == Remove {
        RemoveOne(t, Removed(changes[..i]), c.name);
        disk.RemoveAll(c.name);
      }
    }
    assert changes[..|changes|] == changes;
  }

  lemma RemovedNone(t: Tree)
    ensures Minus(t, Removed([])) == t
  {
  }

  lemma RemoveOne(t: Tree, gone: set<Path>, p: Path)
    requires WellFormed(t) && IsFile(t, p)
    ensures Without(Minus(t, gone), p) == Minus(t, gone + {p})
  {
    forall q | q in t && p <= q ensures q == p {
      FileHasNothingBelow(t, p, q);
    }
  }

  lemma RemovedNext(changes: seq<Change>, c: Change)
    ensures Removed(changes + [c]) == Removed(changes) + if c.action == Remove then {c.name} else {}
  {
    forall x ensures x in Removed(changes + [c]) <==> x in Removed(changes) || (c.action == Remove && x == c.name) {
      if x in Removed(changes) {
        var d :| d in changes && d.action == Remove && d.name == x;
        assert d in changes + [c];
      }
      if c.action == Remove && x == c.name {
        assert c in changes + [c];
      }
    }
  }

  lemma RemovedIsExtras(t: Tree, desired: Desired, changes: seq<Change>)
    requires Planned(t, desired, changes)
    ensures Removed(changes) == Extras(t, desired)
    ensures forall c :: c in changes && c.action == Remove ==> IsFile(t, c.name)
  {
    var d, r := changes[..|desired|], changes[|desired|..];
    assert changes == d + r;
    forall p | p in Extras(t, desired) ensures p in Removed(changes) {
      var i := EntryOf(r, Extras(t, desired), p);
      assert r[i] in changes;
    }
    forall c | c in changes && c.action == Remove ensures c.name in Extras(t, desired) {
      if c in d {
        assert false;
      }
      var i :| 0 <= i < |r| && r[i] == c;
    }
  }

  // ---------- the write pass

  predicate IsWrite(c: Change) {
    c.action == Add || c.action == Update
  }

  /** A desired path under images is among the first i entries. */
  ghost predicate ImagesWritten(d: seq<Change>, i: nat) {
    exists j :: 0 <= j < i && j < |d| && |d[j].name| >= 2
  }

  /** The tree t during the write pass that started in t1, after the first i entries; d is the part of the
      plan for desired files. */
  ghost predicate Progress(t1: Tree, t: Tree, desired: Desired, d: seq<Change>, i: nat) {
    && WellFormed(t) && !IsFile(t, [])
    && (forall j :: 0 <= j < |d| && (j < i || !IsWrite(d[j])) ==>
        d[j].name in desired && Right(t, d[j].name, desired[d[j].name]))
    && (forall q :: IsFile(t, q) && Managed(q) ==> q in desired)
    && (forall q :: Unrelated(desired, q) ==> SameAt(t1, t, q))
    && (IsFile(t, IMAGES) <==> IsFile(t1, IMAGES) && !ImagesWritten(d, i))
  }

  /** Every deep path written so far was preceded by one directly inside images, if images was a file. */
  ghost predicate Cleared(t1: Tree, d: seq<Change>, i: nat) {
    IsFile(t1, IMAGES) ==>
      forall m :: 0 <= m < i && m < |d| && |d[m].name| >= 3 ==> exists j :: 0 <= j < m && |d[j].name| == 2
  }

  lemma DeepPrefix(p: Path, i: nat)
    requires Managed(p) && 2 <= i < |p|
    ensures Managed(p[..i]) && p[..i] <= p && p[..i] != p
  {
  }

  lemma BlockedIff(t: Tree, desired: Desired, p: Path)
    requires Renderable(desired) && p in desired && !IsFile(t, [])
    requires forall q :: IsFile(t, q) && Managed(q) ==> q in desired
    ensures Blocked(t, Parent(p)) <==> |p| >= 3 && IsFile(t, IMAGES)
  {
    ImagesUnmanaged(p);
    var a := Parent(p);
    if |p| >= 3 && IsFile(t, IMAGES) {
      assert a[..1] == IMAGES;
    }
    forall i | 2 <= i < |a| ensures !IsFile(t, a[..i]) {
      assert a[..i] == p[..i];
      DeepPrefix(p, i);
    }
    if Blocked(t, a) {
      assert a[..1] == p[..1];
    }
  }

  /** What one write does to every other path. */
  ghost predicate WroteAt(t: Tree, t': Tree, p: Path, df: DesiredFile) {
    && IsFile(t', p) && t'[p] == File(df.content, FilePerm(df.mode))
    && (forall q :: !Related(p, q) ==> SameAt(t, t', q))
    && (forall q :: IsFile(t', q) && q != p ==> !Related(p, q))
  }

  lemma WroteWritten(t: Tree, p: Path, df: DesiredFile)
    requires |p| > 0
    ensures WroteAt(t, Written(t, p, df.content, FilePerm(df.mode)), p, df)
  {
    var t' := Written(t, p, df.content, FilePerm(df.mode));
    hide Written;
    forall q ensures (q == p ==> IsFile(t', q) && t'[q] == File(df.content, FilePerm(df.mode)))
                     && (!Related(p, q) ==> SameAt(t, t', q))
                     && (IsFile(t', q) && q != p ==> !Related(p, q)) {
      WrittenAt(t, p, df.content, FilePerm(df.mode), q);
    }
  }

  lemma WriteRight(t: Tree, t': Tree, desired: Desired, d: seq<Change>, i: nat, j: nat)
    requires Renderable(desired) && OneEach(d, desired.Keys) && i < |d| && j < |d| && d[i].name in desired
    requires WroteAt(t, t', d[i].name, desired[d[i].name]) && desired[d[i].name].mode != Invalid
    requires d[j].name in desired && (j == i || Right(t, d[j].name, desired[d[j].name]))
    ensures Right(t', d[j].name, desired[d[j].name])
  {
    if j != i {
      assert d[j].name != d[i].name;
      assert !Related(d[i].name, d[j].name);
      assert SameAt(t, t', d[j].name);
    }
  }

  lemma WriteImages(t1: Tree, t: Tree, t': Tree, desired: Desired, d: seq<Change>, i: nat)
    requires i < |d| && Managed(d[i].name) && d[i].name in desired
    requires WroteAt(t, t', d[i].name, desired[d[i].name])
    requires IsFile(t, IMAGES) <==> IsFile(t1, IMAGES) && !ImagesWritten(d, i)
    ensures IsFile(t', IMAGES) <==> IsFile(t1, IMAGES) && !ImagesWritten(d, i + 1)
  {
    var p := d[i].name;
    ImagesUnmanaged(p);
    if |p| >= 2 {
      assert IMAGES <= p && ImagesWritten(d, i + 1);
    } else {
      assert SameAt(t, t', IMAGES);
      assert ImagesWritten(d, i) <==> ImagesWritten(d, i + 1);
    }
  }

  lemma WriteKeeps(t1: Tree, t: Tree, t': Tree, desired: Desired, d: seq<Change>, i: nat)
    requires Renderable(desired) && OneEach(d, desired.Keys) && Progress(t1, t, desired, d, i) && i < |d|
    requires d[i].name in desired && desired[d[i].name].mode != Invalid
    requires WellFormed(t') && WroteAt(t, t', d[i].name, desired[d[i].name])
    ensures Progress(t1, t', desired, d, i + 1)
  {
    hide WellFormed, Right, OneEach;
    forall j | 0 <= j < |d| && (j < i + 1 || !IsWrite(d[j]))
      ensures d[j].name in desired && Right(t', d[j].name, desired[d[j].name])
    {
      WriteRight(t, t', desired, d, i, j);
    }
    WriteImages(t1, t, t', desired, d, i);
    hide ImagesWritten, Managed;
  }

  /** No file stands where a removal has been planned any more, so the write pass can start. */
  lemma ProgressStart(t0: Tree, desired: Desired, d: seq<Change>)
    requires WellFormed(t0) && WellFormed(Minus(t0, Extras(t0, desired)))
    requires Renderable(desired) && DesiredPart(t0, desired, d) && !IsFile(t0, [])
    ensures Progress(Minus(t0, Extras(t0, desired)), Minus(t0, Extras(t0, desired)), desired, d, 0)
  {
    var t := Minus(t0, Extras(t0, desired));
    hide Ext, EXTENSIONS;
    forall j | 0 <= j < |d| && !IsWrite(d[j]) ensures d[j].name in desired && Right(t, d[j].name, desired[d[j].name]) {
      assert d[j].name in desired;
      RightStays(t0, t, d[j].name, desired[d[j].name]);
    }
    hide WellFormed, Right, Classify, OneEach, Renderable;
  }

  lemma RightStays(t: Tree, t': Tree, p: Path, df: DesiredFile)
    requires SameAt(t, t', p)
    ensures Right(t, p, df) <==> Right(t', p, df)
  {
  }

  /** An entry that is not a write leaves the tree as it is. */
  lemma SkipKeeps(t1: Tree, t: Tree, desired: Desired, d: seq<Change>, i: nat)
    requires Progress(t1, t, desired, d, i)
        && (i < |d| ==> !IsWrite(d[i]) && (|d[i].name| >= 2 ==> !IsFile(t1, IMAGES)))
    ensures Progress(t1, t, desired, d, i + 1)
  {
    hide WellFormed, Right, Unrelated, SameAt, Managed;
  }

  /** While images is a file, nothing under it is on disk, so every desired path under it is a write. */
  lemma UnderFileIsWrite(t1: Tree, desired: Desired, d: seq<Change>, j: nat)
    requires WellFormed(t1) && Progress(t1, t1, desired, d, 0) && j < |d| && IsFile(t1, IMAGES)
    requires Managed(d[j].name) && |d[j].name| >= 2
    ensures IsWrite(d[j])
  {
    var p := d[j].name;
    ImagesUnmanaged(p);
    if !IsWrite(d[j]) {
      AncestorIsDir(t1, p, 1);
    }
  }

  // ---------- when a write is blocked

  function Slashes(s: string): nat {
    if s == "" then 0 else (if s[0] == '/' then 1 else 0) + Slashes(s[1..])
  }

  lemma {:induction false} SlashesConcat(a: string, b: string)
    ensures Slashes(a + b) == Slashes(a) + Slashes(b)
  {
    if a == "" {
      assert a + b == b;
    } else {
      SlashesConcat(a[1..], b);
      assert (a + b)[1..] == a[1..] + b;
    }
  }

  lemma {:induction false} NoSlashes(s: string)
    requires '/' !in s
    ensures Slashes(s) == 0
  {
    if s != "" {
      NoSlashes(s[1..]);
    }
  }

  /** A name shows how deep its path is. */
  lemma {:induction false} JoinSlashes(p: Path)
    requires SlashFree(p) && |p| > 0
    ensures Slashes(Join(p)) == |p| - 1
  {
    NoSlashes(p[0]);
    if |p| > 1 {
      JoinSlashes(p[1..]);
      SlashesConcat(p[0] + "/", Join(p[1..]));
      SlashesConcat(p[0], "/");
      assert Slashes("/") == 1;
    }
  }

  lemma NamesDiffer(p: Path, q: Path)
    requires SlashFree(p) && SlashFree(q) && |p| > 0 && |q| > 0 && |p| != |q|
    ensures !(NameLe(p, q) && NameLe(q, p))
  {
    JoinSlashes(p);
    JoinSlashes(q);
    if NameLe(p, q) && NameLe(q, p) {
      LeAntisymmetric(Join(p), Join(q));
    }
  }

  /** A deep path that comes before every path directly inside images is not preceded by one. */
  lemma BlockedNotFirst(desired: Desired, d: seq<Change>, i: nat)
    requires Renderable(desired) && OneEach(d, desired.Keys) && i < |d| && |d[i].name| >= 3
    requires forall j :: 0 <= j < i ==> |d[j].name| < 2
    ensures !ImagesFirst(desired)
  {
    var p := d[i].name;
    assert p in desired;
    forall q | q in desired && |q| == 2 ensures !NameLe(q, p) {
      var j := EntryOf(d, desired.Keys, q);
      assert i < j && NameLe(d[i].name, d[j].name);
      NamesDiffer(p, q);
    }
  }

  /** A write of a path fails only if the apply could not have succeeded. */
  lemma WriteFails(t1: Tree, t: Tree, desired: Desired, d: seq<Change>, i: nat)
    requires Renderable(desired) && OneEach(d, desired.Keys) && Progress(t1, t, desired, d, i) && i < |d|
    requires d[i].name in desired
    requires Blocked(t, Parent(d[i].name)) || desired[d[i].name].mode == Invalid
    ensures !Applicable(t1, desired)
  {
    if desired[d[i].name].mode != Invalid {
      BlockedIff(t, desired, d[i].name);
      BlockedNotFirst(desired, d, i);
    }
  }

  lemma ShallowBefore(d: seq<Change>, i: nat)
    requires i < |d| && ImagesWritten(d, i)
    requires forall m :: 0 <= m < i && |d[m].name| >= 3 ==> exists j :: 0 <= j < m && |d[j].name| == 2
    ensures exists j :: 0 <= j < i && |d[j].name| == 2
  {
    var j :| 0 <= j < i && j < |d| && |d[j].name| >= 2;
    if |d[j].name| >= 3 {
      var k :| 0 <= k < j && |d[k].name| == 2;
    }
  }

  lemma ClearedNext(t1: Tree, t: Tree, desired: Desired, d: seq<Change>, i: nat)
    requires Renderable(desired) && Progress(t1, t, desired, d, i) && Cleared(t1, d, i) && i < |d|
    requires d[i].name in desired && !Blocked(t, Parent(d[i].name))
    ensures Cleared(t1, d, i + 1)
  {
    BlockedIff(t, desired, d[i].name);
    hide WellFormed, Right, Unrelated, SameAt, Managed, ImagesWritten;
    if IsFile(t1, IMAGES) && |d[i].name| >= 3 {
      ShallowBefore(d, i);
    }
  }

  lemma ClearedFirst(t1: Tree, desired: Desired, d: seq<Change>)
    requires OneEach(d, desired.Keys) && Cleared(t1, d, |d|) && IsFile(t1, IMAGES)
    ensures ImagesFirst(desired)
  {
    forall p | p in desired && |p| >= 3 ensures exists q :: q in desired && |q| == 2 && NameLe(q, p) {
      var m := EntryOf(d, desired.Keys, p);
      var j :| 0 <= j < m && |d[j].name| == 2;
      assert d[j].name in desired && NameLe(d[j].name, d[m].name);
    }
  }

  lemma Wrote(t1: Tree, t: Tree, t': Tree, desired: Desired, d: seq<Change>, i: nat)
    requires Renderable(desired) && OneEach(d, desired.Keys) && Progress(t1, t, desired, d, i) && Cleared(t1, d, i)
    requires i < |d| && d[i].name in desired && |d[i].name| > 0
    requires desired[d[i].name].mode != Invalid && !Blocked(t, Parent(d[i].name)) && WellFormed(t')
    requires t' == Written(t, d[i].name, desired[d[i].name].content, FilePerm(desired[d[i].name].mode))
    ensures Progress(t1, t', desired, d, i + 1) && Cleared(t1, d, i + 1)
  {
    hide Progress, Cleared, Written, OneEach, Renderable, WellFormed, WroteAt, Blocked;
    ClearedNext(t1, t, desired, d, i);
    WroteWritten(t, d[i].name, desired[d[i].name]);
    WriteKeeps(t1, t, t', desired, d, i);
  }

  lemma ClearedStart(t1: Tree, d: seq<Change>)
    ensures Cleared(t1, d, 0)
  {
  }

  lemma EntryFacts(t0: Tree, desired: Desired, changes: seq<Change>, i: nat)
    requires Planned(t0, desired, changes) && Named(desired) && i < |changes|
    ensures OneEach(changes[..|desired|], desired.Keys)
    ensures |desired| <= |changes|
    ensures i < |desired| ==>
        var c := changes[i]; c.name in desired && c.action != Remove && |c.name| > 0 && Managed(c.name)
    ensures i < |desired| && IsWrite(changes[i]) ==>
              var df := desired[changes[i].name]; changes[i].content == df.content && changes[i].mode == df.mode
    ensures i < |desired| && !IsWrite(changes[i]) ==> desired[changes[i].name].mode != Invalid
    ensures i >= |desired| ==> changes[i].action == Remove
  {
    var d, r := changes[..|desired|], changes[|desired|..];
    if i < |desired| {
      assert d[i] == changes[i];
    } else {
      assert changes[i] == r[i - |desired|];
    }
  }

  lemma Skip(t1: Tree, t: Tree, desired: Desired, d: seq<Change>, i: nat)
    requires WellFormed(t1) && Progress(t1, t1, desired, d, 0)
    requires Progress(t1, t, desired, d, i) && Cleared(t1, d, i)
    requires i < |d| ==> !IsWrite(d[i]) && Managed(d[i].name)
    ensures Progress(t1, t, desired, d, i + 1) && Cleared(t1, d, i + 1)
  {
    if i < |d| && |d[i].name| >= 2 && IsFile(t1, IMAGES) {
      UnderFileIsWrite(t1, desired, d, i);
    }
    SkipKeeps(t1, t, desired, d, i);
  }

  lemma Done(t1: Tree, desired: Desired, d: seq<Change>, n: nat)
    requires Progress(t1, t1, desired, d, 0) && Cleared(t1, d, n) && n >= |d| && OneEach(d, desired.Keys)
    requires forall j :: 0 <= j < |d| ==> d[j].name in desired && desired[d[j].name].mode != Invalid
    ensures Applicable(t1, desired)
  {
    if IsFile(t1, IMAGES) {
      ClearedFirst(t1, desired, d);
    }
    forall p | p in desired ensures desired[p].mode != Invalid {
      var i := EntryOf(d, desired.Keys, p);
    }
  }

  lemma DesiredEntries(t0: Tree, desired: Desired, changes: seq<Change>)
    requires Planned(t0, desired, changes)
    ensures |desired| <= |changes|
    ensures var d := changes[..|desired|]; OneEach(d, desired.Keys) && DesiredPart(t0, desired, d)
    ensures forall j :: 0 <= j < |desired| ==> changes[j].name in desired
  {
    var d := changes[..|desired|];
    forall j | 0 <= j < |desired| ensures changes[j].name in desired {
      assert d[j] == changes[j];
    }
  }

  /** Where the write pass stands after i entries of the plan made for t0. */
  ghost predicate WriteState(t0: Tree, t1: Tree, t: Tree, desired: Desired, changes: seq<Change>, i: nat) {
    && Planned(t0, desired, changes) && Renderable(desired) && WellFormed(t)
    && (var d := changes[..|desired|];
        && Progress(t1, t, desired, d, i) && Cleared(t1, d, i)
        && forall j :: 0 <= j < i && j < |d| ==> d[j].name in desired && desired[d[j].name].mode != Invalid)
  }

  /** One entry of the write pass: None when the write is blocked or its mode does not parse. */
  ghost function WriteOne(t: Tree, c: Change): Option<Tree> {
    if !IsWrite(c) || c.name == [] then Some(t)
    else if Blocked(t, Parent(c.name)) || c.mode == Invalid then None
    else Some(Written(t, c.name, c.content, FilePerm(c.mode)))
  }

  /** What the first n entries make of the tree t. */
  ghost function WriteAll(t: Tree, changes: seq<Change>, n: nat): Option<Tree>
    requires n <= |changes|
  {
    if n == 0 then Some(t)
    else match WriteAll(t, changes, n - 1)
      case None => None
      case Some(u) => WriteOne(u, changes[n - 1])
  }

  lemma {:induction false} WriteAllStops(t: Tree, changes: seq<Change>, i: nat, n: nat)
    requires i <= n <= |changes| && WriteAll(t, changes, i).None?
    ensures WriteAll(t, changes, n).None?
  {
    if i < n {
      WriteAllStops(t, changes, i, n - 1);
    }
  }

  ghost predicate AnyWrite(changes: seq<Change>, n: nat) {
    exists j :: 0 <= j < n && j < |changes| && IsWrite(changes[j])
  }

  /** Some path that is written is right in t. */
  ghost predicate SomeRight(t: Tree, desired: Desired, changes: seq<Change>, n: nat) {
    exists j :: 0 <= j < n && j < |changes| && IsWrite(changes[j])
                && changes[j].name in desired && Right(t, changes[j].name, desired[changes[j].name])
  }

  /** A file of t that is not desired was there before, as it is. */
  ghost predicate NoStray(t1: Tree, t: Tree, desired: Desired) {
    forall q :: IsFile(t, q) && q !in desired ==> SameAt(t1, t, q)
  }

  /** The write pass after i entries, for any named paths: the last path written is right, nothing unrelated has
      changed, and if no path lies below another all that is said of WriteState. */
  ghost predicate Passing(t0: Tree, t1: Tree, t: Tree, desired: Desired, changes: seq<Change>, i: nat) {
    && Planned(t0, desired, changes) && Named(desired) && WellFormed(t) && i <= |changes|
    && WriteAll(t1, changes, i) == Some(t)
    && (forall q :: Unrelated(desired, q) ==> SameAt(t1, t, q)) && NoStray(t1, t, desired)
    && (if AnyWrite(changes, i) then SomeRight(t, desired, changes, i) else t == t1)
    && (PrefixFree(desired) ==> WriteState(t0, t1, t, desired, changes, i))
  }

  lemma PassingFacts(t0: Tree, t1: Tree, t: Tree, desired: Desired, changes: seq<Change>, i: nat)
    requires i < |changes| && Passing(t0, t1, t, desired, changes, i)
    ensures Planned(t0, desired, changes) && Named(desired) && WellFormed(t) && |desired| <= |changes|
    ensures PrefixFree(desired) ==> WriteState(t0, t1, t, desired, changes, i)
    ensures forall q :: Unrelated(desired, q) ==> SameAt(t1, t, q)
    ensures var c := changes[i];
            if IsWrite(c) then
              |c.name| > 0 && c.name in desired && c.content == desired[c.name].content
                  && c.mode == desired[c.name].mode
            else WriteOne(t, c) == Some(t)
  {
    hide Planned, Named, WriteState, PrefixFree, Right, WriteAll, AnyWrite, SomeRight, NoStray, Unrelated, Written,
        Managed;
    EntryFacts(t0, desired, changes, i);
  }

  /** A write goes through. */
  lemma PassingWrite(t0: Tree, t1: Tree, t: Tree, t': Tree, desired: Desired, changes: seq<Change>, i: nat)
    requires i < |changes| && Passing(t0, t1, t, desired, changes, i) && IsWrite(changes[i])
    requires var c := changes[i];
             && |c.name| > 0 && c.name in desired && c.content == desired[c.name].content
                 && c.mode == desired[c.name].mode
             && c.mode != Invalid && !Blocked(t, Parent(c.name))
             && t' == Written(t, c.name, c.content, FilePerm(c.mode))
    requires WellFormed(t') && forall q :: Unrelated(desired, q) ==> SameAt(t1, t', q)
    requires PrefixFree(desired) ==> WriteState(t0, t1, t', desired, changes, i + 1)
    ensures Passing(t0, t1, t', desired, changes, i + 1)
  {
    assert WriteOne(t, changes[i]) == Some(t');
    hide NoStray, Written, Planned, Named, WellFormed, WriteState, WriteOne, Blocked, PrefixFree, WriteAll, AnyWrite,
        SomeRight, Unrelated, IsWrite, SameAt, FilePerm;
    NewRight(t, t', desired, changes, i);
    NextAll(t1, t, t', changes, i);
    NoStrayNext(t1, t, t', desired, changes[i].name);
  }

  lemma NoStrayNext(t1: Tree, t: Tree, t': Tree, desired: Desired, p: Path)
    requires NoStray(t1, t, desired) && p in desired && |p| > 0
    requires t' == Written(t, p, desired[p].content, FilePerm(desired[p].mode))
    ensures NoStray(t1, t', desired)
  {
    WroteWritten(t, p, desired[p]);
    hide Written, Related;
    forall q | IsFile(t', q) && q !in desired ensures SameAt(t1, t', q) {
      assert SameAt(t, t', q);
    }
  }

  lemma NewRight(t: Tree, t': Tree, desired: Desired, changes: seq<Change>, i: nat)
    requires i < |changes| && IsWrite(changes[i])
    requires var c := changes[i];
             && |c.name| > 0 && c.name in desired && c.content == desired[c.name].content
                 && c.mode == desired[c.name].mode
             && c.mode != Invalid && t' == Written(t, c.name, c.content, FilePerm(c.mode))
    ensures SomeRight(t', desired, changes, i + 1) && AnyWrite(changes, i + 1)
  {
    var c := changes[i];
    WrittenAt(t, c.name, c.content, FilePerm(c.mode), c.name);
    hide Written, IsWrite;
    assert Right(t', c.name, desired[c.name]);
  }

  lemma NextAll(t1: Tree, t: Tree, t': Tree, changes: seq<Change>, i: nat)
    requires i < |changes| && WriteAll(t1, changes, i) == Some(t) && WriteOne(t, changes[i]) == Some(t')
    ensures WriteAll(t1, changes, i + 1) == Some(t')
  {
    hide WriteOne;
  }

  /** An entry that is no write is passed over. */
  lemma PassingSkip(t0: Tree, t1: Tree, t: Tree, desired: Desired, changes: seq<Change>, i: nat)
    requires i < |changes| && Passing(t0, t1, t, desired, changes, i) && !IsWrite(changes[i])
    requires PrefixFree(desired) ==> WriteState(t0, t1, t, desired, changes, i + 1)
    ensures Passing(t0, t1, t, desired, changes, i + 1)
  {
    hide Planned, Named, WellFormed, WriteState, PrefixFree, IsWrite, Right;
    SkipWrites(t, desired, changes, i);
  }

  lemma SkipWrites(t: Tree, desired: Desired, changes: seq<Change>, i: nat)
    requires i < |changes| && !IsWrite(changes[i])
    ensures AnyWrite(changes, i + 1) <==> AnyWrite(changes, i)
    ensures SomeRight(t, desired, changes, i + 1) <==> SomeRight(t, desired, changes, i)
  {
    hide IsWrite, Right;
  }

  lemma FrameOf(t1: Tree, t: Tree, t': Tree, desired: Desired, p: Path)
    requires p in desired && forall q :: Unrelated(desired, q) ==> SameAt(t1, t, q)
    requires forall q :: !Related(p, q) ==> SameAt(t, t', q)
    ensures forall q :: Unrelated(desired, q) ==> SameAt(t1, t', q)
  {
    forall q | Unrelated(desired, q) ensures SameAt(t1, t', q) {
      assert SameAt(t1, t, q) && !Related(p, q);
    }
  }

  /** One write of files of which none lies below another. */
  lemma FreeWrite(t0: Tree, t1: Tree, t: Tree, t': Tree, desired: Desired, changes: seq<Change>, i: nat)
    requires i < |changes| && WriteState(t0, t1, t, desired, changes, i) && IsWrite(changes[i]) && WellFormed(t')
    requires var c := changes[i];
             && |c.name| > 0 && c.mode != Invalid && !Blocked(t, Parent(c.name))
             && t' == Written(t, c.name, c.content, FilePerm(c.mode))
    ensures WriteState(t0, t1, t', desired, changes, i + 1)
  {
    hide *;
    WriteStateFacts(t0, t1, t, desired, changes, i);
    WriteIsDesired(changes[i]);
    Wrote(t1, t, t', desired, changes[..|desired|], i);
    WriteStateNext(t0, t1, t, t', desired, changes, i);
  }

  lemma WriteIsDesired(c: Change)
    ensures IsWrite(c) <==> c.action == Add || c.action == Update
  {
  }

  lemma FreeSkip(t0: Tree, t1: Tree, t: Tree, desired: Desired, changes: seq<Change>, i: nat)
    requires i < |changes| && WriteState(t0, t1, t, desired, changes, i) && !IsWrite(changes[i]) && WellFormed(t1)
    requires |desired| <= |changes| && Progress(t1, t1, desired, changes[..|desired|], 0)
    ensures WriteState(t0, t1, t, desired, changes, i + 1)
  {
    hide *;
    WriteStateFacts(t0, t1, t, desired, changes, i);
    WriteIsDesired(changes[i]);
    Skip(t1, t, desired, changes[..|desired|], i);
    WriteStateNext(t0, t1, t, t, desired, changes, i);
  }

  lemma FreeFails(t0: Tree, t1: Tree, t: Tree, desired: Desired, changes: seq<Change>, i: nat)
    requires i < |changes| && WriteState(t0, t1, t, desired, changes, i) && IsWrite(changes[i]) && |changes[i].name| > 0
    requires Blocked(t, Parent(changes[i].name)) || changes[i].mode == Invalid
    ensures !Applicable(t1, desired)
  {
    hide *;
    WriteStateFacts(t0, t1, t, desired, changes, i);
    WriteIsDesired(changes[i]);
    WriteFails(t1, t, desired, changes[..|desired|], i);
  }

  lemma OneFails(t: Tree, c: Change)
    requires IsWrite(c) && |c.name| > 0 && (Blocked(t, Parent(c.name)) || c.mode == Invalid)
    ensures WriteOne(t, c).None?
  {
  }

  /** The body of applyPass(false) for one entry. */
  method WriteEntry(disk: Disk, changes: seq<Change>, i: nat, ghost t0: Tree, ghost t1: Tree, ghost desired: Desired)
    returns (ok: bool)
    requires i < |changes| && Passing(t0, t1, disk.tree, desired, changes, i) && WellFormed(t1)
    requires |desired| <= |changes| && (PrefixFree(desired) ==> Progress(t1, t1, desired, changes[..|desired|], 0))
    modifies disk
    ensures WellFormed(disk.tree)
    ensures ok ==> Passing(t0, t1, disk.tree, desired, changes, i + 1)
    ensures !ok ==> WriteOne(old(disk.tree), changes[i]).None? && (PrefixFree(desired) ==> !Applicable(t1, desired))
    ensures forall q :: Unrelated(desired, q) ==> SameAt(t1, disk.tree, q)
  {
    hide *;
    var c := changes[i];
    ghost var t := disk.tree;
    PassingFacts(t0, t1, t, desired, changes, i);
    WriteIsDesired(c);
    if c.action == Add || c.action == Update {
      ok := WriteFile(disk, c.name, c.content, c.mode);
      FrameOf(t1, t, disk.tree, desired, c.name);
      if ok {
        if PrefixFree(desired) {
          FreeWrite(t0, t1, t, disk.tree, desired, changes, i);
        }
        PassingWrite(t0, t1, t, disk.tree, desired, changes, i);
      } else {
        OneFails(t, c);
        if PrefixFree(desired) {
          FreeFails(t0, t1, t, desired, changes, i);
        }
      }
    } else {
      ok := true;
      if PrefixFree(desired) {
        FreeSkip(t0, t1, t, desired, changes, i);
      }
      PassingSkip(t0, t1, t, desired, changes, i);
    }
  }

  lemma WriteStateFacts(t0: Tree, t1: Tree, t: Tree, desired: Desired, changes: seq<Change>, i: nat)
    requires i < |changes| && WriteState(t0, t1, t, desired, changes, i)
    ensures |desired| <= |changes| && Renderable(desired) && WellFormed(t)
    ensures var d := changes[..|desired|];
            OneEach(d, desired.Keys) && Progress(t1, t, desired, d, i) && Cleared(t1, d, i)
    ensures forall q :: Unrelated(desired, q) ==> SameAt(t1, t, q)
    ensures var c := changes[i];
            if i < |desired| then
              && c.name in desired && c.action != Remove && |c.name| > 0 && Managed(c.name)
              && (if c.action == Add || c.action == Update
                  then IsWrite(c) && c.content == desired[c.name].content && c.mode == desired[c.name].mode
                  else !IsWrite(c) && desired[c.name].mode != Invalid)
            else c.action == Remove
  {
    EntryFacts(t0, desired, changes, i);
    ProgressFrame(t1, t, desired, changes[..|desired|], i);
  }

  lemma WriteStateNext(t0: Tree, t1: Tree, t: Tree, t': Tree, desired: Desired, changes: seq<Change>, i: nat)
    requires i < |changes| && WriteState(t0, t1, t, desired, changes, i) && WellFormed(t')
    requires |desired| <= |changes|
    requires Progress(t1, t', desired, changes[..|desired|], i + 1) && Cleared(t1, changes[..|desired|], i + 1)
    requires i < |desired| ==> changes[i].name in desired && desired[changes[i].name].mode != Invalid
    ensures WriteState(t0, t1, t', desired, changes, i + 1)
  {
    hide Planned, Renderable, WellFormed, Progress, Cleared;
  }

  /** applyPass(false) */
  method WritePass(disk: Disk, changes: seq<Change>, ghost t0: Tree, ghost desired: Desired) returns (ok: bool)
    requires WellFormed(t0) && !IsFile(t0, []) && Named(desired) && Planned(t0, desired, changes)
    requires disk.tree == Minus(t0, Extras(t0, desired)) && WellFormed(disk.tree)
    modifies disk
    ensures WellFormed(disk.tree)
    ensures forall q :: Unrelated(desired, q) ==> SameAt(old(disk.tree), disk.tree, q)
    ensures ok ==> NoStray(old(disk.tree), disk.tree, desired)
    ensures ok <==> WriteAll(old(disk.tree), changes, |changes|).Some?
    ensures ok ==> Passing(t0, old(disk.tree), disk.tree, desired, changes, |changes|)
    ensures PrefixFree(desired) ==> (ok <==> Applicable(old(disk.tree), desired))
    ensures PrefixFree(desired) && ok ==>
              |desired| <= |changes| && Progress(old(disk.tree), disk.tree, desired, changes[..|desired|], |changes|)
  {
    hide *;
    ghost var t1 := disk.tree;
    WriteStart(t0, t1, desired, changes);
    for i := 0 to |changes|
      invariant WellFormed(disk.tree) && Passing(t0, t1, disk.tree, desired, changes, i)
      invariant forall q :: Unrelated(desired, q) ==> SameAt(t1, disk.tree, q)
    {
      ghost var t := disk.tree;
      ok := WriteEntry(disk, changes, i, t0, t1, desired);
      if !ok {
        Stopped(t0, t1, t, desired, changes, i);
        return;
      }
    }
    ok := true;
    AllPassed(t0, t1, disk.tree, desired, changes);
    if PrefixFree(desired) {
      AllWritten(t0, t1, disk.tree, desired, changes);
    }
  }

  lemma Stopped(t0: Tree, t1: Tree, t: Tree, desired: Desired, changes: seq<Change>, i: nat)
    requires i < |changes| && Passing(t0, t1, t, desired, changes, i) && WriteOne(t, changes[i]).None?
    ensures WriteAll(t1, changes, |changes|).None?
  {
    hide Planned, WriteOne, WriteState;
    WriteAllStops(t1, changes, i + 1, |changes|);
  }

  lemma AllPassed(t0: Tree, t1: Tree, t: Tree, desired: Desired, changes: seq<Change>)
    requires Passing(t0, t1, t, desired, changes, |changes|)
    ensures WriteAll(t1, changes, |changes|) == Some(t) && NoStray(t1, t, desired)
    ensures PrefixFree(desired) ==> WriteState(t0, t1, t, desired, changes, |changes|)
  {
  }

  lemma WriteStart(t0: Tree, t1: Tree, desired: Desired, changes: seq<Change>)
    requires WellFormed(t0) && !IsFile(t0, []) && Named(desired) && Planned(t0, desired, changes)
    requires t1 == Minus(t0, Extras(t0, desired)) && WellFormed(t1)
    ensures |desired| <= |changes| && Passing(t0, t1, t1, desired, changes, 0)
    ensures PrefixFree(desired) ==> Progress(t1, t1, desired, changes[..|desired|], 0)
    ensures forall q :: Unrelated(desired, q) ==> SameAt(t1, t1, q)
  {
    DesiredEntries(t0, desired, changes);
    if PrefixFree(desired) {
      ProgressStart(t0, desired, changes[..|desired|]);
    }
    ClearedStart(t1, changes[..|desired|]);
  }

  lemma AllWritten(t0: Tree, t1: Tree, t: Tree, desired: Desired, changes: seq<Change>)
    requires WriteState(t0, t1, t, desired, changes, |changes|)
    requires Progress(t1, t1, desired, changes[..|desired|], 0)
    ensures Progress(t1, t, desired, changes[..|desired|], |changes|)
    ensures Applicable(t1, desired)
  {
    hide Progress, Renderable;
    Done(t1, desired, changes[..|desired|], |changes|);
  }

  lemma ProgressFrame(t1: Tree, t: Tree, desired: Desired, d: seq<Change>, i: nat)
    requires Progress(t1, t, desired, d, i)
    ensures forall q :: Unrelated(desired, q) ==> SameAt(t1, t, q)
  {
  }

  // ---------- there is one plan, as far as the writes go

  lemma HeadText(a: string, r: string)
    requires '/' !in a
    ensures var s := a + "/" + r; s != "" && s != ".." && (s[0] == '/' <==> a == "") && ("../" <= s <==> a == "..")
  {
    var s := a + "/" + r;
    assert s[|a|] == '/' && forall i :: 0 <= i < |a| ==> s[i] == a[i];
    if "../" <= s {
      assert s[0] == '.' && s[1] == '.' && s[2] == '/';
      assert |a| == 2;
    }
  }

  lemma HasSlash(a: string)
    ensures "../" <= a ==> '/' in a
  {
    if "../" <= a {
      assert a[2] == '/';
    }
  }

  /** A path is local exactly when its text is not empty and neither starts at the root nor climbs out. */
  lemma LocalText(p: Path)
    requires SlashFree(p) && |p| > 0
    ensures var s := Join(p); IsLocal(p) <==> s != "" && s[0] != '/' && s != ".." && !("../" <= s)
  {
    assert '/' !in p[0];
    if |p| > 1 {
      FirstComponent(p);
      hide Join, SlashFree;
      HeadText(p[0], Join(p[1..]));
    } else {
      assert Join(p) == p[0];
      hide Join, SlashFree;
      HasSlash(p[0]);
    }
  }

  /** Of paths without slashes in their names only equal ones are written alike. */
  lemma {:induction false} JoinInjective(p: Path, q: Path)
    requires SlashFree(p) && SlashFree(q) && |p| > 0 && |q| > 0 && Join(p) == Join(q)
    ensures p == q
  {
    JoinSlashes(p);
    JoinSlashes(q);
    if |p| > 1 {
      FirstComponent(p);
      FirstComponent(q);
      CutAtSlash(p[0], q[0], Join(p[1..]), Join(q[1..]));
      JoinInjective(p[1..], q[1..]);
      assert p == [p[0]] + p[1..] && q == [q[0]] + q[1..];
    }
  }

  lemma FirstComponent(p: Path)
    requires SlashFree(p) && |p| > 1
    ensures Join(p) == p[0] + "/" + Join(p[1..]) && '/' !in p[0] && SlashFree(p[1..])
  {
  }

  lemma CutAtSlash(a: string, b: string, x: string, y: string)
    requires '/' !in a && '/' !in b && a + "/" + x == b + "/" + y
    ensures a == b && x == y
  {
    var s := a + "/" + x;
    assert s[|a|] == '/' && s[|b|] == '/';
    assert forall i :: 0 <= i < |a| ==> s[i] == a[i];
    assert forall i :: 0 <= i < |b| ==> s[i] == b[i];
    assert s[..|a|] == a && s[..|b|] == b && s[|a| + 1..] == x;
  }

  lemma {:induction false} RemovalsWriteNothing(t: Tree, changes: seq<Change>, m: nat, n: nat)
    requires m <= n <= |changes| && forall i :: m <= i < |changes| ==> changes[i].action == Remove
    ensures WriteAll(t, changes, n) == WriteAll(t, changes, m)
  {
    if m < n {
      RemovalsWriteNothing(t, changes, m, n - 1);
    }
  }

  lemma {:induction false} SameWrites(t: Tree, a: seq<Change>, b: seq<Change>, n: nat)
    requires n <= |a| && n <= |b| && a[..n] == b[..n]
    ensures WriteAll(t, a, n) == WriteAll(t, b, n)
  {
    if n > 0 {
      assert a[n - 1] == a[..n][n - 1] == b[..n][n - 1] == b[n - 1];
      assert a[..n - 1] == a[..n][..n - 1] == b[..n][..n - 1] == b[..n - 1];
      SameWrites(t, a, b, n - 1);
    }
  }

  lemma LaterAreRemovals(t: Tree, desired: Desired, changes: seq<Change>)
    requires Planned(t, desired, changes)
    ensures |desired| <= |changes| && forall i :: |desired| <= i < |changes| ==> changes[i].action == Remove
  {
    var r := changes[|desired|..];
    assert forall i :: |desired| <= i < |changes| ==> changes[i] == r[i - |desired|];
  }
}
