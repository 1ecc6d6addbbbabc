/** Which writes go through when some desired paths may lie below others. */
module Clearing {
  import opened Wrappers
  import opened FileTree
  import opened StringOrder
  import opened Reconcile
  import opened WriteOps
  import opened Passes

  /** The plan for t writes p. */
  ghost predicate Writes(t: Tree, desired: Desired, p: Path) {
    p in desired && !Right(t, p, desired[p])
  }

  /** Once its turn has passed a file stands at p, and stays until something below it is written: p is written, or
      nothing that is desired lies above it, or it is a file at images. */
  ghost predicate Stands(t: Tree, desired: Desired, p: Path) {
    if p in desired then Writes(t, desired, p) || forall x :: x in desired ==> !(x < p)
    else p == IMAGES && IsFile(t, IMAGES)
  }

  /** r is written directly inside p, and not after q. */
  ghost predicate Opens(t: Tree, desired: Desired, p: Path, q: Path, r: Path) {
    Writes(t, desired, r) && p < r && |r| == |p| + 1 && NameLe(r, q)
  }

  ghost predicate ClearedFor(t: Tree, desired: Desired, p: Path, q: Path) {
    Stands(t, desired, p) && Writes(t, desired, q) && p < q && |q| >= |p| + 2 ==>
      exists r :: Opens(t, desired, p, q, r)
  }

  /** Of what is written below a file that stands, a path directly inside it comes first. */
  ghost predicate Clears(t: Tree, desired: Desired) {
    forall p, q :: ClearedFor(t, desired, p, q)
  }

  lemma ImagesNotDesired(desired: Desired)
    requires Named(desired)
    ensures IMAGES !in desired && !Managed(IMAGES)
  {
    if Managed(IMAGES) {
      ImagesUnmanaged(IMAGES);
    }
  }

  lemma LePrefix(a: string, b: string)
    ensures Le(a, a + b)
  {
    assert a + "" == a;
    LeAfter(a, "", b);
  }

  lemma {:induction false} JoinBelow(p: Path, rest: Path)
    requires |p| > 0 && |rest| > 0
    ensures Join(p + rest) == Join(p) + ("/" + Join(rest))
  {
    assert (p + rest)[0] == p[0];
    if |p| == 1 {
      assert (p + rest)[1..] == rest;
    } else {
      JoinBelow(p[1..], rest);
      assert (p + rest)[1..] == p[1..] + rest;
      var a, b, c := p[0] + "/", Join(p[1..]), "/" + Join(rest);
      assert a + (b + c) == (a + b) + c;
    }
  }

  /** What lies below comes after. */
  lemma BelowIsAfter(p: Path, q: Path)
    requires p < q && |p| > 0
    ensures NameLe(p, q)
  {
    var rest := q[|p|..];
    assert q == p + rest;
    JoinBelow(p, rest);
    LePrefix(Join(p), "/" + Join(rest));
  }

  lemma SameName(p: Path, q: Path)
    requires NameLe(p, q) && NameLe(q, p) && SlashFree(p) && SlashFree(q) && |p| > 0 && |q| > 0
    ensures p == q
  {
    LeAntisymmetric(Join(p), Join(q));
    JoinInjective(p, q);
  }

  /** The plan d for the desired files on t, all of whose modes parse. */
  ghost predicate Setting(t: Tree, desired: Desired, d: seq<Change>) {
    && WellFormed(t) && Named(desired) && DesiredPart(t, desired, d) && !IsFile(t, [])
    && forall p :: p in desired ==> desired[p].mode != Invalid
  }

  lemma EntryIs(t: Tree, desired: Desired, d: seq<Change>, i: nat)
    requires Setting(t, desired, d) && i < |d|
    ensures var p := d[i].name;
            && p in desired && |p| > 0 && SlashFree(p) && Managed(p)
            && (IsWrite(d[i]) <==> Writes(t, desired, p)) && d[i].action != Remove
            && (IsWrite(d[i]) ==> d[i].mode != Invalid)
  {
    var p := d[i].name;
    assert p in desired && Classify(t, p, desired[p]) == Ok(d[i]);
  }

  lemma IndexOf(t: Tree, desired: Desired, d: seq<Change>, p: Path) returns (i: nat)
    requires Setting(t, desired, d) && p in desired
    ensures i < |d| && d[i].name == p
  {
    i :| 0 <= i < |d| && d[i].name == p;
  }

  lemma NotAfter(t: Tree, desired: Desired, d: seq<Change>, i: nat, j: nat)
    requires Setting(t, desired, d) && i < |d| && j < |d| && NameLe(d[i].name, d[j].name)
    ensures i <= j
  {
    EntryIs(t, desired, d, i);
    EntryIs(t, desired, d, j);
    if j < i {
      assert NameLe(d[j].name, d[i].name) && d[j].name != d[i].name;
      hide NameLe, Managed;
      SameName(d[i].name, d[j].name);
    }
  }

  lemma Before(t: Tree, desired: Desired, d: seq<Change>, i: nat, j: nat)
    requires Setting(t, desired, d) && i < |d| && j < |d| && d[i].name < d[j].name
    ensures i < j
  {
    EntryIs(t, desired, d, i);
    BelowIsAfter(d[i].name, d[j].name);
    NotAfter(t, desired, d, i, j);
  }

  /** The turn of p is among the first i, or p is images, that has none. */
  ghost predicate Past(d: seq<Change>, i: nat, p: Path)
    requires i <= |d|
  {
    p == IMAGES || exists j :: 0 <= j < i && d[j].name == p
  }

  /** Something below p has been written. */
  ghost predicate Entered(d: seq<Change>, i: nat, p: Path)
    requires i <= |d|
  {
    exists j :: 0 <= j < i && IsWrite(d[j]) && p < d[j].name
  }

  /** Something above p has been written. */
  ghost predicate Topped(d: seq<Change>, i: nat, p: Path)
    requires i <= |d|
  {
    exists j :: 0 <= j < i && IsWrite(d[j]) && d[j].name < p
  }

  ghost predicate StageAt(t: Tree, desired: Desired, d: seq<Change>, u: Tree, i: nat, p: Path)
    requires i <= |d|
  {
    && (Past(d, i, p) ==> (IsFile(u, p) <==> Stands(t, desired, p) && !Entered(d, i, p)))
    && (p in desired && !Past(d, i, p) && !Writes(t, desired, p) ==> (IsFile(u, p) <==> !Topped(d, i, p)))
    && (IsFile(u, p) && Managed(p) ==> p in desired)
  }

  /** Where files stand after i entries. */
  ghost predicate Stage(t: Tree, desired: Desired, d: seq<Change>, u: Tree, i: nat)
    requires i <= |d|
  {
    !IsFile(u, []) && forall p :: StageAt(t, desired, d, u, i, p)
  }

  lemma LeftFile(t: Tree, desired: Desired, p: Path)
    ensures IsFile(Minus(t, Extras(t, desired)), p) <==> IsFile(t, p) && (Managed(p) ==> p in desired)
  {
    hide Managed;
  }

  lemma StartAt(t: Tree, desired: Desired, d: seq<Change>, p: Path)
    requires Setting(t, desired, d)
    ensures StageAt(t, desired, d, Minus(t, Extras(t, desired)), 0, p)
  {
    ImagesNotDesired(desired);
    LeftFile(t, desired, p);
    hide Managed, Minus, Extras, Setting;
  }

  lemma StageStart(t: Tree, desired: Desired, d: seq<Change>)
    requires Setting(t, desired, d)
    ensures Stage(t, desired, d, Minus(t, Extras(t, desired)), 0)
  {
    LeftFile(t, desired, []);
    hide Managed, Minus, Extras, StageAt;
    forall p ensures StageAt(t, desired, d, Minus(t, Extras(t, desired)), 0, p) {
      StartAt(t, desired, d, p);
    }
  }

  lemma Grow(d: seq<Change>, i: nat, p: Path)
    requires i < |d|
    ensures Past(d, i + 1, p) <==> Past(d, i, p) || d[i].name == p
    ensures Entered(d, i + 1, p) <==> Entered(d, i, p) || (IsWrite(d[i]) && p < d[i].name)
    ensures Topped(d, i + 1, p) <==> Topped(d, i, p) || (IsWrite(d[i]) && d[i].name < p)
  {
  }

  lemma TurnOf(t: Tree, desired: Desired, d: seq<Change>, i: nat, p: Path) returns (j: nat)
    requires Setting(t, desired, d) && i < |d| && p in desired && p < d[i].name
    ensures j < i && d[j].name == p && (IsWrite(d[j]) <==> Writes(t, desired, p))
  {
    hide *;
    j := IndexOf(t, desired, d, p);
    Before(t, desired, d, j, i);
    EntryIs(t, desired, d, j);
  }

  lemma TurnAfter(t: Tree, desired: Desired, d: seq<Change>, i: nat, p: Path)
    requires Setting(t, desired, d) && i < |d| && d[i].name < p
    ensures !Past(d, i, p)
  {
    hide Setting, IsWrite;
    EntryIs(t, desired, d, i);
    assert |p| > 1;
    forall j | 0 <= j < i ensures d[j].name != p {
      if d[j].name == p {
        Before(t, desired, d, i, j);
      }
    }
  }

  lemma ToppedIff(t: Tree, desired: Desired, d: seq<Change>, i: nat)
    requires Setting(t, desired, d) && i < |d|
    ensures Topped(d, i, d[i].name) <==> exists x :: Writes(t, desired, x) && x < d[i].name
  {
    var q := d[i].name;
    hide Setting, IsWrite;
    if x :| Writes(t, desired, x) && x < q {
      WriteStands(t, desired, x);
      var j := TurnOf(t, desired, d, i, x);
    }
    hide Writes;
    if j :| 0 <= j < i && IsWrite(d[j]) && d[j].name < q {
      EntryIs(t, desired, d, j);
    }
  }

  /** What an entry meets: nothing below it has been written, and what is written above it has been. */
  lemma Turn(t: Tree, desired: Desired, d: seq<Change>, i: nat)
    requires Setting(t, desired, d) && i < |d|
    ensures !Entered(d, i, d[i].name)
    ensures Topped(d, i, d[i].name) <==> exists x :: Writes(t, desired, x) && x < d[i].name
    ensures forall p :: p in desired && p < d[i].name ==> Past(d, i, p)
    ensures forall p :: d[i].name < p ==> !Past(d, i, p)
  {
    var q := d[i].name;
    hide Setting, IsWrite, Writes, Topped;
    ToppedIff(t, desired, d, i);
    forall j | 0 <= j < i && q < d[j].name ensures false {
      Before(t, desired, d, i, j);
    }
    forall p | p in desired && p < q ensures Past(d, i, p) {
      var j := TurnOf(t, desired, d, i, p);
    }
    hide Past;
    forall p | q < p ensures !Past(d, i, p) {
      TurnAfter(t, desired, d, i, p);
    }
  }

  /** Of a file that is right already, what lies above it is written. */
  lemma StandsUnlessTopped(t: Tree, desired: Desired, p: Path)
    requires WellFormed(t) && p in desired && !Writes(t, desired, p)
    ensures Stands(t, desired, p) <==> !exists x :: Writes(t, desired, x) && x < p
  {
    forall x | x in desired && x < p ensures Writes(t, desired, x) {
      assert x == p[..|x|];
      AncestorIsDir(t, p, |x|);
    }
  }

  lemma NotYet(t: Tree, desired: Desired, d: seq<Change>, i: nat)
    requires Setting(t, desired, d) && i < |d|
    ensures !Past(d, i, d[i].name)
  {
    EntryIs(t, desired, d, i);
    ImagesUnmanaged(d[i].name);
  }

  lemma StageIs(t: Tree, desired: Desired, d: seq<Change>, u: Tree, i: nat, p: Path)
    requires i <= |d|
    ensures StageAt(t, desired, d, u, i, p) <==>
              && (Past(d, i, p) ==> (IsFile(u, p) <==> Stands(t, desired, p) && !Entered(d, i, p)))
              && (p in desired && !Past(d, i, p) && !Writes(t, desired, p) ==> (IsFile(u, p) <==> !Topped(d, i, p)))
              && (IsFile(u, p) && Managed(p) ==> p in desired)
  {
    hide Past, Stands, Entered, Topped, Writes, Managed, IsFile;
  }

  lemma SkipAt(t: Tree, desired: Desired, d: seq<Change>, u: Tree, i: nat, p: Path)
    requires Setting(t, desired, d) && i < |d| && StageAt(t, desired, d, u, i, p) && !IsWrite(d[i])
    ensures StageAt(t, desired, d, u, i + 1, p)
  {
    hide *;
    StageIs(t, desired, d, u, i, p);
    StageIs(t, desired, d, u, i + 1, p);
    Grow(d, i, p);
    EntryIs(t, desired, d, i);
    Turn(t, desired, d, i);
    NotYet(t, desired, d, i);
    SettingIs(t, desired, d);
    StandsUnlessTopped(t, desired, d[i].name);
  }

  lemma SettingIs(t: Tree, desired: Desired, d: seq<Change>)
    requires Setting(t, desired, d)
    ensures WellFormed(t) && Named(desired) && !IsFile(t, [])
  {
  }

  /** An entry that writes nothing. */
  lemma StageSkip(t: Tree, desired: Desired, d: seq<Change>, u: Tree, i: nat)
    requires Setting(t, desired, d) && i < |d| && Stage(t, desired, d, u, i) && !IsWrite(d[i])
    ensures Stage(t, desired, d, u, i + 1)
  {
    hide StageAt, Setting, IsWrite;
    var n := i + 1;
    forall p ensures StageAt(t, desired, d, u, n, p) {
      SkipAt(t, desired, d, u, i, p);
    }
  }

  lemma WrittenFile(u: Tree, q: Path, content: string, perm: nat, p: Path)
    requires |q| > 0
    ensures IsFile(Written(u, q, content, perm), p) <==> p == q || (!(p < q) && !(q < p) && IsFile(u, p))
  {
    WrittenAt(u, q, content, perm, p);
    hide Written;
  }

  lemma WriteStands(t: Tree, desired: Desired, q: Path)
    requires Writes(t, desired, q)
    ensures q in desired && Stands(t, desired, q)
  {
  }

  lemma WriteAt(t: Tree, desired: Desired, d: seq<Change>, u: Tree, i: nat, p: Path)
    requires Setting(t, desired, d) && i < |d| && StageAt(t, desired, d, u, i, p) && IsWrite(d[i]) && |d[i].name| > 0
    ensures StageAt(t, desired, d, Written(u, d[i].name, d[i].content, FilePerm(d[i].mode)), i + 1, p)
  {
    hide *;
    var u' := Written(u, d[i].name, d[i].content, FilePerm(d[i].mode));
    StageIs(t, desired, d, u, i, p);
    StageIs(t, desired, d, u', i + 1, p);
    Grow(d, i, p);
    EntryIs(t, desired, d, i);
    Turn(t, desired, d, i);
    NotYet(t, desired, d, i);
    WriteStands(t, desired, d[i].name);
    WrittenFile(u, d[i].name, d[i].content, FilePerm(d[i].mode), p);
  }

  /** An entry that writes. */
  lemma StageWrite(t: Tree, desired: Desired, d: seq<Change>, u: Tree, i: nat)
    requires Setting(t, desired, d) && i < |d| && Stage(t, desired, d, u, i) && IsWrite(d[i]) && |d[i].name| > 0
    ensures Stage(t, desired, d, Written(u, d[i].name, d[i].content, FilePerm(d[i].mode)), i + 1)
  {
    hide StageAt, Setting, IsWrite, Written, IsFile, FilePerm;
    var n, u' := i + 1, Written(u, d[i].name, d[i].content, FilePerm(d[i].mode));
    forall p ensures StageAt(t, desired, d, u', n, p) {
      WriteAt(t, desired, d, u, i, p);
    }
    WrittenFile(u, d[i].name, d[i].content, FilePerm(d[i].mode), []);
  }

  /** p is a file that keeps q from being written. */
  ghost predicate Bars(t: Tree, desired: Desired, d: seq<Change>, i: nat, p: Path, q: Path)
    requires i <= |d|
  {
    Stands(t, desired, p) && p < q && |q| >= |p| + 2 && !Entered(d, i, p)
  }

  lemma FileBars(t: Tree, desired: Desired, d: seq<Change>, u: Tree, i: nat, p: Path)
    requires Setting(t, desired, d) && i < |d| && StageAt(t, desired, d, u, i, p)
    requires p < d[i].name && |d[i].name| >= |p| + 2 && IsFile(u, p) && (p == IMAGES || Managed(p))
    ensures Bars(t, desired, d, i, p, d[i].name)
  {
    hide *;
    PastAbove(t, desired, d, i, p);
    StageIs(t, desired, d, u, i, p);
    BarsIs(t, desired, d, i, p, d[i].name);
  }

  lemma BarsIs(t: Tree, desired: Desired, d: seq<Change>, i: nat, p: Path, q: Path)
    requires i <= |d|
    ensures Bars(t, desired, d, i, p, q) <==>
            Stands(t, desired, p) && p < q && |q| >= |p| + 2 && !Entered(d, i, p)
  {
  }

  lemma DeepName(q: Path, k: nat)
    requires Managed(q) && 0 < k < |q| - 1
    ensures (q[..k] == IMAGES || Managed(q[..k])) && q[..k] < q
  {
    if k >= 2 {
      DeepPrefix(q, k);
    } else {
      assert q[..k][0] == "images";
    }
  }

  lemma PastAbove(t: Tree, desired: Desired, d: seq<Change>, i: nat, p: Path)
    requires Setting(t, desired, d) && i < |d| && p < d[i].name
    ensures p in desired || p == IMAGES ==> Past(d, i, p)
    ensures Stands(t, desired, p) ==> Past(d, i, p)
  {
    Turn(t, desired, d, i);
    hide Setting, Writes, Entered, Topped;
  }

  lemma BarsFile(t: Tree, desired: Desired, d: seq<Change>, u: Tree, i: nat, p: Path)
    requires Setting(t, desired, d) && i < |d| && StageAt(t, desired, d, u, i, p)
    requires Bars(t, desired, d, i, p, d[i].name)
    ensures IsFile(u, p)
  {
    BarsIs(t, desired, d, i, p, d[i].name);
    PastAbove(t, desired, d, i, p);
    hide *;
    StageIs(t, desired, d, u, i, p);
  }

  /** A write is blocked exactly when a file that bars it still stands. */
  lemma BlockedBy(t: Tree, desired: Desired, d: seq<Change>, u: Tree, i: nat)
    requires Setting(t, desired, d) && i < |d| && Stage(t, desired, d, u, i) && |d[i].name| > 0
    ensures Blocked(u, Parent(d[i].name)) <==> exists p :: Bars(t, desired, d, i, p, d[i].name)
  {
    var q := d[i].name;
    EntryIs(t, desired, d, i);
    hide StageAt, Setting, IsFile, Managed, SlashFree, Writes;
    forall k | 0 <= k < |Parent(q)| && IsFile(u, Parent(q)[..k]) ensures Bars(t, desired, d, i, q[..k], q) {
      assert Parent(q)[..k] == q[..k];
      assert StageAt(t, desired, d, u, i, q[..k]);
      assert k > 0;
      DeepName(q, k);
      FileBars(t, desired, d, u, i, q[..k]);
    }
    if p :| Bars(t, desired, d, i, p, q) {
      assert StageAt(t, desired, d, u, i, p);
      BarsFile(t, desired, d, u, i, p);
      BarsIs(t, desired, d, i, p, q);
      assert Parent(q)[..|p|] == p;
    }
  }

  /** One more entry: what it meets, and whether it goes through. */
  lemma {:induction false} NextGoes(t: Tree, desired: Desired, d: seq<Change>, u: Tree, i: nat)
    requires Setting(t, desired, d) && i < |d| && Stage(t, desired, d, u, i)
    ensures WriteOne(u, d[i]).Some? <==>
            (Writes(t, desired, d[i].name) ==> forall p :: !Bars(t, desired, d, i, p, d[i].name))
    ensures WriteOne(u, d[i]).Some? ==> Stage(t, desired, d, WriteOne(u, d[i]).value, i + 1)
  {
    EntryIs(t, desired, d, i);
    hide Stage, Setting, Written, Blocked, Bars, Writes, Managed, SlashFree, FilePerm;
    BlockedBy(t, desired, d, u, i);
    if IsWrite(d[i]) {
      StageWrite(t, desired, d, u, i);
    } else {
      StageSkip(t, desired, d, u, i);
    }
  }

  lemma AllNone(t1: Tree, d: seq<Change>)
    ensures WriteAll(t1, d, 0) == Some(t1)
  {
  }

  lemma {:induction false} AllNext(t1: Tree, d: seq<Change>, i: nat)
    requires i < |d| && WriteAll(t1, d, i).Some?
    ensures WriteAll(t1, d, i + 1) == WriteOne(WriteAll(t1, d, i).value, d[i])
  {
    hide WriteOne;
  }

  /** As far as the writes have gone through, they have left a stage. */
  lemma {:induction false} Stages(t: Tree, desired: Desired, d: seq<Change>, i: nat)
    requires Setting(t, desired, d) && i <= |d| && WriteAll(Minus(t, Extras(t, desired)), d, i).Some?
    ensures Stage(t, desired, d, WriteAll(Minus(t, Extras(t, desired)), d, i).value, i)
  {
    var t1 := Minus(t, Extras(t, desired));
    hide Stage, Setting, Minus, WriteOne;
    if i == 0 {
      StageStart(t, desired, d);
    } else {
      Stages(t, desired, d, i - 1);
      NextGoes(t, desired, d, WriteAll(t1, d, i - 1).value, i - 1);
    }
  }

  lemma OpensEntered(t: Tree, desired: Desired, d: seq<Change>, i: nat, p: Path, r: Path)
    requires Setting(t, desired, d) && i < |d| && Opens(t, desired, p, d[i].name, r) && |d[i].name| >= |p| + 2
    ensures Entered(d, i, p)
  {
    hide Setting, NameLe;
    var j := IndexOf(t, desired, d, r);
    EntryIs(t, desired, d, j);
    NotAfter(t, desired, d, j, i);
    assert j != i;
  }

  lemma NoBar(t: Tree, desired: Desired, d: seq<Change>, i: nat, p: Path)
    requires Setting(t, desired, d) && i < |d| && Clears(t, desired) && Writes(t, desired, d[i].name)
    ensures !Bars(t, desired, d, i, p, d[i].name)
  {
    hide Setting, Opens, Stands, Writes, Entered;
    var q := d[i].name;
    assert ClearedFor(t, desired, p, q);
    if Bars(t, desired, d, i, p, q) {
      var r :| Opens(t, desired, p, q, r);
      OpensEntered(t, desired, d, i, p, r);
    }
  }

  /** With the files that stand cleared in time, every write goes through. */
  lemma {:induction false} ClearedGoes(t: Tree, desired: Desired, d: seq<Change>, i: nat)
    requires Setting(t, desired, d) && i <= |d| && Clears(t, desired)
    ensures WriteAll(Minus(t, Extras(t, desired)), d, i).Some?
  {
    hide *;
    AllNone(Minus(t, Extras(t, desired)), d);
    if i > 0 {
      var t1, k := Minus(t, Extras(t, desired)), i - 1;
      ClearedGoes(t, desired, d, k);
      Stages(t, desired, d, k);
      NextGoes(t, desired, d, WriteAll(t1, d, k).value, k);
      AllNext(t1, d, k);
      if Writes(t, desired, d[k].name) {
        forall p ensures !Bars(t, desired, d, k, p, d[k].name) {
          NoBar(t, desired, d, k, p);
        }
      }
    }
  }

  /** The first entry that writes below p. */
  lemma FirstEntered(d: seq<Change>, n: nat, p: Path) returns (j: nat)
    requires n <= |d| && Entered(d, n, p)
    ensures j < n && IsWrite(d[j]) && p < d[j].name && !Entered(d, j, p)
  {
    j :| 0 <= j < n && IsWrite(d[j]) && p < d[j].name;
    if Entered(d, j, p) {
      j := FirstEntered(d, j, p);
    }
  }

  lemma IndexOrder(t: Tree, desired: Desired, d: seq<Change>, i: nat, j: nat)
    requires Setting(t, desired, d) && j <= i < |d|
    ensures NameLe(d[j].name, d[i].name)
  {
    NameOrder();
  }

  lemma NotBarred(t: Tree, desired: Desired, d: seq<Change>, j: nat, p: Path)
    requires Setting(t, desired, d) && WriteAll(Minus(t, Extras(t, desired)), d, |d|).Some?
    requires j < |d| && Writes(t, desired, d[j].name)
    ensures !Bars(t, desired, d, j, p, d[j].name)
  {
    hide *;
    var t1 := Minus(t, Extras(t, desired));
    if WriteAll(t1, d, j).None? {
      WriteAllStops(t1, d, j, |d|);
    }
    Stages(t, desired, d, j);
    NextGoes(t, desired, d, WriteAll(t1, d, j).value, j);
    AllNext(t1, d, j);
    if WriteAll(t1, d, j + 1).None? {
      WriteAllStops(t1, d, j + 1, |d|);
    }
  }

  /** If the writes go through, what is written first below a file that stands is directly inside it. */
  lemma GoneClears(t: Tree, desired: Desired, d: seq<Change>, p: Path, q: Path) returns (r: Path)
    requires Setting(t, desired, d) && WriteAll(Minus(t, Extras(t, desired)), d, |d|).Some?
    requires Stands(t, desired, p) && Writes(t, desired, q) && p < q
    ensures Opens(t, desired, p, q, r)
  {
    hide Setting, Stands, Writes, WriteAll, Minus, NameLe;
    WriteStands(t, desired, q);
    var i := IndexOf(t, desired, d, q);
    EntryIs(t, desired, d, i);
    var j := FirstEntered(d, i + 1, p);
    r := d[j].name;
    EntryIs(t, desired, d, j);
    NotBarred(t, desired, d, j, p);
    IndexOrder(t, desired, d, i, j);
  }

  lemma GoneCleared(t: Tree, desired: Desired, d: seq<Change>, p: Path, q: Path)
    requires Setting(t, desired, d) && WriteAll(Minus(t, Extras(t, desired)), d, |d|).Some?
    ensures ClearedFor(t, desired, p, q)
  {
    hide Setting, Stands, Writes, WriteAll, Minus, Opens;
    if Stands(t, desired, p) && Writes(t, desired, q) && p < q {
      var r := GoneClears(t, desired, d, p, q);
    }
  }

  /** The writes of a plan go through exactly when every file that stands is cleared in time. */
  lemma GoesIffClears(t: Tree, desired: Desired, d: seq<Change>)
    requires Setting(t, desired, d)
    ensures WriteAll(Minus(t, Extras(t, desired)), d, |d|).Some? <==> Clears(t, desired)
  {
    hide Setting, ClearedFor, WriteAll, Minus;
    if Clears(t, desired) {
      ClearedGoes(t, desired, d, |d|);
    }
    if WriteAll(Minus(t, Extras(t, desired)), d, |d|).Some? {
      forall p, q ensures ClearedFor(t, desired, p, q) {
        GoneCleared(t, desired, d, p, q);
      }
    }
  }

  /** Apply can carry out its plan: the directory is not a file, every mode parses, and every file that stands is
      cleared in time. */
  ghost predicate Feasible(t: Tree, desired: Desired) {
    !IsFile(t, []) && (forall p :: p in desired ==> desired[p].mode != Invalid) && Clears(t, desired)
  }

  lemma InvalidEntry(t: Tree, desired: Desired, changes: seq<Change>, p: Path) returns (i: nat)
    requires Named(desired) && Planned(t, desired, changes) && p in desired && desired[p].mode == Invalid
    ensures i < |changes| && IsWrite(changes[i]) && changes[i].mode == Invalid && changes[i].name != []
  {
    var d := changes[..|desired|];
    i :| 0 <= i < |d| && d[i].name == p;
    assert changes[i] == d[i] && Classify(t, p, desired[p]) == Ok(d[i]) && Managed(p);
  }

  lemma InvalidStops(t: Tree, desired: Desired, changes: seq<Change>, p: Path, t1: Tree)
    requires Named(desired) && Planned(t, desired, changes) && p in desired && desired[p].mode == Invalid
    ensures WriteAll(t1, changes, |changes|).None?
  {
    hide Planned, Named, Blocked, Written;
    var i := InvalidEntry(t, desired, changes, p);
    assert WriteAll(t1, changes, i + 1).None?;
    hide WriteAll;
    WriteAllStops(t1, changes, i + 1, |changes|);
  }

  lemma WritesOfDesired(t: Tree, desired: Desired, changes: seq<Change>, t1: Tree)
    requires Planned(t, desired, changes)
    ensures |desired| <= |changes| && DesiredPart(t, desired, changes[..|desired|])
    ensures WriteAll(t1, changes, |changes|) == WriteAll(t1, changes[..|desired|], |desired|)
  {
    LaterAreRemovals(t, desired, changes);
    hide DesiredPart, RemovalPart, WriteAll;
    RemovalsWriteNothing(t1, changes, |desired|, |changes|);
    SameWrites(t1, changes, changes[..|desired|], |desired|);
  }

  /** The writes of a plan go through exactly when it is feasible. */
  lemma FeasibleIff(t: Tree, desired: Desired, changes: seq<Change>)
    requires WellFormed(t) && Named(desired) && Planned(t, desired, changes) && !IsFile(t, [])
    ensures Feasible(t, desired) <==> WriteAll(Minus(t, Extras(t, desired)), changes, |changes|).Some?
  {
    hide Named, Planned, DesiredPart, Clears, WriteAll, Minus, Extras;
    var t1 := Minus(t, Extras(t, desired));
    if p :| p in desired && desired[p].mode == Invalid {
      InvalidStops(t, desired, changes, p, t1);
    } else {
      WritesOfDesired(t, desired, changes, t1);
      assert Setting(t, desired, changes[..|desired|]);
      GoesIffClears(t, desired, changes[..|desired|]);
    }
  }

  /** There is a plan whenever it is feasible. */
  lemma FeasiblePlan(t: Tree, desired: Desired)
    requires Named(desired) && Feasible(t, desired)
    ensures !IsFile(t, []) && forall p :: p in desired ==> IsLocal(p) && Classify(t, p, desired[p]).Ok?
  {
    hide Clears;
    forall p | p in desired ensures IsLocal(p) {
      ImagesUnmanaged(p);
    }
  }

  /** Where a desired path lies below another, it lies directly inside it. */
  ghost predicate Direct(desired: Desired) {
    forall p, q :: p in desired && q in desired && p < q ==> |q| == |p| + 1
  }

  lemma NotRightBelow(t: Tree, desired: Desired, p: Path, q: Path)
    requires WellFormed(t) && IsFile(t, p) && q in desired && p < q
    ensures Writes(t, desired, q)
  {
    if q in t {
      FileHasNothingBelow(t, p, q);
    }
  }

  lemma ImagesClears(t: Tree, desired: Desired, q: Path)
    requires WellFormed(t) && Named(desired) && IsFile(t, IMAGES) && ImagesFirst(desired) && q in desired && |q| >= 3
    ensures exists r :: Opens(t, desired, IMAGES, q, r)
  {
    var r :| r in desired && |r| == 2 && NameLe(r, q);
    ImagesUnmanaged(r);
    assert IMAGES == r[..1];
    hide NameLe, Managed;
    NotRightBelow(t, desired, IMAGES, r);
    assert Opens(t, desired, IMAGES, q, r);
  }

  lemma ClearsImages(t: Tree, desired: Desired, q: Path)
    requires WellFormed(t) && Named(desired) && IsFile(t, IMAGES) && Clears(t, desired) && q in desired && |q| >= 3
    ensures exists r :: r in desired && |r| == 2 && NameLe(r, q)
  {
    ImagesNotDesired(desired);
    ImagesUnmanaged(q);
    assert IMAGES == q[..1];
    NotRightBelow(t, desired, IMAGES, q);
    assert Stands(t, desired, IMAGES);
    assert ClearedFor(t, desired, IMAGES, q);
    var r :| Opens(t, desired, IMAGES, q, r);
  }

  /** If no desired path lies two or more levels below another, only a file at images can stand in the way. */
  lemma DirectFeasible(t: Tree, desired: Desired)
    requires WellFormed(t) && Named(desired) && Direct(desired)
    ensures Feasible(t, desired) <==> Applicable(t, desired)
  {
    hide Writes, Opens, Right, NameLe, Managed, Named;
    if Applicable(t, desired) {
      forall p, q ensures ClearedFor(t, desired, p, q) {
        if Stands(t, desired, p) && Writes(t, desired, q) && p < q && |q| >= |p| + 2 {
          WritesDesired(t, desired, q);
          ImagesClears(t, desired, q);
        }
      }
    }
    if Feasible(t, desired) && IsFile(t, IMAGES) {
      forall q | q in desired && |q| >= 3 ensures exists r :: r in desired && |r| == 2 && NameLe(r, q) {
        ClearsImages(t, desired, q);
      }
    }
  }

  lemma WritesDesired(t: Tree, desired: Desired, q: Path)
    requires Writes(t, desired, q)
    ensures q in desired
  {
  }

  /** r is desired, directly inside p, and does not come after q. */
  ghost predicate Rung(desired: Desired, p: Path, q: Path, r: Path) {
    r in desired && p < r && |r| == |p| + 1 && NameLe(r, q)
  }

  /** Where desired paths lie below another, the first of them by name lies directly inside it. */
  ghost predicate Laddered(desired: Desired) {
    forall p, q :: p in desired && q in desired && p < q && |q| >= |p| + 2 ==>
      exists r :: Rung(desired, p, q, r)
  }

  /** On a directory with none of the desired files it is that, with modes that parse. */
  lemma FreshFeasible(t: Tree, desired: Desired)
    requires Named(desired) && !IsFile(t, []) && !IsFile(t, IMAGES) && forall p :: p in desired ==> p !in t
    ensures Feasible(t, desired) <==> (forall p :: p in desired ==> desired[p].mode != Invalid) && Laddered(desired)
  {
    hide NameLe, Named;
    assert forall p :: Writes(t, desired, p) <==> p in desired;
    hide Writes;
    if Laddered(desired) {
      forall p, q ensures ClearedFor(t, desired, p, q) {
        if p in desired && q in desired && p < q && |q| >= |p| + 2 {
          var r :| Rung(desired, p, q, r);
          assert Opens(t, desired, p, q, r);
        }
      }
    }
    if Clears(t, desired) {
      forall p, q | p in desired && q in desired && p < q && |q| >= |p| + 2
        ensures exists r :: Rung(desired, p, q, r)
      {
        assert ClearedFor(t, desired, p, q);
        var r :| Opens(t, desired, p, q, r);
        assert Rung(desired, p, q, r);
      }
    }
  }
}
