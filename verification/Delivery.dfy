/** What the passes make of each desired file: its content, and its permission in digits. */
module Delivery {
  import opened Wrappers
  import opened FileTree
  import opened Reconcile
  import opened WriteOps
  import opened Passes

  /** What a success makes of a desired path: a file with the content; with the permission that the digits of its
      mode say if it has one, else with the one it had if the content was there already, else with 0644. */
  ghost predicate AsDesired(t: Tree, t': Tree, p: Path, df: DesiredFile) {
    && p in t' && t'[p].File? && t'[p].content == df.content
    && match df.mode
       case Octal(b) => t'[p].perm == 64 * (b / 64 % 8) + 8 * (b / 8 % 8) + b % 8
       case Unset => t'[p].perm == if IsFile(t, p) && t[p].content == df.content then t[p].perm else 420
       case Invalid => false
  }

  ghost predicate AllAsDesired(t: Tree, t': Tree, desired: Desired) {
    forall p :: p in desired ==> AsDesired(t, t', p, desired[p])
  }

  /** No entry from m on writes at, above or below p. */
  ghost predicate Untouched(changes: seq<Change>, m: nat, p: Path) {
    forall j :: m <= j < |changes| && IsWrite(changes[j]) ==> !Related(changes[j].name, p)
  }

  lemma {:induction false} NotWritten(t1: Tree, changes: seq<Change>, m: nat, n: nat, p: Path)
    requires m <= n <= |changes| && WriteAll(t1, changes, n).Some? && Untouched(changes, m, p)
    ensures WriteAll(t1, changes, m).Some?
    ensures SameAt(WriteAll(t1, changes, m).value, WriteAll(t1, changes, n).value, p)
  {
    if m < n {
      NotWritten(t1, changes, m, n - 1, p);
      OneSame(WriteAll(t1, changes, n - 1).value, changes[n - 1], p);
      hide WriteOne, Related;
    }
  }

  lemma OneSame(u: Tree, c: Change, p: Path)
    requires WriteOne(u, c).Some? && (IsWrite(c) ==> !Related(c.name, p))
    ensures SameAt(u, WriteOne(u, c).value, p)
  {
    if IsWrite(c) && |c.name| > 0 {
      WrittenAt(u, c.name, c.content, FilePerm(c.mode), p);
    }
    hide Written;
  }

  lemma OneWritten(u: Tree, c: Change)
    requires WriteOne(u, c).Some? && IsWrite(c) && |c.name| > 0
    ensures Delivered(WriteOne(u, c).value, c.name, c.content, c.mode)
  {
    WrittenDelivered(u, c.name, c.content, c.mode);
    hide Written, Delivered;
  }

  lemma OthersApart(t: Tree, desired: Desired, changes: seq<Change>, i: nat)
    requires Planned(t, desired, changes) && Named(desired) && PrefixFree(desired) && i < |desired| <= |changes|
    ensures forall j :: 0 <= j < |changes| && j != i && IsWrite(changes[j]) ==>
              !Related(changes[j].name, changes[i].name)
  {
    forall j | 0 <= j < |changes| && j != i && IsWrite(changes[j]) ensures !Related(changes[j].name, changes[i].name) {
      EntryFacts(t, desired, changes, i);
      EntryFacts(t, desired, changes, j);
      var d := changes[..|desired|];
      assert d[i] == changes[i] && d[j] == changes[j];
    }
  }

  lemma EntryRight(t: Tree, desired: Desired, changes: seq<Change>, i: nat)
    requires Planned(t, desired, changes) && Named(desired) && i < |desired| <= |changes|
    ensures var c := changes[i];
            && c.name in desired
            && (IsWrite(c) ==> c.content == desired[c.name].content && c.mode == desired[c.name].mode)
            && (!IsWrite(c) ==> desired[c.name].mode != Invalid && Right(t, c.name, desired[c.name]))
            && (IsWrite(c) && c.mode == Unset ==> !Right(t, c.name, desired[c.name])) && |c.name| > 0
  {
    EntryFacts(t, desired, changes, i);
    var d := changes[..|desired|];
    assert d[i] == changes[i];
    assert Classify(t, d[i].name, desired[d[i].name]) == Ok(d[i]);
    hide Planned, Named, Right, Classify;
  }

  lemma FromWrite(t: Tree, t': Tree, p: Path, df: DesiredFile)
    requires Delivered(t', p, df.content, df.mode) && (df.mode == Unset ==> !Right(t, p, df))
    ensures AsDesired(t, t', p, df)
  {
  }

  lemma FromRight(t: Tree, t': Tree, p: Path, df: DesiredFile)
    requires Right(t, p, df) && SameAt(t, t', p) && df.mode != Invalid
    ensures AsDesired(t, t', p, df)
  {
    RightDigits(t, p, df);
  }

  lemma LeftInPlace(t: Tree, desired: Desired, p: Path)
    requires p in desired
    ensures SameAt(t, Minus(t, Extras(t, desired)), p)
  {
  }

  lemma NextOne(t1: Tree, changes: seq<Change>, i: nat)
    requires i < |changes|
    ensures WriteAll(t1, changes, 0) == Some(t1)
    ensures WriteAll(t1, changes, i + 1).Some? ==> WriteAll(t1, changes, i).Some?
    ensures WriteAll(t1, changes, i + 1).Some? ==>
              WriteOne(WriteAll(t1, changes, i).value, changes[i]) == WriteAll(t1, changes, i + 1)
  {
    hide WriteOne;
  }

  lemma UntouchedAfter(t: Tree, desired: Desired, changes: seq<Change>, i: nat)
    requires Planned(t, desired, changes) && Named(desired) && PrefixFree(desired) && i < |desired| <= |changes|
    ensures Untouched(changes, i + 1, changes[i].name)
    ensures !IsWrite(changes[i]) ==> Untouched(changes, 0, changes[i].name)
  {
    hide Planned, Named, PrefixFree, Related, IsWrite;
    OthersApart(t, desired, changes, i);
  }

  /** The writes bring every desired path to what is desired of it. */
  lemma WritesDeliver(t: Tree, desired: Desired, changes: seq<Change>, i: nat)
    requires Planned(t, desired, changes) && Named(desired) && PrefixFree(desired) && i < |desired| <= |changes|
    requires WriteAll(Minus(t, Extras(t, desired)), changes, |changes|).Some?
    ensures var c, u := changes[i], WriteAll(Minus(t, Extras(t, desired)), changes, |changes|).value;
            c.name in desired && AsDesired(t, u, c.name, desired[c.name])
  {
    hide *;
    var t1, p := Minus(t, Extras(t, desired)), changes[i].name;
    UntouchedAfter(t, desired, changes, i);
    EntryRight(t, desired, changes, i);
    LeftInPlace(t, desired, p);
    NextOne(t1, changes, i);
    var u := WriteAll(t1, changes, |changes|).value;
    if IsWrite(changes[i]) {
      NotWritten(t1, changes, i + 1, |changes|, p);
      OneWritten(WriteAll(t1, changes, i).value, changes[i]);
      DeliveredSame(WriteAll(t1, changes, i + 1).value, u, p, changes[i].content, changes[i].mode);
      FromWrite(t, u, p, desired[p]);
    } else {
      NotWritten(t1, changes, 0, |changes|, p);
      SameStill(t, t1, u, p);
      FromRight(t, u, p, desired[p]);
    }
  }

  lemma SameStill(t: Tree, u: Tree, t': Tree, p: Path)
    requires SameAt(t, u, p) && SameAt(u, t', p)
    ensures SameAt(t, t', p)
  {
  }

  lemma DeliveredSame(t: Tree, t': Tree, p: Path, content: string, mode: Mode)
    requires Delivered(t, p, content, mode) && SameAt(t, t', p)
    ensures Delivered(t', p, content, mode)
  {
  }

  /** For a whole plan. */
  lemma AllDelivered(t: Tree, desired: Desired, changes: seq<Change>)
    requires Planned(t, desired, changes) && Named(desired) && PrefixFree(desired)
    requires WriteAll(Minus(t, Extras(t, desired)), changes, |changes|).Some?
    ensures AllAsDesired(t, WriteAll(Minus(t, Extras(t, desired)), changes, |changes|).value, desired)
  {
    DesiredEntries(t, desired, changes);
    hide Planned, Named, PrefixFree, Minus, Extras, WriteAll, AsDesired, DesiredPart;
    forall p | p in desired
      ensures AsDesired(t, WriteAll(Minus(t, Extras(t, desired)), changes, |changes|).value, p, desired[p])
    {
      var i := EntryOf(changes[..|desired|], desired.Keys, p);
      WritesDeliver(t, desired, changes, i);
    }
  }

  /** What files stay as they are stays as desired. */
  lemma StaysAsDesired(t: Tree, u: Tree, t': Tree, desired: Desired)
    requires AllAsDesired(t, u, desired) && forall p :: p in desired && IsFile(u, p) ==> SameAt(u, t', p)
    ensures AllAsDesired(t, t', desired)
  {
    forall p | p in desired ensures AsDesired(t, t', p, desired[p]) {
      assert AsDesired(t, u, p, desired[p]) && SameAt(u, t', p);
    }
  }

  lemma ConvergedAsDesired(t: Tree, t': Tree, desired: Desired)
    requires Converged(t, desired) && (forall p :: p in desired ==> SameAt(t, t', p) && desired[p].mode != Invalid)
    ensures AllAsDesired(t, t', desired)
  {
    hide ManagedFiles, AsDesired, Right;
    forall p | p in desired ensures AsDesired(t, t', p, desired[p]) {
      FromRight(t, t', p, desired[p]);
    }
  }
}
