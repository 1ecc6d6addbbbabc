/** Desired files of which one lies below another, as nested keys of a build context give: apply never settles on
    them, and where the first path below another is not directly inside it, apply fails. */
module Nested {
  import opened FileTree
  import opened Reconcile
  import opened Passes
  import opened Clearing
  import opened Recording
  import opened Apply
  import StateFile

  /** Neither a file nor a directory stands where it could keep apply from succeeding. */
  ghost predicate Open(t: Tree, desired: Desired) {
    WellFormed(t) && Applicable(t, desired) && !IsDir(t, STATE)
  }

  /** t' is not what is desired, and differs from t in more than the recorded state. */
  ghost predicate Unsettled(t: Tree, t': Tree, desired: Desired) {
    !Converged(t', desired) && exists q :: q != STATE && !SameAt(t, t', q)
  }

  ghost predicate AllUnsettled(trees: seq<Tree>, desired: Desired) {
    forall i, j :: 0 <= i < j < |trees| && j == i + 1 ==> Unsettled(trees[i], trees[j], desired)
  }

  /** However often desired files are applied of which some lie directly inside others, each apply succeeds, none
      converges, and each changes the directory again. */
  method NeverSettles(disk: Disk, desired: Desired, codec: Codec, inps: seq<StateFile.Inputs>)
    returns (ok: bool, ghost trees: seq<Tree>)
    requires Open(disk.tree, desired) && Named(desired) && codec.RoundTrips()
    requires Direct(desired) && !PrefixFree(desired)
    modifies disk
    ensures ok && |trees| == |inps| + 1 && trees[0] == old(disk.tree) && trees[|inps|] == disk.tree
    ensures AllUnsettled(trees, desired)
  {
    hide *;
    ok, trees := true, [disk.tree];
    OneTree(disk.tree, desired);
    for n := 0 to |inps|
      invariant ok && |trees| == n + 1 && trees[0] == old(disk.tree) && trees[n] == disk.tree
      invariant Open(disk.tree, desired) && AllUnsettled(trees, desired)
    {
      ok := Once(disk, desired, codec, inps[n]);
      OneMore(trees, disk.tree, desired);
      trees := trees + [disk.tree];
    }
  }

  lemma OneTree(t: Tree, desired: Desired)
    ensures AllUnsettled([t], desired)
  {
  }

  lemma OneMore(trees: seq<Tree>, t: Tree, desired: Desired)
    requires trees != [] && AllUnsettled(trees, desired) && Unsettled(trees[|trees| - 1], t, desired)
    ensures AllUnsettled(trees + [t], desired)
  {
    hide Unsettled;
  }

  method Once(disk: Disk, desired: Desired, codec: Codec, inp: StateFile.Inputs) returns (ok: bool)
    requires Open(disk.tree, desired) && Named(desired) && codec.RoundTrips()
    requires Direct(desired) && !PrefixFree(desired)
    modifies disk
    ensures ok && Open(disk.tree, desired) && Unsettled(old(disk.tree), disk.tree, desired)
  {
    hide *;
    ghost var t := disk.tree;
    OpenIs(t, desired);
    NotConverged(t, desired);
    ok := Apply.Apply(disk, desired, codec, inp);
    StillOpen(codec, t, disk.tree, desired, inp);
    UnsettledIs(t, disk.tree, desired);
  }

  lemma OpenIs(t: Tree, desired: Desired)
    requires Open(t, desired)
    ensures WellFormed(t) && Applicable(t, desired) && !IsDir(t, STATE)
  {
  }

  lemma NotConverged(t: Tree, desired: Desired)
    requires WellFormed(t) && !PrefixFree(desired)
    ensures !Converged(t, desired)
  {
    hide Converged, PrefixFree;
    if Converged(t, desired) {
      ConvergedPrefixFree(t, desired);
    }
  }

  lemma UnsettledIs(t: Tree, t': Tree, desired: Desired)
    requires !Converged(t', desired) && exists q :: q != STATE && !SameAt(t, t', q)
    ensures Unsettled(t, t', desired)
  {
  }

  /** After an apply no file has come to stand in the way. */
  lemma StillOpen(codec: Codec, t: Tree, t': Tree, desired: Desired, inp: StateFile.Inputs)
    requires Named(desired) && StateKept(codec, t, t', inp) && WellFormed(t') && Open(t, desired)
    requires forall q :: IsFile(t', q) && q !in desired && q != STATE ==> SameAt(t, t', q)
    ensures Open(t', desired)
  {
    hide StateFile.Records, UpToDate, ImagesFirst, WellFormed;
    ImagesNotDesired(desired);
    assert [] !in desired;
    assert STATE[0] == "crei.state" && IMAGES[0] == "images" && "crei.state"[0] != "images"[0];
  }

  /** An inline Containerfile for the build s, and the two keys conf and conf/rest of its context. */
  function Build(s: string, conf: string, rest: Path, a: DesiredFile, b: DesiredFile, c: DesiredFile): Desired {
    map[["images", s + ".Containerfile"] := a, ["images", s + ".context", conf] := b,
        ["images", s + ".context", conf] + rest := c]
  }

  /** The schema takes such a context. If the second key lies directly inside the first, applies never settle; if it
      lies deeper, an apply to a directory that has none of the files fails. */
  lemma NestedContext(s: string, conf: string, rest: Path, a: DesiredFile, b: DesiredFile, c: DesiredFile, t: Tree)
    requires SlashFree([s, conf] + rest) && |rest| > 0
    requires a.mode != Invalid && b.mode != Invalid && c.mode != Invalid
    requires t == map[] || t == map[[] := Dir]
    ensures var desired := Build(s, conf, rest, a, b, c);
            && Rendered(desired) && !PrefixFree(desired) && Open(t, desired)
            && (|rest| == 1 ==> Direct(desired)) && (|rest| >= 2 ==> !Feasible(t, desired))
  {
    hide *;
    var desired := Build(s, conf, rest, a, b, c);
    var o, p := ["images", s + ".Containerfile"], ["images", s + ".context", conf];
    var q := p + rest;
    BuildKeys(s, conf, rest, a, b, c);
    ContextParts(s, conf, rest);
    RenderedThree(desired, s, o, p, q);
    EmptyOpen(t, desired);
    NotFree(desired, p, q);
    if |rest| == 1 {
      DirectThree(desired, o, p, q);
    } else {
      NotLaddered(desired, o, p, q);
    }
  }

  lemma BuildKeys(s: string, conf: string, rest: Path, a: DesiredFile, b: DesiredFile, c: DesiredFile)
    requires a.mode != Invalid && b.mode != Invalid && c.mode != Invalid
    ensures var desired := Build(s, conf, rest, a, b, c);
            var o, p := ["images", s + ".Containerfile"], ["images", s + ".context", conf];
            && desired.Keys == {o, p, p + rest} && (forall x :: x in desired ==> desired[x].mode != Invalid)
            && InContext(desired, p, s) && InContext(desired, p + rest, s)
  {
    assert (["images", s + ".context", conf] + rest)[1] == s + ".context";
  }

  /** An empty directory, or none, is open to what is rendered. */
  lemma EmptyOpen(t: Tree, desired: Desired)
    requires Rendered(desired) && (t == map[] || t == map[[] := Dir])
    requires forall x :: x in desired ==> desired[x].mode != Invalid
    ensures Open(t, desired) && Named(desired)
    ensures Feasible(t, desired) <==> Laddered(desired)
  {
    hide *;
    EmptyTree(t);
    RenderedApplicable(t, desired);
    RenderedNames(desired);
    EmptyIsOpen(t, desired);
    FreshFeasible(t, desired);
  }

  lemma EmptyTree(t: Tree)
    requires t == map[] || t == map[[] := Dir]
    ensures WellFormed(t) && !IsDir(t, STATE) && !IsFile(t, []) && !IsFile(t, IMAGES) && forall x :: |x| > 0 ==> x !in t
  {
  }

  lemma RenderedNames(desired: Desired)
    requires Rendered(desired)
    ensures Named(desired) && forall x :: x in desired ==> |x| > 0
  {
    hide SlashFree, InContext;
  }

  lemma EmptyIsOpen(t: Tree, desired: Desired)
    requires WellFormed(t) && Applicable(t, desired) && !IsDir(t, STATE)
    ensures Open(t, desired)
  {
  }

  lemma RenderedThree(desired: Desired, s: string, o: Path, p: Path, q: Path)
    requires desired.Keys == {o, p, q} && |o| == 2 && |p| >= 3 && |q| >= 3
    requires InContext(desired, p, s) && InContext(desired, q, s)
    requires Managed(o) && Managed(p) && Managed(q) && SlashFree(o) && SlashFree(p) && SlashFree(q)
    ensures Rendered(desired)
  {
    hide InContext, Managed, SlashFree;
    forall r | r in desired ensures Managed(r) && SlashFree(r) && (|r| >= 3 ==> InContext(desired, r, s)) {
      assert r in desired.Keys;
    }
  }

  lemma NotFree(desired: Desired, p: Path, q: Path)
    requires p in desired && q in desired && p < q
    ensures !PrefixFree(desired)
  {
    assert p <= q && p != q;
  }

  /** Of three desired paths just one lies below another. */
  lemma DirectThree(desired: Desired, o: Path, p: Path, q: Path)
    requires desired.Keys == {o, p, q} && p < q && !(o <= p) && !(o <= q) && !(p <= o) && !(q <= o)
    requires |q| == |p| + 1
    ensures Direct(desired)
  {
    forall x, y | x in desired && y in desired && x < y ensures x == p && y == q {
      assert x in desired.Keys && y in desired.Keys;
    }
  }

  lemma NotLaddered(desired: Desired, o: Path, p: Path, q: Path)
    requires desired.Keys == {o, p, q} && p < q && !(p <= o) && |q| >= |p| + 2
    ensures !Laddered(desired)
  {
    hide NameLe;
    forall r ensures !Rung(desired, p, q, r) {
      assert r in desired ==> r in {o, p, q};
    }
    assert p in {o, p, q} && q in {o, p, q};
  }

  lemma ContextParts(s: string, conf: string, rest: Path)
    requires SlashFree([s, conf] + rest) && |rest| > 0
    ensures var o, p := ["images", s + ".Containerfile"], ["images", s + ".context", conf];
            && SlashFree(o) && SlashFree(p) && SlashFree(p + rest) && Managed(o) && Managed(p) && Managed(p + rest)
            && !(o <= p) && !(o <= p + rest) && !(p <= o) && !(p + rest <= o) && p < p + rest
  {
    var n := [s, conf] + rest;
    assert '/' !in n[0] && '/' !in n[1] && forall i :: 0 <= i < |rest| ==> rest[i] == n[i + 2];
    var o, p := ["images", s + ".Containerfile"], ["images", s + ".context", conf];
    assert o[1][|s| + 1] == 'C' && p[1][|s| + 1] == 'c' && (p + rest)[1] == p[1];
  }
}
