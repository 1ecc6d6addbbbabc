/** Version-shaped tags: their order, and the choice of an upgrade from a tag list. */
module Registry {
  import opened Wrappers

  /** A parsed tag: literal form, numeric parts, compatibility suffix. Parsing yields at least one part. */
  datatype Version = Version(raw: string, parts: seq<nat>, suffix: string)

  function Rest(a: seq<nat>): seq<nat> {
    if a == [] then [] else a[1..]
  }

  function First(a: seq<nat>): nat {
    if a == [] then 0 else a[0]
  }

  /** Lexicographic comparison of numeric parts, the shorter side continued with zeros. */
  function Cmp(a: seq<nat>, b: seq<nat>): (c: int)
    ensures c in {-1, 0, 1}
    decreases |a| + |b|
  {
    if a == [] && b == [] then 0
    else if First(a) < First(b) then -1
    else if First(a) > First(b) then 1
    else Cmp(Rest(a), Rest(b))
  }

  function Part(a: seq<nat>, i: nat): nat {
    if i < |a| then a[i] else 0
  }

  function From(a: seq<nat>, i: nat): seq<nat> {
    if i <= |a| then a[i..] else []
  }

  /** Compare, scanning the parts by index. */
  method Compare(v: Version, o: Version) returns (c: int)
    ensures c == Cmp(v.parts, o.parts)
  {
    var n := if |v.parts| >= |o.parts| then |v.parts| else |o.parts|;
    for i := 0 to n
      invariant Cmp(From(v.parts, i), From(o.parts, i)) == Cmp(v.parts, o.parts)
    {
      var a, b := 0, 0;
      if i < |v.parts| {
        a := v.parts[i];
      }
      if i < |o.parts| {
        b := o.parts[i];
      }
      assert First(From(v.parts, i)) == a && First(From(o.parts, i)) == b;
      assert Rest(From(v.parts, i)) == From(v.parts, i + 1) && Rest(From(o.parts, i)) == From(o.parts, i + 1);
      if a != b {
        if a < b {
          return -1;
        }
        return 1;
      }
    }
    return 0;
  }

  // ---------- Compare is a total preorder

  lemma {:induction false} Antisymmetric(a: seq<nat>, b: seq<nat>)
    ensures Cmp(a, b) == -Cmp(b, a)
    decreases |a| + |b|
  {
    if (a != [] || b != []) && First(a) == First(b) {
      Antisymmetric(Rest(a), Rest(b));
    }
  }

  lemma {:induction false} TransitiveCmp(a: seq<nat>, b: seq<nat>, c: seq<nat>)
    ensures Cmp(a, b) >= 0 && Cmp(b, c) >= 0 ==> Cmp(a, c) >= 0 && (Cmp(a, b) > 0 || Cmp(b, c) > 0 ==> Cmp(a, c) > 0)
    decreases |a| + |b| + |c|
  {
    if (a != [] || b != [] || c != []) && First(a) == First(b) == First(c) {
      TransitiveCmp(Rest(a), Rest(b), Rest(c));
      SameFirst(a, b);
      SameFirst(b, c);
      SameFirst(a, c);
    }
  }

  lemma SameFirst(a: seq<nat>, b: seq<nat>)
    requires First(a) == First(b)
    ensures Cmp(a, b) == Cmp(Rest(a), Rest(b))
  {
  }

  /** Two versions compare equal exactly when they agree part by part under zero padding. */
  lemma {:induction false} EqualIffPadded(a: seq<nat>, b: seq<nat>)
    ensures Cmp(a, b) == 0 <==> forall i: nat :: Part(a, i) == Part(b, i)
    decreases |a| + |b|
  {
    if a != [] || b != [] {
      assert Part(a, 0) == First(a) && Part(b, 0) == First(b);
      EqualIffPadded(Rest(a), Rest(b));
      forall i: nat ensures Part(Rest(a), i) == Part(a, i + 1) && Part(Rest(b), i) == Part(b, i + 1) {
      }
      if First(a) == First(b) && forall i: nat :: Part(Rest(a), i) == Part(Rest(b), i) {
        forall i: nat ensures Part(a, i) == Part(b, i) {
          if i > 0 {
            assert Part(Rest(a), i - 1) == Part(Rest(b), i - 1);
          }
        }
      }
    }
  }

  // ---------- picking

  function Truncated(a: seq<nat>, n: nat): seq<nat> {
    if |a| <= n then a else a[..n]
  }

  /** A constraint looks at the first three parts; None is no constraint. */
  type Constraint = Option<(nat, nat, nat) -> bool>

  predicate InRange(v: Version, c: Constraint) {
    c.Some? ==> c.value(Part(v.parts, 0), Part(v.parts, 1), Part(v.parts, 2))
  }

  /** v is an upgrade of current: same suffix, no loss of precision, no date stamp after a small number,
      strictly newer at the precision of current, and in range. */
  predicate Eligible(v: Version, current: Version, c: Constraint) {
    && v.suffix == current.suffix
    && |v.parts| >= |current.parts|
    && !(First(v.parts) >= 10000 && First(current.parts) < 1000)
    && Cmp(Truncated(v.parts, |current.parts|), current.parts) > 0
    && InRange(v, c)
  }

  lemma InRangeIs(v: Version, f: (nat, nat, nat) -> bool)
    ensures InRange(v, None)
    ensures |v.parts| >= 3 ==> (InRange(v, Some(f)) <==> f(v.parts[0], v.parts[1], v.parts[2]))
    ensures |v.parts| == 2 ==> (InRange(v, Some(f)) <==> f(v.parts[0], v.parts[1], 0))
    ensures |v.parts| == 1 ==> (InRange(v, Some(f)) <==> f(v.parts[0], 0, 0))
    ensures |v.parts| == 0 ==> (InRange(v, Some(f)) <==> f(0, 0, 0))
  {
  }

  /** a and b agree before part i, and there a is larger. */
  ghost predicate LargerAt(a: seq<nat>, b: seq<nat>, i: nat) {
    i < |a| && i < |b| && a[i] > b[i] && forall j :: 0 <= j < i ==> a[j] == b[j]
  }

  /** Of as many parts, one version is newer exactly when the first part that differs is larger. */
  lemma {:induction false} NewerAt(a: seq<nat>, b: seq<nat>)
    requires |a| == |b|
    ensures Cmp(a, b) > 0 <==> exists i: nat :: LargerAt(a, b, i)
  {
    if a != [] {
      NewerAt(a[1..], b[1..]);
      if a[0] == b[0] {
        if i: nat :| LargerAt(a[1..], b[1..], i) {
          assert LargerAt(a, b, i + 1);
        }
        if i: nat :| LargerAt(a, b, i) {
          assert LargerAt(a[1..], b[1..], i - 1);
        }
      } else if a[0] > b[0] {
        assert LargerAt(a, b, 0);
      }
    }
  }

  /** An upgrade, part by part: as many parts or more, the first that differs from those of the current version larger,
      the same suffix, not from below 1000 to 10000 or above in the first, and in range. */
  lemma EligibleIff(v: Version, current: Version, c: Constraint)
    ensures Eligible(v, current, c) <==>
            && v.suffix == current.suffix && |v.parts| >= |current.parts|
            && (exists i: nat :: LargerAt(v.parts, current.parts, i))
            && !(v.parts != [] && v.parts[0] >= 10000 && (current.parts == [] || current.parts[0] < 1000))
            && InRange(v, c)
  {
    hide InRange, Cmp;
    if |v.parts| >= |current.parts| {
      var t := Truncated(v.parts, |current.parts|);
      NewerAt(t, current.parts);
      assert t == v.parts[..|current.parts|];
      forall i: nat ensures LargerAt(t, current.parts, i) <==> LargerAt(v.parts, current.parts, i) {
      }
    }
  }

  ghost predicate Candidate(tags: seq<Option<Version>>, v: Version, current: Version, c: Constraint) {
    Some(v) in tags && Eligible(v, current, c)
  }

  /** v is the pick: the first of the largest candidates. */
  ghost predicate IsPick(tags: seq<Option<Version>>, v: Version, current: Version, c: Constraint) {
    && (exists i :: 0 <= i < |tags| && tags[i] == Some(v) && FirstAt(tags, i, v, current, c))
    && Eligible(v, current, c)
    && (forall u :: Candidate(tags, u, current, c) ==> Cmp(u.parts, v.parts) <= 0)
  }

  ghost predicate FirstAt(tags: seq<Option<Version>>, i: nat, v: Version, current: Version, c: Constraint)
    requires i < |tags|
  {
    forall j :: 0 <= j < i && tags[j].Some? && Eligible(tags[j].value, current, c) ==>
        Cmp(tags[j].value.parts, v.parts) < 0
  }

  /** PickVersion over parsed tags; None stands for a tag that is not version-shaped. */
  method PickVersion(tags: seq<Option<Version>>, current: Version, c: Constraint) returns (pick: Option<Version>)
    ensures pick.None? <==> forall u :: !Candidate(tags, u, current, c)
    ensures pick.Some? ==> IsPick(tags, pick.value, current, c)
  {
    pick := None;
    ghost var at := 0;
    for i := 0 to |tags|
      invariant pick.None? ==> forall j :: 0 <= j < i && tags[j].Some? ==> !Eligible(tags[j].value, current, c)
      invariant pick.Some? ==> at < i && tags[at] == pick
      invariant pick.Some? ==> Eligible(pick.value, current, c) && FirstAt(tags, at, pick.value, current, c)
      invariant pick.Some? ==> forall j :: 0 <= j < i && tags[j].Some? && Eligible(tags[j].value, current, c)
                                 ==> Cmp(tags[j].value.parts, pick.value.parts) <= 0
    {
      if tags[i].None? || tags[i].value.suffix != current.suffix {
        continue;
      }
      var v := tags[i].value;
      if |v.parts| < |current.parts| {
        continue;
      }
      if First(v.parts) >= 10000 && First(current.parts) < 1000 {
        continue;
      }
      var order := Compare(v.(parts := Truncated(v.parts, |current.parts|)), current);
      if order <= 0 {
        continue;
      }
      if !InRange(v, c) {
        continue;
      }
      var better := true;
      if pick.Some? {
        var o := Compare(v, pick.value);
        better := o > 0;
        NewPick(tags, i, v, pick.value, current, c);
      }
      if better {
        Antisymmetric(v.parts, v.parts);
        pick, at := Some(v), i;
      }
    }
    Picked(tags, pick, at, current, c);
  }

  lemma Picked(tags: seq<Option<Version>>, pick: Option<Version>, at: nat, current: Version, c: Constraint)
    requires pick.None? ==> forall j :: 0 <= j < |tags| && tags[j].Some? ==> !Eligible(tags[j].value, current, c)
    requires pick.Some? ==> at < |tags| && tags[at] == pick
    requires pick.Some? ==> Eligible(pick.value, current, c) && FirstAt(tags, at, pick.value, current, c)
    requires pick.Some? ==> forall j :: 0 <= j < |tags| && tags[j].Some? && Eligible(tags[j].value, current, c)
                              ==> Cmp(tags[j].value.parts, pick.value.parts) <= 0
    ensures pick.None? <==> forall u :: !Candidate(tags, u, current, c)
    ensures pick.Some? ==> IsPick(tags, pick.value, current, c)
  {
    hide Cmp, Eligible, FirstAt;
    forall u | Candidate(tags, u, current, c)
      ensures pick.Some? && Cmp(u.parts, pick.value.parts) <= 0
    {
      var j :| 0 <= j < |tags| && tags[j] == Some(u);
    }
    assert pick.Some? ==> pick in tags && Candidate(tags, pick.value, current, c);
  }

  lemma NewPick(tags: seq<Option<Version>>, i: nat, v: Version, best: Version, current: Version, c: Constraint)
    requires i < |tags|
    requires forall j :: 0 <= j < i && tags[j].Some? && Eligible(tags[j].value, current, c) ==>
        Cmp(tags[j].value.parts, best.parts) <= 0
    ensures Cmp(v.parts, best.parts) > 0 ==>
              forall j :: 0 <= j < i && tags[j].Some? && Eligible(tags[j].value, current, c) ==>
                  Cmp(tags[j].value.parts, v.parts) < 0
  {
    hide Eligible;
    forall j | 0 <= j < i && tags[j].Some? && Eligible(tags[j].value, current, c) && Cmp(v.parts, best.parts) > 0
      ensures Cmp(tags[j].value.parts, v.parts) < 0
    {
      TransitiveCmp(v.parts, best.parts, tags[j].value.parts);
      Antisymmetric(tags[j].value.parts, best.parts);
      Antisymmetric(tags[j].value.parts, v.parts);
    }
  }

  // ---------- chains of updates

  lemma {:induction false} TruncateMonotone(a: seq<nat>, b: seq<nat>, n: nat)
    requires Cmp(a, b) >= 0
    ensures Cmp(Truncated(a, n), Truncated(b, n)) >= 0
    decreases n
  {
    if n > 0 && First(a) == First(b) {
      TruncateMonotone(Rest(a), Rest(b), n - 1);
      TruncateRest(a, n);
      TruncateRest(b, n);
      SameFirst(a, b);
      SameFirst(Truncated(a, n), Truncated(b, n));
    } else if n > 0 {
      TruncateRest(a, n);
      TruncateRest(b, n);
    }
  }

  lemma TruncateRest(a: seq<nat>, n: nat)
    requires n > 0
    ensures Rest(Truncated(a, n)) == Truncated(Rest(a), n - 1) && First(Truncated(a, n)) == First(a)
  {
  }

  lemma TruncateTwice(a: seq<nat>, m: nat, n: nat)
    requires n <= m
    ensures Truncated(Truncated(a, m), n) == Truncated(a, n)
  {
  }

  /** v is strictly newer than o at the precision of o. */
  ghost predicate Newer(v: Version, o: Version) {
    |v.parts| >= |o.parts| && v.suffix == o.suffix && Cmp(Truncated(v.parts, |o.parts|), o.parts) > 0
  }

  lemma NewerTransitive(u: Version, v: Version, w: Version)
    requires Newer(u, v) && Newer(v, w)
    ensures Newer(u, w)
  {
    var m, n := |v.parts|, |w.parts|;
    TruncateMonotone(Truncated(u.parts, m), v.parts, n);
    TruncateTwice(u.parts, m, n);
    TransitiveCmp(Truncated(u.parts, n), Truncated(v.parts, n), w.parts);
  }

  lemma EligibleIsNewer(v: Version, current: Version, c: Constraint)
    requires Eligible(v, current, c)
    ensures Newer(v, current)
  {
  }

  /** A chain of updates: every version was eligible from the one before it, under the constraint of its step, as
      every pick is, on whatever tags. */
  ghost predicate Chain(vs: seq<Version>, ranges: seq<Constraint>) {
    |vs| == |ranges| + 1 && forall i :: 0 <= i < |ranges| ==> Eligible(vs[i + 1], vs[i], ranges[i])
  }

  /** Along a chain precision never drops, the suffix never changes, and every later version is strictly newer
      than every earlier one at the precision of the earlier one. */
  lemma {:induction false} ChainRises(vs: seq<Version>, ranges: seq<Constraint>, i: nat, j: nat)
    requires Chain(vs, ranges) && i < j < |vs|
    ensures Newer(vs[j], vs[i])
    decreases j - i
  {
    hide Newer, Eligible;
    assert Eligible(vs[j - 1 + 1], vs[j - 1], ranges[j - 1]);
    EligibleIsNewer(vs[j], vs[j - 1], ranges[j - 1]);
    if i + 1 < j {
      ChainRises(vs, ranges, i, j - 1);
      NewerTransitive(vs[j], vs[j - 1], vs[i]);
    }
  }

  /** Strictly newer at the precision of o is strictly newer. */
  lemma NewerCmp(v: Version, o: Version)
    requires Newer(v, o)
    ensures Cmp(v.parts, o.parts) > 0
  {
    var t := Truncated(v.parts, |o.parts|);
    TruncateBelow(v.parts, |o.parts|);
    TransitiveCmp(v.parts, t, o.parts);
  }

  lemma {:induction false} TruncateBelow(a: seq<nat>, n: nat)
    ensures Cmp(a, Truncated(a, n)) >= 0
    decreases n
  {
    if n == 0 {
      AboveNothing(a);
    } else if a != [] {
      TruncateBelow(Rest(a), n - 1);
      TruncateRest(a, n);
      SameFirst(a, Truncated(a, n));
    }
  }

  lemma {:induction false} AboveNothing(a: seq<nat>)
    ensures Cmp(a, []) >= 0
  {
    if a != [] {
      AboveNothing(a[1..]);
    }
  }

  /** After a pick v from current on a fixed tag list there is a further candidate u exactly when current is
      below 1000, v is not, and u is a date stamp that the guard withheld from current. */
  lemma SecondStep(tags: seq<Option<Version>>, current: Version, v: Version, c: Constraint, u: Version)
    requires IsPick(tags, v, current, c)
    ensures Candidate(tags, u, v, c) <==>
              && First(current.parts) < 1000 <= First(v.parts) && First(u.parts) >= 10000
              && Some(u) in tags && u.suffix == v.suffix && |u.parts| >= |v.parts| && InRange(u, c) && |v.parts| > 0
  {
    if Candidate(tags, u, v, c) {
      NewerTransitive(u, v, current);
      NewerCmp(u, v);
      Antisymmetric(u.parts, v.parts);
      assert !Candidate(tags, u, current, c);
      assert |v.parts| > 0;
    }
    if First(current.parts) < 1000 <= First(v.parts) && First(u.parts) >= 10000 && |u.parts| >= |v.parts| > 0 {
      assert First(v.parts) < 10000;
      TruncateRest(u.parts, |v.parts|);
    }
  }

  /** So on a fixed tag list a chain of picks ends after two steps, and after one when current starts at 1000
      or more or the pick starts below 1000. */
  lemma PicksEnd(tags: seq<Option<Version>>, current: Version, v: Version, w: Version, c: Constraint, u: Version)
    requires IsPick(tags, v, current, c)
    ensures First(current.parts) >= 1000 || First(v.parts) < 1000 ==> !Candidate(tags, u, v, c)
    ensures IsPick(tags, w, v, c) ==> !Candidate(tags, u, w, c)
  {
    SecondStep(tags, current, v, c, u);
    if IsPick(tags, w, v, c) {
      SecondStep(tags, v, w, c, u);
      SecondStep(tags, current, v, c, w);
      assert Candidate(tags, w, v, c);
    }
  }
}
