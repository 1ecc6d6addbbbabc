/** One unit as the restart tracker sees it, poll by poll, and the time it is charged for settling. */
module Settle {
  import opened Wrappers

  /** What a poll sees of a unit: its job is queued; no job and a state in mid-transition; or neither. */
  datatype Seen = Queued | Moving | Settled

  /** from starts the running streak of Moving polls, accrued banks the streaks before it. */
  datatype UnitState = UnitState(done: bool, stalled: bool, from: Option<int>, accrued: int)

  const START: UnitState := UnitState(false, false, None, 0)

  predicate Live(us: UnitState) {
    !us.done && !us.stalled
  }

  function Bank(us: UnitState, now: int): UnitState {
    if us.from.Some? then us.(from := None, accrued := us.accrued + now - us.from.value) else us
  }

  /** The part of a poll for a unit whose job is not queued. */
  function Clear(us: UnitState, wait: int, now: int, seen: Seen): UnitState {
    if seen == Moving then
      var from := if us.from.Some? then us.from.value else now;
      us.(from := Some(from), stalled := us.stalled || (wait > 0 && us.accrued + (now - from) >= wait))
    else us.(done := true, from := None)
  }

  /** What one poll does to one unit. */
  function PollUnit(us: UnitState, wait: int, now: int, seen: Seen): UnitState {
    if !Live(us) then us else if seen == Queued then Bank(us, now) else Clear(us, wait, now, seen)
  }

  datatype Obs = Obs(now: int, seen: Seen)

  /** The unit after the polls obs. */
  function RunUnit(wait: int, obs: seq<Obs>): UnitState {
    if obs == [] then START
    else PollUnit(RunUnit(wait, obs[..|obs| - 1]), wait, obs[|obs| - 1].now, obs[|obs| - 1].seen)
  }

  /** The time between polls that began at a poll seeing the unit unqueued and moving. */
  ghost function MovingTime(obs: seq<Obs>): int {
    if |obs| <= 1 then 0
    else MovingTime(obs[..|obs| - 1])
         + if obs[|obs| - 2].seen == Moving then obs[|obs| - 1].now - obs[|obs| - 2].now else 0
  }

  /** The settle total of a unit at time now. */
  function Total(us: UnitState, now: int): int {
    us.accrued + if us.from.Some? then now - us.from.value else 0
  }

  /** The exact account: as long as the unit is live, its settle total at the last poll is the moving time,
      queued time never counts, and its clock is running exactly if the last poll saw it moving. */
  lemma {:induction false} Accounting(wait: int, obs: seq<Obs>)
    requires obs != [] && Live(RunUnit(wait, obs))
    ensures Total(RunUnit(wait, obs), obs[|obs| - 1].now) == MovingTime(obs)
    ensures RunUnit(wait, obs).from.Some? <==> obs[|obs| - 1].seen == Moving
    ensures forall o :: o in obs ==> o.seen != Settled
  {
    var before := obs[..|obs| - 1];
    assert obs == before + [obs[|obs| - 1]];
    if before != [] {
      Accounting(wait, before);
    }
  }

  /** How a live unit leaves that state: done exactly at a poll that sees it settled, stalled exactly at a
      poll that sees it moving once the moving time has reached a positive budget. */
  lemma Outcome(wait: int, obs: seq<Obs>)
    requires obs != [] && Live(RunUnit(wait, obs[..|obs| - 1]))
    ensures RunUnit(wait, obs).done <==> obs[|obs| - 1].seen == Settled
    ensures RunUnit(wait, obs).stalled <==> obs[|obs| - 1].seen == Moving && wait > 0 && MovingTime(obs) >= wait
  {
    if |obs| > 1 {
      Accounting(wait, obs[..|obs| - 1]);
    }
  }

  /** Done and stalled exclude each other and are never taken back. */
  lemma {:induction false} Absorbing(wait: int, obs: seq<Obs>, k: nat)
    requires k <= |obs|
    ensures !(RunUnit(wait, obs).done && RunUnit(wait, obs).stalled)
    ensures !Live(RunUnit(wait, obs[..k])) ==> RunUnit(wait, obs) == RunUnit(wait, obs[..k])
    decreases |obs|
  {
    if obs != [] {
      var before := obs[..|obs| - 1];
      Absorbing(wait, before, if k < |obs| then k else |obs| - 1);
      if k < |obs| {
        assert before[..k] == obs[..k];
      } else {
        assert obs[..k] == obs;
      }
    }
  }

  /** A unit is done only if some poll saw it settled. */
  lemma {:induction false} DoneSeen(wait: int, obs: seq<Obs>) returns (i: nat)
    requires RunUnit(wait, obs).done
    ensures i < |obs| && obs[i].seen == Settled
  {
    var m := |obs| - 1;
    if Live(RunUnit(wait, obs[..m])) {
      i := m;
    } else {
      i := DoneSeen(wait, obs[..m]);
    }
  }

  ghost function MovingPolls(obs: seq<Obs>): nat {
    if obs == [] then 0 else MovingPolls(obs[..|obs| - 1]) + if obs[|obs| - 1].seen == Moving then 1 else 0
  }

  ghost predicate Spaced(obs: seq<Obs>, d: nat) {
    forall i :: 0 < i < |obs| ==> obs[i - 1].now + d <= obs[i].now
  }

  /** Polls at least d apart charge at least d for every moving poll but the last. */
  lemma {:induction false} MovingTimeAtLeast(obs: seq<Obs>, d: nat)
    requires Spaced(obs, d) && obs != []
    ensures MovingTime(obs) >= d * MovingPolls(obs[..|obs| - 1])
  {
    if |obs| > 1 {
      var before := obs[..|obs| - 1];
      MovingTimeAtLeast(before, d);
      MulNext(d, MovingPolls(before[..|before| - 1]));
    }
  }

  lemma MulNext(d: nat, n: nat)
    ensures d * (n + 1) == d * n + d
  {
  }

  lemma MulAtLeast(d: nat, n: nat, k: nat, w: nat)
    requires n >= k && k * d >= w
    ensures d * n >= w
  {
    assert d * (n - k) >= 0;
    assert d * n == d * k + d * (n - k);
  }

  function CeilDiv(w: nat, d: nat): (k: nat)
    requires d > 0
    ensures k * d >= w && (k > 0 ==> (k - 1) * d < w)
  {
    (w + d - 1) / d
  }

  /** The deadline: with polls at least d apart and a positive budget, a unit that is never seen settled is
      stalled by its (ceil(budget / d) + 1)-th moving poll. */
  lemma {:induction false} Deadline(wait: nat, d: nat, obs: seq<Obs>)
    requires wait > 0 && d > 0 && Spaced(obs, d) && forall o :: o in obs ==> o.seen != Settled
    requires MovingPolls(obs) >= CeilDiv(wait, d) + 1
    ensures RunUnit(wait, obs).stalled
  {
    var before, last := obs[..|obs| - 1], obs[|obs| - 1];
    assert obs == before + [last];
    assert Spaced(before, d);
    hide CeilDiv;
    if last.seen != Moving || MovingPolls(before) >= CeilDiv(wait, d) + 1 {
      Deadline(wait, d, before);
      Absorbing(wait, obs, |obs| - 1);
    } else {
      DeadlineNow(wait, d, obs);
    }
  }

  lemma DeadlineNow(wait: nat, d: nat, obs: seq<Obs>)
    requires obs != [] && wait > 0 && d > 0 && Spaced(obs, d) && forall o :: o in obs ==> o.seen != Settled
    requires obs[|obs| - 1].seen == Moving && MovingPolls(obs[..|obs| - 1]) >= CeilDiv(wait, d)
    ensures RunUnit(wait, obs).stalled
  {
    EnoughTime(wait, d, obs);
    hide CeilDiv, MovingPolls, Spaced, MovingTime;
    var before := obs[..|obs| - 1];
    forall o | o in before ensures o.seen != Settled {
      assert o in obs;
    }
    NeverDone(wait, before);
    Absorbing(wait, obs, |obs| - 1);
    if Live(RunUnit(wait, before)) {
      Outcome(wait, obs);
    }
  }

  lemma EnoughTime(wait: nat, d: nat, obs: seq<Obs>)
    requires obs != [] && d > 0 && Spaced(obs, d) && MovingPolls(obs[..|obs| - 1]) >= CeilDiv(wait, d)
    ensures MovingTime(obs) >= wait
  {
    hide MovingPolls, Spaced, MovingTime;
    MovingTimeAtLeast(obs, d);
    MulAtLeast(d, MovingPolls(obs[..|obs| - 1]), CeilDiv(wait, d), wait);
  }

  lemma {:induction false} NeverDone(wait: int, obs: seq<Obs>)
    requires forall o :: o in obs ==> o.seen != Settled
    ensures !RunUnit(wait, obs).done
  {
    if obs != [] {
      assert obs[|obs| - 1] in obs;
      NeverDone(wait, obs[..|obs| - 1]);
    }
  }

  /** Without a budget a unit never stalls. */
  lemma {:induction false} NoBudgetNoStall(wait: int, obs: seq<Obs>)
    requires wait <= 0
    ensures !RunUnit(wait, obs).stalled
  {
    if obs != [] {
      NoBudgetNoStall(wait, obs[..|obs| - 1]);
    }
  }
}
