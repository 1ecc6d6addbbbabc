/** The restart tracker: polling until every unit has settled or exhausted its budget, then the final
    verdict. systemd's answers and the clock are inputs. */
module Lifecycle {
  import opened Wrappers
  import opened Settle

  /** An active state that is still on its way to another one. */
  predicate Transitional(activeState: string) {
    activeState in {"activating", "deactivating", "reloading", "refreshing", "maintenance"}
  }

  datatype Verb = Restart | Start | Stop

  /** Whether a unit in that state counts as failed once the job queue has drained. */
  predicate CountsAsFailed(verb: Verb, activeState: string) {
    match verb
    case Restart => activeState == "failed" || Transitional(activeState)
    case Start => activeState == "failed" || Transitional(activeState)
    case Stop => activeState == "active" || activeState == "activating"
  }

  /** What systemd answers at one poll; None is a query that failed. */
  datatype Answer = Answer(pending: Option<set<string>>, now: int, statuses: Option<map<string, string>>)

  type States = map<string, UnitState>

  function SeenIn(pending: set<string>, statuses: map<string, string>, u: string): Seen {
    if u in pending then Queued
    else if u in statuses && Transitional(statuses[u]) then Moving
    else Settled
  }

  /** A live unit has left the job queue, so its state has to be asked for. */
  ghost predicate Asks(s: States, enqueue: seq<string>, pending: set<string>) {
    exists u :: u in enqueue && u in s && Live(s[u]) && u !in pending
  }

  /** What a poll does to all units, or None when a query that it needs fails. */
  ghost function PollAll(s: States, enqueue: seq<string>, wait: int, a: Answer): Option<States> {
    if a.pending.None? || (Asks(s, enqueue, a.pending.value) && a.statuses.None?) then None
    else
      var statuses := if a.statuses.Some? then a.statuses.value else map[];
      Some(map u | u in s ::
          if u in enqueue then PollUnit(s[u], wait, a.now, SeenIn(a.pending.value, statuses, u)) else s[u])
  }

  ghost predicate AllDone(s: States) {
    forall u :: u in s ==> !Live(s[u])
  }

  datatype Driven = StillWaiting | Broken | Finished(states: States)

  /** Polling until all units are done or stalled; StillWaiting when the answers so far do not get there. */
  ghost function Drive(s: States, enqueue: seq<string>, wait: int, answers: seq<Answer>): Driven {
    if answers == [] then StillWaiting
    else match PollAll(s, enqueue, wait, answers[0])
      case None => Broken
      case Some(next) => if AllDone(next) then Finished(next) else Drive(next, enqueue, wait, answers[1..])
  }

  /** The final state of every enqueued unit is known and none counts as failed. */
  ghost predicate Verified(enqueue: seq<string>, verb: Verb, final: Option<map<string, string>>) {
    final.Some? && forall u :: u in enqueue ==> u in final.value && !CountsAsFailed(verb, final.value[u])
  }

  datatype Confirm = NotAsked | Yes | No | Unanswered

  datatype Outcome = Waiting | Failed | Success | Aborted

  /** The outcome of a transition, as the two display loops both have to produce it. */
  ghost function Transition(s: States, enqueue: seq<string>, wait: int, verb: Verb, confirm: Confirm, enqueued: bool,
                            answers: seq<Answer>, final: Option<map<string, string>>): Outcome {
    if confirm == Unanswered then Failed
    else if confirm == No then Aborted
    else if !enqueued then Failed
    else Conclude(Drive(s, enqueue, wait, answers), enqueue, verb, final)
  }

  ghost function Conclude(d: Driven, enqueue: seq<string>, verb: Verb, final: Option<map<string, string>>): Outcome {
    match d
    case StillWaiting => Waiting
    case Broken => Failed
    case Finished(end) => if Verified(enqueue, verb, final) && NoneStalled(end) then Success else Failed
  }

  ghost predicate NoneStalled(s: States) {
    forall u :: u in s ==> !s[u].stalled
  }

  /** The states at the outset: pre-done units are done, the others have not been seen. */
  ghost function Initial(units: seq<string>, preDone: set<string>): States {
    map u | u in units :: if u in preDone then START.(done := true) else START
  }

  class RestartTracker {
    const units: seq<string>
    var enqueue: seq<string>
    const verb: Verb
    const settleWait: int
    var done: set<string>
    var stalled: set<string>
    var settleFrom: map<string, int>
    var settleAccrued: map<string, int>

    ghost predicate Valid()
      reads this
    {
      && Elems(enqueue) <= Elems(units) && stalled <= Elems(enqueue)
      && (forall u :: u in units ==> u in enqueue || u in done)
    }

    function View(u: string): UnitState
      reads this
    {
      UnitState(u in done, u in stalled, if u in settleFrom then Some(settleFrom[u]) else None,
                if u in settleAccrued then settleAccrued[u] else 0)
    }

    ghost function States(): States
      reads this
    {
      map u | u in units :: View(u)
    }

    constructor (units: seq<string>, preDone: set<string>, verb: Verb, settleWait: int)
      ensures Valid() && this.units == units && this.verb == verb && this.settleWait == settleWait
      ensures States() == Initial(units, preDone)
      ensures forall u :: u in enqueue <==> u in units && u !in preDone
    {
      this.units, this.verb, this.settleWait := units, verb, settleWait;
      enqueue, done, stalled, settleFrom, settleAccrued := [], {}, {}, map[], map[];
      new;
      for i := 0 to |units|
        invariant forall u :: u in enqueue <==> u in units[..i] && u !in preDone
        invariant forall u :: u in done <==> u in units[..i] && u in preDone
        invariant stalled == {} && settleFrom == map[] && settleAccrued == map[]
      {
        var u := units[i];
        assert units[..i + 1] == units[..i] + [u];
        if u in preDone {
          done := done + {u};
        } else {
          enqueue := enqueue + [u];
        }
      }
      assert units[..|units|] == units;
    }

    /** Stops a unit's settle clock, keeping what it has spent. */
    method BankSettle(u: string, now: int)
      modifies this`settleFrom, this`settleAccrued
      ensures View(u) == Bank(old(View(u)), now)
      ensures forall v :: v != u ==> View(v) == old(View(v))
    {
      if u in settleFrom {
        var before := if u in settleAccrued then settleAccrued[u] else 0;
        settleAccrued := settleAccrued[u := before + now - settleFrom[u]];
        settleFrom := settleFrom - {u};
      }
    }

    /** The first loop of poll: queued units stop their clocks, the others are collected. */
    method Sort(pending: set<string>, now: int) returns (cleared: seq<string>)
      modifies this`settleFrom, this`settleAccrued
      ensures forall u :: u in cleared <==> u in enqueue && Live(old(View(u))) && u !in pending
      ensures forall u :: View(u) == if u in enqueue && Live(old(View(u))) && u in pending
                                     then Bank(old(View(u)), now) else old(View(u))
    {
      cleared := [];
      for i := 0 to |enqueue|
        invariant forall u :: u in cleared <==> u in enqueue[..i] && Live(old(View(u))) && u !in pending
        invariant forall u :: View(u) == if u in enqueue[..i] && Live(old(View(u))) && u in pending
                                         then Bank(old(View(u)), now) else old(View(u))
      {
        var u := enqueue[i];
        assert enqueue[..i + 1] == enqueue[..i] + [u];
        if u in done || u in stalled {
          continue;
        }
        if u in pending {
          BankSettle(u, now);
          continue;
        }
        cleared := cleared + [u];
      }
      assert enqueue[..|enqueue|] == enqueue;
    }

    /** One unit that has left the queue: it is done, or on the clock, or stalled. */
    method JudgeOne(u: string, now: int, statuses: map<string, string>)
      modifies this`done, this`stalled, this`settleFrom
      ensures View(u) == Clear(old(View(u)), settleWait, now, SeenIn({}, statuses, u))
      ensures forall v :: v != u ==> View(v) == old(View(v))
    {
      if u !in statuses || !Transitional(statuses[u]) {
        done := done + {u};
        settleFrom := settleFrom - {u};
      } else {
        if u !in settleFrom {
          settleFrom := settleFrom[u := now];
        }
        var accrued := if u in settleAccrued then settleAccrued[u] else 0;
        if settleWait > 0 && accrued + (now - settleFrom[u]) >= settleWait {
          stalled := stalled + {u};
        }
      }
    }

    /** The second loop of poll, over the units that have left the queue. */
    method Judge(cleared: seq<string>, now: int, statuses: map<string, string>)
      modifies this`done, this`stalled, this`settleFrom
      ensures forall u :: View(u) == if u in cleared then Clear(old(View(u)), settleWait, now, SeenIn({}, statuses, u))
                                     else old(View(u))
    {
      hide View, Clear, SeenIn;
      for i := 0 to |cleared|
        invariant forall u ::
                    View(u) == if u in cleared[..i] then Clear(old(View(u)), settleWait, now, SeenIn({}, statuses, u))
                               else old(View(u))
      {
        var u := cleared[i];
        assert cleared[..i + 1] == cleared[..i] + [u];
        ClearTwice(old(View(u)), settleWait, now, SeenIn({}, statuses, u));
        JudgeOne(u, now, statuses);
      }
      assert cleared[..|cleared|] == cleared;
    }

    /** poll */
    method Poll(a: Answer) returns (ok: bool)
      requires Valid()
      modifies this`done, this`stalled, this`settleFrom, this`settleAccrued
      ensures ok ==> Valid()
      ensures var next := PollAll(old(States()), enqueue, settleWait, a);
              ok == next.Some? && (ok ==> States() == next.value)
    {
      if a.pending.None? {
        return false;
      }
      ghost var s := States();
      var cleared := Sort(a.pending.value, a.now);
      assert cleared != [] <==> Asks(s, enqueue, a.pending.value) by {
        if cleared != [] {
          assert cleared[0] in cleared;
        }
      }
      if cleared == [] {
        return true;
      }
      if a.statuses.None? {
        return false;
      }
      Judge(cleared, a.now, a.statuses.value);
      return true;
    }

    /** allDone */
    method IsAllDone() returns (all: bool)
      ensures all <==> AllDone(States())
    {
      for i := 0 to |units|
        invariant forall j :: 0 <= j < i ==> !Live(View(units[j]))
      {
        if units[i] !in done && units[i] !in stalled {
          assert units[i] in States() && Live(States()[units[i]]);
          return false;
        }
      }
      return true;
    }

    /** failures: the failed units, and whether some final state could not be established. */
    method Failures(final: Option<map<string, string>>) returns (failed: set<string>, err: bool)
      requires Valid()
      ensures err <==> !(final.Some? && forall u :: u in enqueue ==> u in final.value)
      ensures final.None? ==> failed == {}
      ensures final.Some? ==> forall u :: u in failed <==>
                u in stalled || (u in enqueue && u in final.value && CountsAsFailed(verb, final.value[u]))
    {
      failed := stalled;
      if final.None? {
        return {}, true;
      }
      var missing := [];
      for i := 0 to |enqueue|
        invariant missing == [] <==> forall j :: 0 <= j < i ==> enqueue[j] in final.value
        invariant forall u :: u in failed <==>
                    u in stalled || (u in enqueue[..i] && u in final.value && CountsAsFailed(verb, final.value[u]))
      {
        var u := enqueue[i];
        assert enqueue[..i + 1] == enqueue[..i] + [u];
        if u !in final.value {
          missing := missing + [u];
          continue;
        }
        if CountsAsFailed(verb, final.value[u]) {
          failed := failed + {u};
        }
      }
      assert enqueue[..|enqueue|] == enqueue;
      err := missing != [];
    }

    /** failedError: whether any displayed unit is among the failed. */
    method FailedError(failed: set<string>) returns (err: bool)
      ensures err <==> exists u :: u in units && u in failed
    {
      var names := [];
      for i := 0 to |units|
        invariant names == [] <==> forall j :: 0 <= j < i ==> units[j] !in failed
      {
        if units[i] in failed {
          names := names + [units[i]];
        }
      }
      if names == [] {
        assert forall u :: u in units ==> u !in failed;
      }
      return names != [];
    }

    /** The end that both loops share: the final query decides. */
    method Verdict(final: Option<map<string, string>>) returns (r: Outcome)
      requires Valid()
      ensures r == if Verified(enqueue, verb, final) && NoneStalled(States()) then Success else Failed
    {
      var failed, unknown := Failures(final);
      if unknown {
        return Failed;
      }
      var err := FailedError(failed);
      if err {
        var u :| u in units && u in failed;
        assert u in States() && States()[u].stalled == (u in stalled);
        return Failed;
      }
      forall u | u in units ensures u !in stalled && (u in enqueue ==> !CountsAsFailed(verb, final.value[u])) {
        assert u !in failed;
      }
      forall u | u in enqueue ensures u in units {
        assert u in Elems(enqueue);
      }
      return Success;
    }

    /** plainFlow: poll, print what finished, until all are done. */
    method PlainFlow(confirm: Confirm, enqueued: bool, answers: seq<Answer>, final: Option<map<string, string>>)
      returns (r: Outcome)
      requires Valid()
      modifies this`done, this`stalled, this`settleFrom, this`settleAccrued
      ensures r == Transition(old(States()), enqueue, settleWait, verb, confirm, enqueued, answers, final)
    {
      match confirm {
        case Unanswered => return Failed;
        case No => return Aborted;
        case NotAsked =>
        case Yes =>
      }
      if !enqueued {
        return Failed;
      }
      ghost var s := States();
      hide PollAll, AllDone, Valid, Verified, NoneStalled, States;
      for i := 0 to |answers|
        invariant Valid()
        invariant Drive(States(), enqueue, settleWait, answers[i..]) == Drive(s, enqueue, settleWait, answers)
      {
        assert answers[i..][1..] == answers[i + 1..] && answers[i..][0] == answers[i];
        var ok := Poll(answers[i]);
        if !ok {
          return Failed;
        }
        var all := IsAllDone();
        if all {
          assert Drive(s, enqueue, settleWait, answers) == Finished(States());
          r := Verdict(final);
          return;
        }
      }
      return Waiting;
    }

    /** animate, and the end of liveFlow: a frame is drawn at every tick, the queue is polled at every pollEvery-th. */
    method Animate(pollEvery: nat, answers: seq<Answer>, final: Option<map<string, string>>) returns (r: Outcome)
      requires Valid() && pollEvery > 0
      modifies this`done, this`stalled, this`settleFrom, this`settleAccrued
      ensures r == Conclude(Drive(old(States()), enqueue, settleWait, answers), enqueue, verb, final)
    {
      ghost var s := States();
      hide PollAll, AllDone, Valid, Verified, NoneStalled, States;
      var frame, i := 0, 0;
      while true
        invariant Valid() && i <= |answers|
        invariant Drive(States(), enqueue, settleWait, answers[i..]) == Drive(s, enqueue, settleWait, answers)
        invariant frame % pollEvery != 0 ==> !AllDone(States())
        decreases |answers| - i, if frame % pollEvery == 0 then 0 else pollEvery - frame % pollEvery
      {
        var polling := frame % pollEvery == 0;
        if polling {
          if i == |answers| {
            return Waiting;
          }
          assert answers[i..][1..] == answers[i + 1..] && answers[i..][0] == answers[i];
          var ok := Poll(answers[i]);
          if !ok {
            return Failed;
          }
          i := i + 1;
        }
        var all := IsAllDone();
        if all {
          assert Drive(s, enqueue, settleWait, answers) == Finished(States());
          r := Verdict(final);
          return;
        }
        NextFrame(frame, pollEvery);
        frame := frame + 1;
      }
    }

    /** liveFlow */
    method LiveFlow(pollEvery: nat, confirm: Confirm, enqueued: bool, answers: seq<Answer>,
                    final: Option<map<string, string>>)
      returns (r: Outcome)
      requires Valid() && pollEvery > 0
      modifies this`done, this`stalled, this`settleFrom, this`settleAccrued
      ensures r == Transition(old(States()), enqueue, settleWait, verb, confirm, enqueued, answers, final)
    {
      hide Drive, Conclude, Valid;
      match confirm {
        case Unanswered => return Failed;
        case No => return Aborted;
        case NotAsked =>
        case Yes =>
      }
      if !enqueued {
        return Failed;
      }
      r := Animate(pollEvery, answers, final);
    }
  }

  lemma ClearTwice(s: UnitState, wait: int, now: int, seen: Seen)
    ensures Clear(Clear(s, wait, now, seen), wait, now, seen) == Clear(s, wait, now, seen)
  {
  }

  lemma NextFrame(frame: nat, n: nat)
    requires n > 0
    ensures (frame + 1) % n == if frame % n + 1 == n then 0 else frame % n + 1
  {
    var q, m := frame / n, frame % n;
    assert frame == q * n + m;
    if m + 1 < n {
      ModOf(q, n, m + 1);
    } else {
      assert frame + 1 == (q + 1) * n;
      ModOf(q + 1, n, 0);
    }
  }

  lemma ModOf(q: nat, n: nat, m: nat)
    requires m < n
    ensures (q * n + m) % n == m
  {
    var x := q * n + m;
    var k := q - x / n;
    assert x == (x / n) * n + x % n;
    assert k * n == x % n - m;
    if k >= 1 {
      Product(k, n);
    } else if k <= -1 {
      Product(-k, n);
    }
  }

  lemma Product(k: int, n: nat)
    requires k >= 1
    ensures k * n >= n
  {
  }

  // ---------- what an outcome means

  ghost predicate Answered(answers: seq<Answer>) {
    forall i :: 0 <= i < |answers| ==> answers[i].pending.Some?
  }

  function ObsIn(a: Answer, u: string): Obs
    requires a.pending.Some?
  {
    Obs(a.now, SeenIn(a.pending.value, if a.statuses.Some? then a.statuses.value else map[], u))
  }

  /** What the polls of a run saw of one unit. */
  ghost function ObsOf(answers: seq<Answer>, u: string): seq<Obs>
    requires Answered(answers)
  {
    seq(|answers|, i requires 0 <= i < |answers| => ObsIn(answers[i], u))
  }

  /** s is the states after the polls answers: every enqueued unit has been run by what they saw of it. */
  ghost predicate After(s: States, units: seq<string>, preDone: set<string>, enqueue: seq<string>, wait: int,
                        answers: seq<Answer>) {
    && Answered(answers) && s.Keys == Elems(units)
    && (forall u :: u in units ==> s[u] == if u in enqueue then RunUnit(wait, ObsOf(answers, u))
                                           else Initial(units, preDone)[u])
  }

  lemma AfterNext(s: States, units: seq<string>, preDone: set<string>, enqueue: seq<string>, wait: int,
                  answers: seq<Answer>, k: nat)
    requires k < |answers| && After(s, units, preDone, enqueue, wait, answers[..k])
    requires PollAll(s, enqueue, wait, answers[k]).Some?
    ensures After(PollAll(s, enqueue, wait, answers[k]).value, units, preDone, enqueue, wait, answers[..k + 1])
  {
    var next := PollAll(s, enqueue, wait, answers[k]).value;
    hide Initial, PollUnit, SeenIn;
    forall u | u in units ensures next[u] == if u in enqueue then RunUnit(wait, ObsOf(answers[..k + 1], u))
                                             else Initial(units, preDone)[u] {
      var obs := ObsOf(answers[..k + 1], u);
      assert obs[..k] == ObsOf(answers[..k], u);
      assert obs[k] == ObsIn(answers[k], u);
    }
  }

  /** A drive that finishes does so after some of the polls, with every unit accounted for by what they saw. */
  lemma {:induction false} DriveFinishes(s: States, units: seq<string>, preDone: set<string>, enqueue: seq<string>,
                                         wait: int, answers: seq<Answer>, k: nat) returns (n: nat)
    requires k <= |answers| && After(s, units, preDone, enqueue, wait, answers[..k])
    requires Drive(s, enqueue, wait, answers[k..]).Finished?
    ensures n <= |answers| && AllDone(Drive(s, enqueue, wait, answers[k..]).states)
    ensures After(Drive(s, enqueue, wait, answers[k..]).states, units, preDone, enqueue, wait, answers[..n])
    decreases |answers| - k
  {
    hide After, AllDone, PollAll;
    assert answers[k..][0] == answers[k] && answers[k..][1..] == answers[k + 1..];
    AfterNext(s, units, preDone, enqueue, wait, answers, k);
    var next := PollAll(s, enqueue, wait, answers[k]).value;
    if AllDone(next) {
      n := k + 1;
    } else {
      n := DriveFinishes(next, units, preDone, enqueue, wait, answers, k + 1);
    }
  }

  // ---------- the same in the names of systemd's states

  /** The states in which a unit counts as failed after the verb: of a restart or start those in which it is not up
      or not there yet, of a stop those in which it is up or coming up. */
  function BadStates(verb: Verb): set<string> {
    match verb
    case Stop => {"active", "activating"}
    case _ => {"failed", "activating", "deactivating", "reloading", "refreshing", "maintenance"}
  }

  lemma CountsByName(verb: Verb, activeState: string)
    ensures CountsAsFailed(verb, activeState) <==> activeState in BadStates(verb)
  {
  }

  /** The poll finds the unit without a queued job, and not on its way to another state. */
  ghost predicate SettledAt(a: Answer, u: string) {
    && a.pending.Some? && u !in a.pending.value
    && (a.statuses.Some? && u in a.statuses.value ==>
          a.statuses.value[u] !in {"activating", "deactivating", "reloading", "refreshing", "maintenance"})
  }

  lemma SeenByName(a: Answer, u: string)
    requires a.pending.Some?
    ensures ObsIn(a, u).now == a.now
    ensures ObsIn(a, u).seen == Queued <==> u in a.pending.value
    ensures ObsIn(a, u).seen == Settled <==> SettledAt(a, u)
  {
  }

  /** What a poll decides of a live unit: it is done exactly when the poll finds it settled, it can stall only when it
      is found on its way, and while its job is queued neither happens. */
  lemma PollDecides(s: States, enqueue: seq<string>, wait: int, a: Answer, u: string)
    requires u in enqueue && u in s && Live(s[u]) && PollAll(s, enqueue, wait, a).Some?
    ensures var next := PollAll(s, enqueue, wait, a).value;
            && u in next && a.pending.Some? && (next[u].done <==> SettledAt(a, u))
            && (next[u].stalled ==>
                  && u !in a.pending.value && a.statuses.Some? && u in a.statuses.value
                  && a.statuses.value[u] in {"activating", "deactivating", "reloading", "refreshing", "maintenance"})
  {
    SeenByName(a, u);
  }

  /** A transition that was enqueued and reports no error: no unit stalled, every unit is done, every enqueued
      unit was found settled at one of the polls, and the final query covered every enqueued unit with a state that is
      not a bad one: after a restart or start it is neither failed nor in between, after a stop neither active nor
      activating. */
  lemma SuccessMeans(units: seq<string>, preDone: set<string>, enqueue: seq<string>, wait: int, verb: Verb,
                     confirm: Confirm, enqueued: bool, answers: seq<Answer>, final: Option<map<string, string>>)
    returns (n: nat)
    requires forall u :: u in enqueue <==> u in units && u !in preDone
    requires Transition(Initial(units, preDone), enqueue, wait, verb, confirm, enqueued, answers, final) == Success
    ensures enqueued && confirm in {NotAsked, Yes} && n <= |answers| && Answered(answers[..n])
    ensures forall u :: u in enqueue ==>
        RunUnit(wait, ObsOf(answers[..n], u)).done && !RunUnit(wait, ObsOf(answers[..n], u)).stalled
    ensures forall u :: u in enqueue ==> exists i :: 0 <= i < n && SettledAt(answers[i], u)
    ensures final.Some? && forall u :: u in enqueue ==> u in final.value
    ensures verb != Stop ==> forall u :: u in enqueue ==>
        final.value[u] !in {"failed", "activating", "deactivating", "reloading", "refreshing", "maintenance"}
    ensures verb == Stop ==> forall u :: u in enqueue ==> final.value[u] !in {"active", "activating"}
  {
    var s := Initial(units, preDone);
    assert answers[..0] == [] && answers[0..] == answers;
    assert After(s, units, preDone, enqueue, wait, answers[..0]);
    n := DriveFinishes(s, units, preDone, enqueue, wait, answers, 0);
    var end := Drive(s, enqueue, wait, answers).states;
    forall u | u in enqueue
      ensures RunUnit(wait, ObsOf(answers[..n], u)).done && !RunUnit(wait, ObsOf(answers[..n], u)).stalled
      ensures exists i :: 0 <= i < n && SettledAt(answers[i], u)
      ensures u in final.value && final.value[u] !in BadStates(verb)
    {
      assert u in end && !Live(end[u]) && !end[u].stalled;
      CountsByName(verb, final.value[u]);
      var i := DoneSeen(wait, ObsOf(answers[..n], u));
      assert ObsOf(answers[..n], u)[i] == ObsIn(answers[i], u);
      SeenByName(answers[i], u);
    }
  }

  /** As long as the queries succeed, polling goes on until all units are done or stalled, and stops by poll n if they
      are by then. */
  lemma {:induction false} DriveReaches(s: States, units: seq<string>, preDone: set<string>, enqueue: seq<string>,
                                        wait: int, answers: seq<Answer>, k: nat, n: nat)
    requires k < n <= |answers| && After(s, units, preDone, enqueue, wait, answers[..k])
    requires forall i :: 0 <= i < |answers| ==> answers[i].pending.Some? && answers[i].statuses.Some?
    requires forall u :: u in enqueue ==> !Live(RunUnit(wait, ObsOf(answers[..n], u)))
    requires forall u :: u in units && u !in enqueue ==> u in preDone
    ensures Drive(s, enqueue, wait, answers[k..]).Finished?
    decreases n - k
  {
    hide After, PollAll;
    assert answers[k..][0] == answers[k] && answers[k..][1..] == answers[k + 1..];
    PollGoes(s, enqueue, wait, answers[k]);
    AfterNext(s, units, preDone, enqueue, wait, answers, k);
    var next := PollAll(s, enqueue, wait, answers[k]).value;
    if k + 1 < n {
      DriveReaches(next, units, preDone, enqueue, wait, answers, k + 1, n);
    } else {
      AllDoneAfter(next, units, preDone, enqueue, wait, answers[..n]);
    }
  }

  lemma PollGoes(s: States, enqueue: seq<string>, wait: int, a: Answer)
    requires a.pending.Some? && a.statuses.Some?
    ensures PollAll(s, enqueue, wait, a).Some?
  {
  }

  lemma AllDoneAfter(s: States, units: seq<string>, preDone: set<string>, enqueue: seq<string>, wait: int,
                     answers: seq<Answer>)
    requires After(s, units, preDone, enqueue, wait, answers)
    requires forall u :: u in enqueue ==> !Live(RunUnit(wait, ObsOf(answers, u)))
    requires forall u :: u in units && u !in enqueue ==> u in preDone
    ensures AllDone(s)
  {
    hide ObsOf, RunUnit;
  }

  /** Conversely, a transition whose queries succeed, whose units are all done and not stalled after some poll, and
      that ends in states that are not bad ones, succeeds. */
  lemma SuccessWhen(units: seq<string>, preDone: set<string>, enqueue: seq<string>, wait: int, verb: Verb,
                    confirm: Confirm, answers: seq<Answer>, final: Option<map<string, string>>, n: nat)
    requires forall u :: u in enqueue <==> u in units && u !in preDone
    requires confirm in {NotAsked, Yes} && 0 < n <= |answers|
    requires forall i :: 0 <= i < |answers| ==> answers[i].pending.Some? && answers[i].statuses.Some?
    requires forall u :: u in enqueue ==> RunUnit(wait, ObsOf(answers[..n], u)).done
    requires final.Some? && forall u :: u in enqueue ==> u in final.value
    requires verb != Stop ==> forall u :: u in enqueue ==>
        final.value[u] !in {"failed", "activating", "deactivating", "reloading", "refreshing", "maintenance"}
    requires verb == Stop ==> forall u :: u in enqueue ==> final.value[u] !in {"active", "activating"}
    ensures Transition(Initial(units, preDone), enqueue, wait, verb, confirm, true, answers, final) == Success
  {
    var s := Initial(units, preDone);
    assert answers[..0] == [] && answers[0..] == answers;
    assert After(s, units, preDone, enqueue, wait, answers[..0]);
    DriveReaches(s, units, preDone, enqueue, wait, answers, 0, n);
    var m := DriveFinishes(s, units, preDone, enqueue, wait, answers, 0);
    var end := Drive(s, enqueue, wait, answers).states;
    forall u | u in end ensures !end[u].stalled {
      if u in enqueue {
        NotStalled(answers, u, wait, m, n);
      }
    }
    forall u | u in enqueue ensures !CountsAsFailed(verb, final.value[u]) {
      CountsByName(verb, final.value[u]);
    }
  }

  /** A unit that is done at poll n is not stalled at any poll. */
  lemma NotStalled(answers: seq<Answer>, u: string, wait: int, m: nat, n: nat)
    requires Answered(answers) && m <= |answers| && n <= |answers| && RunUnit(wait, ObsOf(answers[..n], u)).done
    ensures !RunUnit(wait, ObsOf(answers[..m], u)).stalled
  {
    var a, b := ObsOf(answers[..m], u), ObsOf(answers[..n], u);
    if m <= n {
      assert b[..m] == a;
      Absorbing(wait, b, m);
      Absorbing(wait, a, m);
    } else {
      assert a[..n] == b;
      Absorbing(wait, a, n);
    }
  }
}
