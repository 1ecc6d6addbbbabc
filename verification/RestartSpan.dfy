/** restartSpan and the restart-flap finding. Time spans are reals; the ratio of the backoff, which the code
    obtains by exp and log, is a real number r with delay * r^steps == max. */
module RestartSpan {
  import opened Wrappers

  function Pow(r: real, n: nat): real {
    if n == 0 then 1.0 else r * Pow(r, n - 1)
  }

  /** The [Service] settings that matter: RestartSec, RestartSteps, and a finite RestartMaxDelaySec. */
  datatype Service = Service(delay: real, steps: int, max: Option<real>)

  /** Every gap is RestartSec: no backoff, or one that does not apply. */
  predicate Flat(s: Service) {
    s.steps <= 0 || s.delay == 0.0 || s.max.None? || s.delay >= s.max.value
  }

  /** r is the ratio of the geometric ramp. */
  ghost predicate Ratio(s: Service, r: real) {
    s.delay >= 0.0 && (!Flat(s) ==> r > 1.0 && Climb(s, r, s.steps) == s.max.value)
  }

  /** restartSpan, in closed form. */
  function Span(s: Service, burst: nat, r: real): real
    requires Ratio(s, r)
  {
    if Flat(s) then burst as real * s.delay
    else
      var k := if burst < s.steps then burst else s.steps;
      Ramp(s, k, r) + Tail(s, if burst > s.steps then burst - s.steps else 0)
  }

  /** The first k gaps of the geometric ramp. */
  function Ramp(s: Service, k: nat, r: real): real
    requires r > 1.0
  {
    s.delay * (Pow(r, k) - 1.0) / (r - 1.0)
  }

  /** n gaps at the maximum. */
  function Tail(s: Service, n: nat): real
    requires s.max.Some?
  {
    n as real * s.max.value
  }

  // ---------- the restarts themselves

  /** The gap before restart number i + 1: a geometric ramp over the steps, then flat at the maximum. */
  ghost function Gap(s: Service, r: real, i: nat): real
    requires Ratio(s, r)
  {
    if Flat(s) then s.delay
    else if i < s.steps then Climb(s, r, i)
    else s.max.value
  }

  /** RestartSec grown by the ratio i times. */
  ghost function Climb(s: Service, r: real, i: nat): real {
    s.delay * Pow(r, i)
  }

  /** There is a ramp when there are steps from a delay that is not zero up to a finite maximum above it, and then the
      gaps grow by the ratio over the steps and stay at the maximum; else every gap is RestartSec. */
  lemma GapIs(s: Service, r: real, i: nat)
    requires Ratio(s, r)
    ensures var ramp := s.steps > 0 && s.delay != 0.0 && s.max.Some? && s.delay < s.max.value;
            && (!ramp ==> Gap(s, r, i) == s.delay)
            && (ramp ==> r > 1.0 && s.delay * Pow(r, s.steps) == s.max.value)
            && (ramp && i < s.steps ==> Gap(s, r, i) == s.delay * Pow(r, i))
            && (ramp && i >= s.steps ==> Gap(s, r, i) == s.max.value)
  {
    hide Pow;
  }

  /** When start number j happens in a run of instant failures, the first start being number 0. */
  ghost function StartAt(s: Service, r: real, j: nat): real
    requires Ratio(s, r)
  {
    if j == 0 then 0.0 else StartAt(s, r, j - 1) + Gap(s, r, j - 1)
  }

  lemma {:induction false} FlatStarts(s: Service, r: real, j: nat)
    requires Ratio(s, r) && Flat(s)
    ensures StartAt(s, r, j) == j as real * s.delay
  {
    if j > 0 {
      FlatStarts(s, r, j - 1);
      assert j as real == (j - 1) as real + 1.0;
    }
  }

  lemma Quotient(x: real, y: real, z: real)
    requires y != 0.0 && x * y == z
    ensures x == z / y
  {
  }

  /** The geometric sum, without division. */
  ghost predicate Summed(s: Service, r: real, j: nat)
    requires Ratio(s, r)
  {
    StartAt(s, r, j) * (r - 1.0) == s.delay * (Pow(r, j) - 1.0)
  }

  lemma {:induction false} RampStarts(s: Service, r: real, j: nat)
    requires Ratio(s, r) && !Flat(s) && j <= s.steps
    ensures Summed(s, r, j)
  {
    if j > 0 {
      RampStarts(s, r, j - 1);
      RampNext(s, r, j);
    }
  }

  lemma RampNext(s: Service, r: real, j: nat)
    requires Ratio(s, r) && !Flat(s) && 0 < j <= s.steps && Summed(s, r, j - 1)
    ensures Summed(s, r, j)
  {
    var x, p := StartAt(s, r, j - 1), Pow(r, j - 1);
    assert StartAt(s, r, j) == x + s.delay * p && Pow(r, j) == r * p;
    hide StartAt, Pow, Flat, Ratio;
    GeometricStep(x, s.delay, r, p);
  }

  lemma GeometricStep(x: real, d: real, r: real, p: real)
    requires x * (r - 1.0) == d * (p - 1.0)
    ensures (x + d * p) * (r - 1.0) == d * (r * p - 1.0)
  {
    assert (x + d * p) * (r - 1.0) == x * (r - 1.0) + d * p * (r - 1.0);
    assert d * p * (r - 1.0) == d * (r * p) - d * p;
  }

  lemma {:induction false} TailStarts(s: Service, r: real, j: nat)
    requires Ratio(s, r) && !Flat(s) && j >= s.steps
    ensures StartAt(s, r, j) == StartAt(s, r, s.steps) + Tail(s, j - s.steps)
    decreases j
  {
    if j > s.steps {
      TailStarts(s, r, j - 1);
      var n := j - 1 - s.steps;
      assert (n + 1) as real == n as real + 1.0;
    }
  }

  /** The closed form is the sum of the first burst gaps. */
  lemma SpanIsSum(s: Service, burst: nat, r: real)
    requires Ratio(s, r)
    ensures Span(s, burst, r) == StartAt(s, r, burst)
  {
    if Flat(s) {
      FlatStarts(s, r, burst);
    } else {
      var k := if burst < s.steps then burst else s.steps;
      RampIsSum(s, r, k);
      TailStarts(s, r, if burst > s.steps then burst else s.steps);
      assert Tail(s, 0) == 0.0;
      hide StartAt, Ramp, Tail;
    }
  }

  lemma RampIsSum(s: Service, r: real, k: nat)
    requires Ratio(s, r) && !Flat(s) && k <= s.steps
    ensures StartAt(s, r, k) == Ramp(s, k, r)
  {
    RampStarts(s, r, k);
    hide StartAt, Pow;
    Quotient(StartAt(s, r, k), r - 1.0, s.delay * (Pow(r, k) - 1.0));
  }

  // ---------- gaps never shrink

  lemma {:induction false} PowGrows(r: real, m: nat, n: nat)
    requires r > 1.0 && m <= n
    ensures 1.0 <= Pow(r, m) <= Pow(r, n)
    decreases n
  {
    if m > 0 {
      PowGrows(r, m - 1, n - 1);
      Scale(r, Pow(r, m - 1), Pow(r, n - 1));
      Scale(Pow(r, m - 1), 1.0, r);
    } else if n > 0 {
      PowGrows(r, 0, n - 1);
      Scale(Pow(r, n - 1), 1.0, r);
    }
  }

  lemma Scale(c: real, x: real, y: real)
    requires c >= 0.0 && x <= y
    ensures c * x <= c * y
  {
  }

  lemma GapsGrow(s: Service, r: real, i: nat, j: nat)
    requires Ratio(s, r) && i <= j
    ensures Gap(s, r, i) <= Gap(s, r, j)
  {
    if !Flat(s) && i < s.steps {
      ClimbGrows(s, r, i, if j < s.steps then j else s.steps);
    }
    hide Climb;
  }

  lemma ClimbGrows(s: Service, r: real, i: nat, j: nat)
    requires s.delay >= 0.0 && r > 1.0 && i <= j
    ensures Climb(s, r, i) <= Climb(s, r, j)
  {
    PowGrows(r, i, j);
    hide Pow;
    Scale(s.delay, Pow(r, i), Pow(r, j));
  }

  /** n + 1 consecutive starts are never closer together than the first n + 1. */
  lemma {:induction false} FirstIsTightest(s: Service, r: real, j: nat, n: nat)
    requires Ratio(s, r)
    ensures StartAt(s, r, j + n) - StartAt(s, r, j) >= StartAt(s, r, n)
  {
    if n > 0 {
      FirstIsTightest(s, r, j, n - 1);
      GapsGrow(s, r, n - 1, j + n - 1);
    }
  }

  // ---------- the finding

  /** StartLimitIntervalSec: absent, not a finite span, or a number of seconds. */
  datatype Interval = Default | Unreadable | Seconds(value: real)

  const DEFAULT_INTERVAL: real := 10.0
  const DEFAULT_BURST: nat := 5

  function Seconds0(i: Interval): Option<real> {
    match i
    case Default => Some(DEFAULT_INTERVAL)
    case Unreadable => None
    case Seconds(v) => if v == 0.0 then None else Some(v)
  }

  /** restartFlapFinding, for a RestartSec that parses: whether the rule fires. */
  function Finding(s: Service, interval: Interval, burst: Option<nat>, r: real): bool
    requires Ratio(s, r)
  {
    var window := Seconds0(interval);
    var n := if burst.Some? then burst.value else DEFAULT_BURST;
    window.Some? && n != 0 && Span(s, n, r) >= window.value
  }

  /** Start number j + n comes less than window after start number j: the limiter refuses it. */
  ghost predicate Refused(s: Service, r: real, window: real, n: nat, j: nat)
    requires Ratio(s, r)
  {
    StartAt(s, r, j + n) - StartAt(s, r, j) < window
  }

  /** The rule fires exactly when the limiter is on and yet no burst + 1 starts, anywhere in an endless run of
      instant failures, fall within the window. The window is ten seconds if none is set, and off if it is set to
      zero or to what is no finite span; the burst is five if none is set, and off at zero. */
  lemma FindingExact(s: Service, interval: Interval, burst: Option<nat>, r: real)
    requires Ratio(s, r)
    ensures var window, n := Seconds0(interval), if burst.Some? then burst.value else DEFAULT_BURST;
            Finding(s, interval, burst, r) <==>
                window.Some? && n != 0 && forall j: nat :: !Refused(s, r, window.value, n, j)
    ensures var window := if interval.Seconds? then interval.value else 10.0;
            var n := if burst.Some? then burst.value else 5;
            Finding(s, interval, burst, r) <==>
                && interval != Unreadable && interval != Seconds(0.0) && burst != Some(0)
                && forall j: nat :: !Refused(s, r, window, n, j)
  {
    var window, n := Seconds0(interval), if burst.Some? then burst.value else DEFAULT_BURST;
    SpanIsSum(s, n, r);
    forall j: nat ensures StartAt(s, r, j + n) - StartAt(s, r, j) >= StartAt(s, r, n) {
      FirstIsTightest(s, r, j, n);
    }
    if window.Some? && Span(s, n, r) < window.value {
      assert Refused(s, r, window.value, n, 0);
    }
  }
}
