/**
 * The step-size controller of the integrators, on values: the time, the
 * current step size and the streak of accepted steps, the 5 % acceptance
 * test, the halving that keeps a step from passing the next event, and one
 * whole event-aware step. The classes in module Integration are proved to
 * update their fields exactly as these functions say.
 */
module StepControl {
  import opened Vector

  /** The part of the integrator state the controller decides. */
  datatype Control = Control(t: real, dt: real, goodsteps: int)

  /** The time of the next queued event, if any. */
  datatype NextEvent = NoEvent | EventAt(time: real)

  /** The controller's part of one event-aware step, and whether the step
      landed on the next event. */
  datatype Outcome = Outcome(c: Control, landed: bool)

  function Max(x: real, y: real): real { if x < y then y else x }
  function Min(x: real, y: real): real { if x < y then x else y }

  /** The step size lies within its configured bounds. */
  predicate InRange(dt: real, dtmin: real, dtmax: real)
  {
    0.0 < dtmin <= dt <= dtmax
  }

  /** Dividing by a positive number and comparing is comparing with the
      product. */
  lemma DivExceeds(a: real, den: real, k: real)
    requires den > 0.0
    ensures a / den > k <==> a > k * den
  {
    var q := a / den;
    assert q * den == a;
    if q > k {
      assert (q - k) * den > 0.0;
    } else {
      assert (k - q) * den >= 0.0;
    }
  }

  /** The 5 % test on the norms of the Euler and midpoint endpoints: the step
      is rejected when the relative difference `|e1 - e2| / (|e1 + e2| / 2)`
      exceeds 0.05 (RejectsIsRatio). With a zero denominator the quotient is
      +infinity when the numerator is positive (reject) and NaN when it is
      zero (NaN > 0.05 is false: accept). The comparison is stated without
      the division. */
  function Rejects(absE1: real, absE2: real): (r: bool)
    ensures absE1 == absE2 ==> !r
    ensures absE1 >= 0.0 && absE2 >= 0.0 ==> (r <==> 40.0 * Abs(absE1 - absE2) > absE1 + absE2)
  {
    var den := Abs(absE1 + absE2) / 2.0;
    if den == 0.0 then Abs(absE1 - absE2) > 0.0
    else Abs(absE1 - absE2) > 0.05 * den
  }

  /** Where the denominator is not zero, Rejects is the quotient test. */
  lemma RejectsIsRatio(absE1: real, absE2: real)
    requires absE1 + absE2 != 0.0
    ensures Rejects(absE1, absE2) <==> Abs(absE1 - absE2) / (Abs(absE1 + absE2) / 2.0) > 0.05
  {
    DivExceeds(Abs(absE1 - absE2), Abs(absE1 + absE2) / 2.0, 0.05);
  }

  /** The first half of an adaptive step's decision. A rejected step
      advances by half the step, halves the step size (not below `dtmin`) and
      resets the streak; an accepted one advances by the whole step and
      extends the streak. */
  function Judge(c: Control, rejected: bool, dtmin: real): (r: Control)
    requires 0.0 < dtmin <= c.dt
    ensures dtmin <= r.dt <= c.dt
    ensures r.t == c.t + (if rejected then c.dt / 2.0 else c.dt)
    ensures rejected ==> r.goodsteps == 0 && r.dt == Max(c.dt / 2.0, dtmin)
    ensures !rejected ==> r == Control(c.t + c.dt, c.dt, c.goodsteps + 1)
  {
    if rejected then Control(c.t + c.dt / 2.0, if c.dt / 2.0 < dtmin then dtmin else c.dt / 2.0, 0)
    else Control(c.t + c.dt, c.dt, c.goodsteps + 1)
  }

  /** The second half: the step size doubles once the streak reaches 8, and
      is then capped at `dtmax`. */
  function Grow(c: Control, dtmax: real): (r: Control)
    ensures r.t == c.t && r.goodsteps == c.goodsteps
    ensures r.dt <= dtmax
    ensures 0.0 <= c.dt <= dtmax ==> c.dt <= r.dt
    ensures r.dt != c.dt ==> r.dt == Min(2.0 * c.dt, dtmax) || c.dt > dtmax
  {
    var dt := if c.dt < dtmax && c.goodsteps >= 8 then 2.0 * c.dt else c.dt;
    c.(dt := if dt > dtmax then dtmax else dt)
  }

  /** One adaptive step's decision: Judge, then Grow. */
  function Adapt(c: Control, rejected: bool, dtmin: real, dtmax: real): (r: Control)
    requires InRange(c.dt, dtmin, dtmax)
    ensures InRange(r.dt, dtmin, dtmax)
    ensures r.t == c.t + (if rejected then c.dt / 2.0 else c.dt)
    ensures r.t > c.t
    ensures rejected ==> r.goodsteps == 0 && r.dt == Max(c.dt / 2.0, dtmin)
    ensures !rejected ==> r.goodsteps == c.goodsteps + 1
    ensures !rejected ==> (r.dt != c.dt <==> c.dt < dtmax && c.goodsteps + 1 >= 8)
    ensures !rejected && r.dt != c.dt ==> r.dt == Min(2.0 * c.dt, dtmax)
  {
    Grow(Judge(c, rejected, dtmin), dtmax)
  }

  /** Halving `dt` shrinks the integer measure `(dt / dtmin).Floor`. */
  lemma HalvingShrinks(dt: real, dtmin: real)
    requires 0.0 < dtmin < dt
    ensures ((dt / 2.0) / dtmin).Floor < (dt / dtmin).Floor
  {
    var x := dt / dtmin;
    assert (dt / 2.0) / dtmin == x / 2.0;
    assert x > 1.0;
    if x < 2.0 {
      assert (x / 2.0).Floor == 0;
    } else {
      assert (x / 2.0).Floor as real <= x / 2.0 <= x - 1.0 < x.Floor as real;
    }
  }

  /** The halving before an event: `dt` is halved while it is above `dtmin`
      and a step of that size from `t` would pass the event time `m`. The
      result is the first size in `dt, dt/2, dt/4, ...` that is at most
      `dtmin` or stays at or before `m`. */
  function Halve(t: real, dt: real, dtmin: real, m: real): (r: real)
    requires 0.0 < dtmin && 0.0 < dt
    ensures 0.0 < r <= dt
    ensures r <= dtmin || t + r <= m
    ensures r < dt ==> dtmin < 2.0 * r && m < t + 2.0 * r
    ensures dtmin <= dt ==> dtmin < 2.0 * r
    decreases (dt / dtmin).Floor
  {
    if dt > dtmin && t + dt > m then
      HalvingShrinks(dt, dtmin);
      Halve(t, dt / 2.0, dtmin, m)
    else dt
  }

  /** The step size after the approach to an event at `m`: halved, then
      raised back to `dtmin` if it fell below. */
  function Shrink(t: real, dt: real, dtmin: real, m: real): (r: real)
    requires 0.0 < dtmin <= dt
    ensures dtmin <= r <= dt
    ensures r == dtmin || t + r <= m
  {
    var h := Halve(t, dt, dtmin, m);
    if h < dtmin then dtmin else h
  }

  /** The step size an event-aware step uses: the current one with no event
      queued, otherwise the current one shrunk towards the next event. */
  function Planned(c: Control, dtmin: real, next: NextEvent): (d: real)
    requires 0.0 < dtmin <= c.dt
    ensures dtmin <= d <= c.dt
    ensures next.EventAt? ==> d == dtmin || c.t + d <= next.time
    ensures next == NoEvent ==> d == c.dt
  {
    match next
    case NoEvent => c.dt
    case EventAt(m) => Shrink(c.t, c.dt, dtmin, m)
  }

  /** The controller's part of one non-draining step of the event
      integrator. With no queued event this is the plain adaptive step.
      Otherwise the step size is shrunk towards the next event time `m`; if
      even a step of `dtmin` would pass `m`, the step lands exactly on `m`,
      resets the step size to `dtmin` and keeps the streak; else the adaptive
      step runs with the shrunk size. `rejected` is the verdict of the 5 %
      test for a step of the Planned size. */
  function NextControl(c: Control, dtmin: real, dtmax: real, next: NextEvent, rejected: bool): (r: Outcome)
    requires InRange(c.dt, dtmin, dtmax)
    ensures InRange(r.c.dt, dtmin, dtmax)
    ensures next == NoEvent ==> r == Outcome(Adapt(c, rejected, dtmin, dtmax), false)
    ensures r.landed <==> next.EventAt? && next.time < c.t + dtmin
    ensures r.landed ==> r.c == Control(next.time, dtmin, c.goodsteps)
    ensures !r.landed ==> r.c == Adapt(c.(dt := Planned(c, dtmin, next)), rejected, dtmin, dtmax)
    ensures next.EventAt? ==> r.c.t <= next.time
    ensures !r.landed ==> r.c.t >= c.t + dtmin / 2.0
    ensures next.EventAt? && c.t <= next.time ==> c.t <= r.c.t
  {
    var d := Planned(c, dtmin, next);
    if next.EventAt? && d == dtmin && c.t + d > next.time then
      Outcome(Control(next.time, dtmin, c.goodsteps), true)
    else
      var r := Adapt(c.(dt := d), rejected, dtmin, dtmax);
      assert next.EventAt? ==> r.t <= c.t + d;
      Outcome(r, false)
  }

  /** One measure step: moving at least `dtmin / 2` towards `m` lowers
      `(2 (m - t) / dtmin).Floor` and keeps it non-negative. */
  lemma ApproachShrinks(t: real, t': real, m: real, dtmin: real)
    requires 0.0 < dtmin && t + dtmin / 2.0 <= t' <= m
    ensures 0 <= ((m - t') * 2.0 / dtmin).Floor < ((m - t) * 2.0 / dtmin).Floor
  {
    var x, x' := (m - t) * 2.0 / dtmin, (m - t') * 2.0 / dtmin;
    assert x' == x - (t' - t) * 2.0 / dtmin;
    assert (t' - t) * 2.0 / dtmin >= 1.0 by {
      assert (t' - t) * 2.0 >= dtmin;
    }
    assert x' >= 0.0;
  }

  /** Repeated steps towards an event at `m`, with no other event before it,
      whatever the 5 % test decides at each step (`rejects(i)` at step `i`):
      the run ends, and it ends on a landing exactly at `m` with step size
      `dtmin`. Every step on the way stays at or before `m` (NextControl). */
  function Approach(c: Control, m: real, dtmin: real, dtmax: real, rejects: nat -> bool, i: nat): (r: Control)
    requires InRange(c.dt, dtmin, dtmax) && c.t <= m
    ensures r.t == m && r.dt == dtmin
    decreases ((m - c.t) * 2.0 / dtmin).Floor
  {
    var out := NextControl(c, dtmin, dtmax, EventAt(m), rejects(i));
    if out.landed then out.c
    else
      ApproachShrinks(c.t, out.c.t, m, dtmin);
      Approach(out.c, m, dtmin, dtmax, rejects, i + 1)
  }
}
