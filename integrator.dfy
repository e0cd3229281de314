/**
 * The two integrators of integrator.hpp. `Integrator` is the adaptive
 * Euler stepper; `EventIntegrator` owns an `Integrator` and a calendar queue
 * and lands exactly on every queued event time. The derivative callback `dx`
 * is a function value fixed at construction.
 */
module Integration {
  import opened Vector
  import opened StepControl
  import opened EventQueue
  import opened MinQueue

  /** The derivative callback keeps the state's dimension, as writing into a
      `T &dxdt` of the state's own fixed-size type does. */
  ghost predicate DimPreserving(dx: (Vec, real) -> Vec)
  {
    forall s: Vec, t: real :: |dx(s, t)| == |s|
  }

  lemma SlopeDim(dx: (Vec, real) -> Vec, s: Vec, t: real)
    requires DimPreserving(dx)
    ensures |dx(s, t)| == |s|
  {
  }

  /** The derivative at state `s` and time `t`. */
  function Slope(dx: (Vec, real) -> Vec, s: Vec, t: real): (e: Vec)
    requires DimPreserving(dx)
    ensures |e| == |s|
  {
    SlopeDim(dx, s, t);
    dx(s, t)
  }

  /** The 5 % test of one adaptive step of size `dt` from state `s` at time
      `t`: the norm of the plain Euler endpoint against the norm of the
      endpoint that uses the midpoint slope for the second half. */
  function RatioRejects(dx: (Vec, real) -> Vec, s: Vec, t: real, dt: real): (r: bool)
    requires DimPreserving(dx)
    ensures dt == 0.0 ==> !r
  {
    var e1 := Slope(dx, s, t);
    var half := Euler(s, e1, dt / 2.0);
    var e2 := Slope(dx, half, t + dt / 2.0);
    var absE1 := Norm(Euler(s, e1, dt));
    var absE2 := Norm(Euler(half, e2, dt / 2.0));
    assert dt == 0.0 ==> absE1 == absE2 by {
      if dt == 0.0 {
        EulerZero(s, e1);
        EulerZero(half, e2);
      }
    }
    Rejects(absE1, absE2)
  }

  /** `s1` at `t1` is one forward Euler step from `s0` at `t0` along the
      derivative at the start. */
  ghost predicate EulerStep(dx: (Vec, real) -> Vec, s0: Vec, t0: real, s1: Vec, t1: real)
    requires DimPreserving(dx)
  {
    s1 == Euler(s0, Slope(dx, s0, t0), t1 - t0)
  }

  class Integrator {
    var stateval: Vec
    const dx: (Vec, real) -> Vec
    var dtval: real
    const dtmin: real
    const dtmax: real
    var t: real
    var goodsteps: int
    var stepcount: int

    ghost predicate Valid()
      reads this
    {
      InRange(dtval, dtmin, dtmax) && DimPreserving(dx)
    }

    /** The fields the step-size controller decides. */
    function Ctl(): Control
      reads this
    {
      Control(t, dtval, goodsteps)
    }

    /** Starts at time 0 with the smallest step. The streak of good steps is
        not initialised and so is left arbitrary. */
    constructor (stateval: Vec, dx: (Vec, real) -> Vec, dtmin: real, dtmax: real)
      requires dtmin > 0.0 && dtmax > 0.0 && dtmin <= dtmax
      requires DimPreserving(dx)
      ensures Valid()
      ensures this.stateval == stateval && this.dx == dx
      ensures this.dtmin == dtmin && this.dtmax == dtmax
      ensures t == 0.0 && dtval == dtmin && stepcount == 0
    {
      this.stateval := stateval;
      this.dx := dx;
      this.dtmin := dtmin;
      this.dtmax := dtmax;
      dtval := dtmin;
      stepcount := 0;
      t := 0.0;
    }

    /** Sets the step size; only values within the bounds are accepted. */
    method SetDt(h: real)
      requires Valid()
      requires h > 0.0 && h >= dtmin && h <= dtmax
      modifies this`dtval
      ensures Valid() && dtval == h
    {
      dtval := h;
    }

    /** The growth rule of the step: double the step size after a streak of 8
        good steps, then cap it at `dtmax`. */
    method GrowStep()
      modifies this`dtval
      ensures Ctl() == Grow(old(Ctl()), dtmax)
    {
      if dtval < dtmax && goodsteps >= 8 {
        dtval := 2.0 * dtval;
      }
      if dtval > dtmax {
        dtval := dtmax;
      }
    }

    /** The body shared by both integrators' steps: one adaptive step of the
        current size, without touching the step count. */
    method AdaptiveAdvance()
      requires Valid()
      modifies this`stateval, this`t, this`dtval, this`goodsteps
      ensures Valid()
      ensures Ctl() == Adapt(old(Ctl()), RatioRejects(dx, old(stateval), old(t), old(dtval)), dtmin, dtmax)
      ensures EulerStep(dx, old(stateval), old(t), stateval, t)
    {
      ghost var c0, s0 := Ctl(), stateval;
      var rejected := RatioRejects(dx, stateval, t, dtval);
      var e1 := Slope(dx, stateval, t);
      ghost var h := if rejected then dtval / 2.0 else dtval;
      if rejected {
        stateval := Euler(stateval, e1, dtval / 2.0);
        t := t + dtval / 2.0;
        dtval := dtval / 2.0;
        if dtval < dtmin {
          dtval := dtmin;
        }
        goodsteps := 0;
      } else {
        stateval := Euler(stateval, e1, dtval);
        t := t + dtval;
        goodsteps := goodsteps + 1;
      }
      assert stateval == Euler(s0, e1, h);
      assert Ctl() == Judge(c0, rejected, dtmin);
      GrowStep();
    }

    /** The approach to the next event, at `m`: halve the step size while it is above `dtmin` and a
        step would pass `m`, then raise it back to `dtmin` if it fell below. */
    method ShrinkTowards(m: real)
      requires Valid()
      modifies this`dtval
      ensures Valid()
      ensures dtval == Shrink(t, old(dtval), dtmin, m)
    {
      ghost var dt0 := dtval;
      while dtval > dtmin && t + dtval > m
        invariant 0.0 < dtval
        invariant Halve(t, dtval, dtmin, m) == Halve(t, dt0, dtmin, m)
        decreases (dtval / dtmin).Floor
      {
        HalvingShrinks(dtval, dtmin);
        dtval := dtval / 2.0;
      }
      if dtval < dtmin {
        dtval := dtmin;
      }
    }

    /** One adaptive step: counted, and time strictly advances. */
    method Step()
      requires Valid()
      modifies this`stateval, this`t, this`dtval, this`goodsteps, this`stepcount
      ensures Valid()
      ensures stepcount == old(stepcount) + 1
      ensures Ctl() == Adapt(old(Ctl()), RatioRejects(dx, old(stateval), old(t), old(dtval)), dtmin, dtmax)
      ensures EulerStep(dx, old(stateval), old(t), stateval, t)
      ensures t > old(t)
    {
      stepcount := stepcount + 1;
      AdaptiveAdvance();
    }
  }

  class EventIntegrator {
    const integ: Integrator
    const calq: CalendarQueue
    var atEvent: bool
    var atEventName: string

    ghost predicate Valid()
      reads this, integ, calq
    {
      integ.Valid() && calq.Valid()
    }

    /** A step may be asked for unless the integrator is at an event and the
        queue is empty: the drain test would then read the top of an empty
        queue. */
    ghost predicate CanStep()
      reads this, calq
    {
      atEvent ==> calq.deq != []
    }

    /** The next step drains a further event queued at the current time. */
    ghost predicate Draining()
      reads this, integ, calq
    {
      atEvent && calq.deq != [] && Top(calq.deq).t == integ.t
    }

    /** The next step lands on the next event: it lies closer than `dtmin`. */
    ghost predicate LandsNext()
      reads this, integ, calq
    {
      calq.deq != [] && Top(calq.deq).t < integ.t + integ.dtmin
    }

    ghost function NextTime(): NextEvent
      reads this, calq
    {
      if calq.deq == [] then NoEvent else EventAt(Top(calq.deq).t)
    }

    constructor (stateval: Vec, dx: (Vec, real) -> Vec, dtmin: real, dtmax: real)
      requires dtmin > 0.0 && dtmax > 0.0 && dtmin <= dtmax
      requires DimPreserving(dx)
      ensures Valid() && fresh(integ) && fresh(calq)
      ensures integ.stateval == stateval && integ.dx == dx
      ensures integ.dtmin == dtmin && integ.dtmax == dtmax
      ensures integ.t == 0.0 && integ.dtval == dtmin && integ.stepcount == 0
      ensures calq.deq == [] && !atEvent && atEventName == ""
    {
      integ := new Integrator(stateval, dx, dtmin, dtmax);
      calq := new CalendarQueue();
      atEvent := false;
      atEventName := "";
    }

    /** Schedules `event` at time `t`, recurring every `recurInt` if that is
        positive. */
    method InsertEvent(t: real, event: string, recurInt: real)
      requires Valid() && recurInt >= 0.0
      modifies calq
      ensures Valid()
      ensures calq.deq == old(calq.deq) + [DiscreteEvent(t, event, recurInt)]
    {
      calq.Insert(t, event, recurInt);
    }

    method IsEvent() returns (b: bool)
      ensures b == atEvent
    {
      b := atEvent;
    }

    /** The label reported while at an event, empty otherwise. It is the
        label of the queue's current top, which after the pop that fired the
        event is the next pending one. */
    method Event() returns (name: string)
      requires CanStep()
      ensures atEvent ==> name == Top(calq.deq).event
      ensures !atEvent ==> name == ""
    {
      if atEvent {
        name := calq.CurrentEvent();
      } else {
        name := "";
      }
    }

    /** The label of the event that fired on the last step, empty when the
        last step fired none. */
    method FiredEvent() returns (name: string)
      ensures atEvent ==> name == atEventName
      ensures !atEvent ==> name == ""
    {
      name := if atEvent then atEventName else "";
    }

    /** One step. At an event with a further event queued at the same time
        it only pops that event; otherwise it is an Advance. */
    method Step() returns (ghost drained: bool)
      requires Valid() && CanStep()
      modifies this, integ, calq
      ensures Valid()
      ensures drained <==> old(Draining())
      ensures drained ==>
        && calq.deq == AfterPop(old(calq.deq))
        && atEvent && atEventName == old(Top(calq.deq).event)
        && integ.Ctl() == old(integ.Ctl())
        && integ.stateval == old(integ.stateval)
        && integ.stepcount == old(integ.stepcount)
      ensures !drained ==> integ.stepcount == old(integ.stepcount) + 1
      ensures !drained ==>
        EulerStep(integ.dx, old(integ.stateval), old(integ.t), integ.stateval, integ.t)
      ensures !drained ==>
        var out := NextControl(old(integ.Ctl()), integ.dtmin, integ.dtmax, old(NextTime()),
                               RatioRejects(integ.dx, old(integ.stateval), old(integ.t),
                                            Planned(old(integ.Ctl()), integ.dtmin, old(NextTime()))));
        && integ.Ctl() == out.c
        && atEvent == out.landed
        && (out.landed ==> calq.deq == AfterPop(old(calq.deq)) && atEventName == old(Top(calq.deq).event))
        && (!out.landed ==> calq.deq == old(calq.deq) && atEventName == old(atEventName))
    {
      var drain := false;
      if atEvent {
        var top := calq.CurrentTime();
        drain := top == integ.t;
      }
      drained := drain;
      if drain {
        atEventName := calq.CurrentEvent();
        calq.Pop();
      } else {
        var land := Advance();
      }
    }

    /** The step when no event is being drained: counted; the step size
        shrinks so as not to pass the next event; then either a landing
        exactly on that event, which fires and is popped, or the adaptive
        step. The controller's part is NextControl. */
    method Advance() returns (land: bool)
      requires Valid()
      modifies this, integ, calq
      ensures Valid()
      ensures land <==> old(LandsNext())
      ensures integ.stepcount == old(integ.stepcount) + 1
      ensures EulerStep(integ.dx, old(integ.stateval), old(integ.t), integ.stateval, integ.t)
      ensures land ==>
        && integ.Ctl() == Control(old(Top(calq.deq).t), integ.dtmin, old(integ.goodsteps))
        && atEvent && atEventName == old(Top(calq.deq).event)
        && calq.deq == AfterPop(old(calq.deq))
      ensures !land ==>
        var d := Planned(old(integ.Ctl()), integ.dtmin, old(NextTime()));
        && integ.Ctl() == Adapt(old(integ.Ctl()).(dt := d), RatioRejects(integ.dx, old(integ.stateval), old(integ.t), d), integ.dtmin, integ.dtmax)
        && !atEvent && atEventName == old(atEventName)
        && calq.deq == old(calq.deq)
    {
      atEvent := false;
      integ.stepcount := integ.stepcount + 1;
      land := ApproachEvent();
      if land {
        Land();
      } else {
        integ.AdaptiveAdvance();
      }
    }

    /** With an event queued, shrink the step size towards it, and report
        whether even the smallest step would pass it. */
    method ApproachEvent() returns (land: bool)
      requires Valid()
      modifies integ`dtval
      ensures Valid()
      ensures integ.dtval == Planned(old(integ.Ctl()), integ.dtmin, NextTime())
      ensures land <==> LandsNext()
    {
      var empty := calq.Empty();
      if empty {
        return false;
      }
      var m := calq.CurrentTime();
      integ.ShrinkTowards(m);
      var next := calq.CurrentTime();
      land := integ.dtval == integ.dtmin && integ.t + integ.dtval > next;
    }

    /** The landing: one plain Euler step that ends
        exactly on the next event time, back to the smallest step size, and
        the event fires and is popped. */
    method Land()
      requires Valid() && calq.deq != []
      modifies this, integ`stateval, integ`t, integ`dtval, calq
      ensures Valid()
      ensures EulerStep(integ.dx, old(integ.stateval), old(integ.t), integ.stateval, integ.t)
      ensures integ.Ctl() == Control(old(Top(calq.deq).t), integ.dtmin, old(integ.goodsteps))
      ensures atEvent && atEventName == old(Top(calq.deq).event)
      ensures calq.deq == AfterPop(old(calq.deq))
    {
      var m := calq.CurrentTime();
      integ.dtval := m - integ.t;
      var e1 := Slope(integ.dx, integ.stateval, integ.t);
      integ.stateval := Euler(integ.stateval, e1, integ.dtval);
      integ.t := m;
      integ.dtval := integ.dtmin;
      atEvent := true;
      atEventName := calq.CurrentEvent();
      calq.Pop();
    }
  }

  /** The label a caller reads after a landing: with a one-shot event "a" at
      0.5 and another "b" at 2, the first step lands on "a" at time 0.5, yet
      Event reports "b", while FiredEvent reports "a". */
  method LandingReportsNextLabel() returns (reported: string, fired: string, time: real)
    ensures time == 0.5
    ensures reported == "b"
    ensures fired == "a"
  {
    var ei := new EventIntegrator([1.0], (s: Vec, t: real) => s, 1.0, 1.0);
    ei.InsertEvent(0.5, "a", 0.0);
    ei.InsertEvent(2.0, "b", 0.0);
    ghost var q := ei.calq.deq;
    assert q == [DiscreteEvent(0.5, "a", 0.0), DiscreteEvent(2.0, "b", 0.0)];
    assert Top(q) == q[0];
    assert Halve(0.0, 1.0, 1.0, 0.5) == 1.0;
    ghost var drained := ei.Step();
    assert ei.calq.deq == [DiscreteEvent(2.0, "b", 0.0)] by {
      assert MinIndex(q, Time) == 0;
      assert RemoveAt(q, 0) == [q[1]];
    }
    time := ei.integ.t;
    reported := ei.Event();
    fired := ei.FiredEvent();
  }
}
