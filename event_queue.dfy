/**
 * The calendar queue of the event integrator: a min-time priority queue of
 * `(t, event, recur_int)` entries whose pop re-inserts a recurring entry
 * `recur_int` later. The heap is modelled by the sequence of entries in
 * insertion order; the top is an entry of smallest time (MinQueue).
 */
module EventQueue {
  import opened MinQueue

  /** One scheduled event: when it fires, what it is called and, when
      positive, the interval after which it fires again. */
  datatype DiscreteEvent = DiscreteEvent(t: real, event: string, recurInt: real)

  function Time(e: DiscreteEvent): real { e.t }

  /** Every entry has a non-negative recurrence interval. */
  predicate WellFormed(q: seq<DiscreteEvent>)
  {
    forall e | e in q :: e.recurInt >= 0.0
  }

  /** The entry the queue reports as its top (TopIsMin: one of smallest
      time). */
  function Top(q: seq<DiscreteEvent>): DiscreteEvent
    requires q != []
  {
    q[MinIndex(q, Time)]
  }

  /** The top is queued and no queued entry is earlier. */
  lemma TopIsMin(q: seq<DiscreteEvent>)
    requires q != []
    ensures Top(q) in q
    ensures forall d | d in q :: Top(q).t <= d.t
  {
    assert forall d | d in q :: exists j :: 0 <= j < |q| && q[j] == d;
  }

  /** What popping `e` puts back: nothing for a one-shot event, and the same
      event `recurInt` later for a recurring one. */
  function Recurrence(e: DiscreteEvent): (r: seq<DiscreteEvent>)
    ensures e.recurInt > 0.0 <==> r != []
    ensures r != [] ==> r == [DiscreteEvent(e.t + e.recurInt, e.event, e.recurInt)] && r[0].t > e.t
  {
    if e.recurInt > 0.0 then [DiscreteEvent(e.t + e.recurInt, e.event, e.recurInt)] else []
  }

  /** The queue after a pop (AfterPopContents). */
  function AfterPop(q: seq<DiscreteEvent>): seq<DiscreteEvent>
  {
    if q == [] then [] else RemoveAt(q, MinIndex(q, Time)) + Recurrence(Top(q))
  }

  /** Nothing happens to an empty queue; otherwise the top is removed and
      its recurrence, if any, is added. */
  lemma AfterPopContents(q: seq<DiscreteEvent>)
    ensures q == [] ==> AfterPop(q) == []
    ensures q != [] ==> multiset(AfterPop(q)) == multiset(q) - multiset{Top(q)} + multiset(Recurrence(Top(q)))
    ensures q != [] ==> |AfterPop(q)| == if Top(q).recurInt > 0.0 then |q| else |q| - 1
  {
    if q != [] {
      RemoveAtContents(q, MinIndex(q, Time));
    }
  }

  /** A pop keeps every recurrence interval non-negative. */
  lemma AfterPopWellFormed(q: seq<DiscreteEvent>)
    requires WellFormed(q)
    ensures WellFormed(AfterPop(q))
  {
    if q != [] {
      var r := AfterPop(q);
      forall e | e in r ensures e.recurInt >= 0.0 {
        assert e in multiset(r);
        if e !in Recurrence(Top(q)) {
          assert e in multiset(q);
        }
      }
    }
  }

  /** The top time never decreases across a pop: what is left was already
      at or after the old top, and a re-inserted recurrence lies strictly
      after it. */
  lemma AfterPopTopNondecreasing(q: seq<DiscreteEvent>)
    requires q != [] && AfterPop(q) != []
    ensures Top(AfterPop(q)).t >= Top(q).t
  {
    var r := AfterPop(q);
    var e := Top(r);
    assert e in multiset(r);
    if e !in Recurrence(Top(q)) {
      assert e in multiset(q);
    }
  }

  /** A recurring event is never lost: after a pop it is either still
      waiting or it was the one popped and its next occurrence is queued. */
  lemma RecurringNeverLost(q: seq<DiscreteEvent>, e: DiscreteEvent)
    requires e in q && e.recurInt > 0.0
    ensures e in AfterPop(q) || DiscreteEvent(e.t + e.recurInt, e.event, e.recurInt) in AfterPop(q)
  {
    var r := AfterPop(q);
    var next := DiscreteEvent(e.t + e.recurInt, e.event, e.recurInt);
    AfterPopContents(q);
    if Top(q) == e {
      assert Recurrence(e) == [next];
      assert next in multiset(r);
    } else {
      assert multiset(q)[e] > 0;
      assert e in multiset(r);
    }
  }

  /** The queue after `n` pops. */
  function PopTimes(q: seq<DiscreteEvent>, n: nat): seq<DiscreteEvent>
    decreases n
  {
    if n == 0 then q else PopTimes(AfterPop(q), n - 1)
  }

  /** Popping a one-entry queue leaves exactly the entry's recurrence. */
  lemma AfterPopSingleton(e: DiscreteEvent)
    ensures AfterPop([e]) == Recurrence(e)
  {
    assert MinIndex([e], Time) == 0;
    assert RemoveAt([e], 0) == [];
  }

  lemma PopTimesFirst(q: seq<DiscreteEvent>, n: nat)
    requires n > 0
    ensures PopTimes(q, n) == PopTimes(AfterPop(q), n - 1)
  {
  }

  /** Popping a lone recurring event leaves just its next occurrence. */
  lemma PopLoneRecurring(e: DiscreteEvent, n: nat)
    requires n > 0 && e.recurInt > 0.0
    ensures PopTimes([e], n) == PopTimes([DiscreteEvent(e.t + e.recurInt, e.event, e.recurInt)], n - 1)
  {
    PopTimesFirst([e], n);
    AfterPopSingleton(e);
  }

  /** The `n`-th occurrence of a recurring event `e`: the same event, `n`
      intervals after the first. */
  function Occurrence(e: DiscreteEvent, n: nat): (o: DiscreteEvent)
    requires e.recurInt > 0.0
    ensures o.event == e.event && o.recurInt == e.recurInt
    ensures o.t == e.t + (n as real) * e.recurInt
    decreases n
  {
    if n == 0 then e
    else
      var m := (n - 1) as real;
      assert (m + 1.0) * e.recurInt == m * e.recurInt + e.recurInt;
      Occurrence(DiscreteEvent(e.t + e.recurInt, e.event, e.recurInt), n - 1)
  }

  /** A lone recurring event fires at `t`, `t + r`, `t + 2r`, ... without end:
      after `n` pops the queue holds exactly its `n`-th occurrence (whose
      time Occurrence gives). */
  lemma {:induction false} RecursForever(e: DiscreteEvent, n: nat)
    requires e.recurInt > 0.0
    ensures PopTimes([e], n) == [Occurrence(e, n)]
    decreases n
  {
    if n > 0 {
      var next := DiscreteEvent(e.t + e.recurInt, e.event, e.recurInt);
      calc {
        PopTimes([e], n);
        == { PopLoneRecurring(e, n); }
        PopTimes([next], n - 1);
        == { RecursForever(next, n - 1); }
        [Occurrence(next, n - 1)];
      }
    }
  }

  /** The queue of integrator.hpp; `deq` stands for the heap. */
  class CalendarQueue {
    var deq: seq<DiscreteEvent>

    ghost predicate Valid()
      reads this
    {
      WellFormed(deq)
    }

    constructor ()
      ensures Valid() && deq == []
    {
      deq := [];
    }

    /** Schedules `event` at `t`; any `t` is accepted, only the recurrence
        interval is checked. */
    method Insert(t: real, event: string, recurInt: real)
      requires Valid() && recurInt >= 0.0
      modifies this
      ensures Valid()
      ensures deq == old(deq) + [DiscreteEvent(t, event, recurInt)]
    {
      deq := deq + [DiscreteEvent(t, event, recurInt)];
    }

    /** The time of the top entry, the smallest time in the queue. */
    method CurrentTime() returns (t: real)
      requires deq != []
      ensures t == Top(deq).t
    {
      t := deq[MinIndex(deq, Time)].t;
    }

    /** The name of the top entry. */
    method CurrentEvent() returns (name: string)
      requires deq != []
      ensures name == Top(deq).event
    {
      name := deq[MinIndex(deq, Time)].event;
    }

    /** Removes the top entry; a recurring one is first re-inserted
        `recurInt` after its time. */
    method Pop()
      requires Valid()
      modifies this
      ensures Valid()
      ensures deq == AfterPop(old(deq))
    {
      if deq == [] {
        return;
      }
      ghost var q := deq;
      var k := MinIndex(deq, Time);
      var top := deq[k];
      assert top == Top(q);
      AfterPopWellFormed(q);
      if top.recurInt > 0.0 {
        var next := DiscreteEvent(top.t + top.recurInt, top.event, top.recurInt);
        Insert(next.t, next.event, next.recurInt);
        assert Recurrence(top) == [next];
        MinIndexAppend(q, next, Time);
        RemoveAtAppend(q, next, k);
      }
      // priority_queue::pop removes the current heap top, still the old one
      deq := RemoveAt(deq, MinIndex(deq, Time));
    }

    /** Pushes a copy of the top moved `dt` later, keeping the original, and
        returns the top time read after the push plus `dt`. */
    method RescheduleTop(dt: real) returns (r: real)
      requires Valid() && deq != []
      modifies this
      ensures Valid()
      ensures deq == old(deq) + [old(Top(deq)).(t := old(Top(deq)).t + dt)]
      ensures r == Top(deq).t + dt
    {
      var top := deq[MinIndex(deq, Time)];
      deq := deq + [DiscreteEvent(top.t + dt, top.event, top.recurInt)];
      r := CurrentTime();
      r := r + dt;
    }

    /** Removes every entry. */
    method Clear()
      modifies this
      ensures Valid() && deq == []
    {
      deq := [];
    }

    method Empty() returns (b: bool)
      ensures b <==> deq == []
    {
      b := deq == [];
    }
  }

  /** What RescheduleTop returns: the moved time when `dt >= 0`, but when
      `dt < 0` the copy becomes the top and `dt` is added twice. */
  lemma RescheduleTopResult(q: seq<DiscreteEvent>, dt: real)
    requires q != []
    ensures Top(q + [Top(q).(t := Top(q).t + dt)]).t + dt
         == if dt >= 0.0 then Top(q).t + dt else Top(q).t + 2.0 * dt
  {
    var x := Top(q).(t := Top(q).t + dt);
    MinKeyAppend(q, x, Time);
    assert Top(q).t == MinKey(q, Time);
    assert Top(q + [x]).t == MinKey(q + [x], Time);
  }
}
