/**
 * The older calendar queue of calendar_queue.hpp: a min-time priority queue
 * of `(t, event)` entries with no recurrence. As in EventQueue, the heap is
 * modelled by the sequence of entries in insertion order.
 */
module LegacyQueue {
  import opened MinQueue

  /** One scheduled event: when it fires and what it is called. */
  datatype DiscreteEvent = DiscreteEvent(t: real, event: string)

  function Time(e: DiscreteEvent): real { e.t }

  /** The entry the queue reports as its top (TopIsMin: one of smallest
      time). */
  function Top(q: seq<DiscreteEvent>): DiscreteEvent
    requires q != []
  {
    q[MinIndex(q, Time)]
  }

  /** The top is queued and no queued entry is earlier. */
  lemma TopIsMin(q: seq<DiscreteEvent>)
    requires q != []
    ensures Top(q) in q
    ensures forall d | d in q :: Top(q).t <= d.t
  {
    assert forall d | d in q :: exists j :: 0 <= j < |q| && q[j] == d;
  }

  /** The queue after a pop (AfterPopContents). */
  function AfterPop(q: seq<DiscreteEvent>): seq<DiscreteEvent>
  {
    if q == [] then [] else RemoveAt(q, MinIndex(q, Time))
  }

  /** Nothing happens to an empty queue; otherwise exactly one top entry
      goes and all others stay. */
  lemma AfterPopContents(q: seq<DiscreteEvent>)
    ensures q == [] ==> AfterPop(q) == []
    ensures q != [] ==> |AfterPop(q)| == |q| - 1 && multiset(AfterPop(q)) == multiset(q) - multiset{Top(q)}
  {
    if q != [] {
      RemoveAtContents(q, MinIndex(q, Time));
    }
  }

  /** "Top priority is always increasing": a pop never lowers the top time. */
  lemma AfterPopTopNondecreasing(q: seq<DiscreteEvent>)
    requires AfterPop(q) != []
    ensures Top(AfterPop(q)).t >= Top(q).t
  {
    MinKeyRemoveAt(q, MinIndex(q, Time), Time);
    assert Top(q).t == MinKey(q, Time);
    assert Top(AfterPop(q)).t == MinKey(AfterPop(q), Time);
  }

  /** What RescheduleTop returns: the moved time when `dt >= 0`, but when
      `dt < 0` the copy becomes the top and `dt` is added twice. */
  lemma RescheduleTopResult(q: seq<DiscreteEvent>, dt: real)
    requires q != []
    ensures Top(q + [DiscreteEvent(Top(q).t + dt, Top(q).event)]).t + dt
         == if dt >= 0.0 then Top(q).t + dt else Top(q).t + 2.0 * dt
  {
    var x := DiscreteEvent(Top(q).t + dt, Top(q).event);
    MinKeyAppend(q, x, Time);
    assert Top(q).t == MinKey(q, Time);
    assert Top(q + [x]).t == MinKey(q + [x], Time);
  }

  /** The queue of calendar_queue.hpp; `deq` stands for the heap. */
  class CalendarQueue {
    var deq: seq<DiscreteEvent>

    constructor ()
      ensures deq == []
    {
      deq := [];
    }

    /** Schedules `event` at `t`, whatever `t` is. */
    method Insert(t: real, event: string)
      modifies this
      ensures deq == old(deq) + [DiscreteEvent(t, event)]
    {
      deq := deq + [DiscreteEvent(t, event)];
    }

    /** The time of the top entry, the smallest time in the queue. */
    method CurrentTime() returns (t: real)
      requires deq != []
      ensures t == Top(deq).t
    {
      t := deq[MinIndex(deq, Time)].t;
    }

    /** The name of the top entry. */
    method CurrentEvent() returns (name: string)
      requires deq != []
      ensures name == Top(deq).event
    {
      name := deq[MinIndex(deq, Time)].event;
    }

    /** Removes the top entry, if there is one. */
    method Pop()
      modifies this
      ensures deq == AfterPop(old(deq))
    {
      if deq != [] {
        deq := RemoveAt(deq, MinIndex(deq, Time));
      }
    }

    /** Pushes a copy of the top moved `dt` later, keeping the original, and
        returns the top time read after the push plus `dt`. */
    method RescheduleTop(dt: real) returns (r: real)
      requires deq != []
      modifies this
      ensures deq == old(deq) + [DiscreteEvent(old(Top(deq)).t + dt, old(Top(deq)).event)]
      ensures r == Top(deq).t + dt
    {
      var t := CurrentTime();
      var name := CurrentEvent();
      deq := deq + [DiscreteEvent(t + dt, name)];
      r := CurrentTime();
      r := r + dt;
    }

    /** Removes every entry. */
    method Clear()
      modifies this
      ensures deq == []
    {
      deq := [];
    }

    method Empty() returns (b: bool)
      ensures b <==> deq == []
    {
      b := deq == [];
    }
  }
}
