# simple_integrator: the event-aware adaptive Euler integrator

This project models the core of `integrator.hpp` and `calendar_queue.hpp` in
Dafny and proves what they promise.

- **Calendar queues.** `EventQueue.CalendarQueue` models the queue inside
  `integrator.hpp`: a min-time priority queue of `(t, event, recur_int)`
  entries. Popping a recurring entry re-inserts it `recur_int` later.
  `LegacyQueue.CalendarQueue` models the older queue of `calendar_queue.hpp`,
  which has no recurrence. In both, the `std::priority_queue` is the field
  `deq`, a sequence of entries in insertion order. Its top is the first entry
  of smallest time (`MinQueue.MinIndex`).
- **`Integrator`.** This is the adaptive Euler stepper. It has fields
  `stateval`, `dtval`, `t`, `goodsteps` and `stepcount`, and keeps the
  invariant `dtmin <= dtval <= dtmax`. Its step tries a step of size `dtval`
  and judges it with the 5 % test. The test compares the norm of the plain
  Euler endpoint with the norm of the endpoint that uses the midpoint slope
  for the second half. A rejected step advances half a step, halves the step
  size (not below `dtmin`) and resets the streak of good steps. An accepted
  step advances a whole step and extends the streak. After a streak of 8 good
  steps the step size doubles, capped at `dtmax`.
- **`EventIntegrator`.** This owns an `Integrator`, a calendar queue and the
  `at_event` flag. Its step behaves in one of three ways:
  - It drains a further event queued at the current time.
  - It halves the step size until a step no longer passes the next event, and
    lands exactly on that event if even a step of `dtmin` would pass it.
  - Otherwise it takes the plain adaptive step. This body is modelled once,
    as `Integrator.AdaptiveAdvance`.

The state is a vector of reals (`Vector.Vec`). Its norm is the sum of the
absolute values of its components, as in `abs(const ArrayState&)`. The
derivative callback `dx` is a function value fixed at construction. It keeps
the state's dimension (`DimPreserving`), as writing into the state's own
fixed-size type does.

The controller's decisions are written once, as functions on values in
`StepControl`. The classes are proved to update their fields exactly as those
functions say. The properties of the step are then lemmas and `ensures`
clauses about the functions:

- bounds and growth (`Adapt`);
- no overshoot and exact landing (`NextControl`);
- termination of the halving (`Halve`);
- landing after finitely many steps (`Approach`).

Decisions where the source leaves a choice:

- `goodsteps` is never initialised by the constructor (integrator.hpp:187,
  200-208). The model leaves it arbitrary.
- `std::priority_queue` does not say which of several entries with equal
  times is on top. The model takes the first inserted one. The contracts
  fall into two groups:
  - Those about times hold for any entry of smallest time: `TopIsMin`,
    `CurrentTime`, `AfterPopTopNondecreasing`, `RecurringNeverLost`, the
    sizes in `AfterPopContents`, and everything the step controller promises
    about `t` and `dt` (`NextControl`, `Approach`).
  - Those that name one entry depend on the insertion-order choice, so they
    hold for the C++ only when no two queued entries share the least time:
    - the label `CurrentEvent` returns;
    - which entry `Pop` and `AfterPop` remove (the multiset in
      `AfterPopContents`);
    - the label recorded by a drain or a landing in `EventIntegrator.Step`,
      `Advance` and `Land`, and so the order in which simultaneous events
      are drained;
    - the exact queues in `RecursForever` and `LandingReportsNextLabel`.
- The queue's doc comment promises that "top priority is always increasing"
  (integrator.hpp:19-22, calendar_queue.hpp:8-11). The model proves this for
  `pop` only (`AfterPopTopNondecreasing`). `insert` can lower the top,
  because its ordering assert is commented out (integrator.hpp:48,
  calendar_queue.hpp:34); `MinKeyAppend` states the top after a push.
- The C++ `assert`s become preconditions. These are:
  - the dt bounds of the constructor;
  - `dt(h)` within `[dtmin, dtmax]`;
  - `recur_int >= 0` on insert.

  Reading the top of an empty queue is undefined behaviour in C++, so it is a
  precondition as well.
- The drain test of the event step (integrator.hpp:314) reads the top of the
  queue whenever `at_event` holds. It does so even after the last one-shot
  event has been popped, which is undefined behaviour. `EventIntegrator.Step`
  therefore requires `CanStep()`: at an event, the queue is not empty.
- An event earlier than the current time is accepted by `insert`. The landing
  step then takes a negative step and moves time backwards (integrator.hpp:
  336-339). The model keeps this. `NextControl` only promises that a step
  never passes the next event, and that time does not decrease when the next
  event is not in the past.
- `reschedule_top(dt)` returns the top time read *after* pushing the copy,
  plus `dt`. For `dt >= 0` that is the copy's time. For `dt < 0` the copy is
  the new top, so the result is `top.t + 2 dt` (`RescheduleTopResult`).
- The 5 % test divides by `|abs_e1 + abs_e2| / 2`. In IEEE arithmetic a zero
  denominator gives `+inf` for a positive numerator, which rejects. It gives
  NaN for a zero numerator, which accepts. `Rejects` states exactly this,
  with the division replaced by a multiplication. `RejectsIsRatio` proves it
  equal to the quotient test wherever the denominator is not zero.

## Model

| member | source | states |
|---|---|---|
| `Vector.Abs` | integrator.hpp:12-17 | the result is non-negative and is `x` or `-x` |
| `Vector.Norm` | integrator.hpp:155-161 | the norm of a state is never negative |
| `Vector.NormZero` | integrator.hpp:155-161 | the norm is zero exactly when every component is zero |
| `Vector.Euler` | integrator.hpp:248 | an Euler step `s + slope * h` keeps the dimension |
| `Vector.EulerAt` | integrator.hpp:248 | component `i` of `s + slope * h` is `s[i] + slope[i] * h` |
| `Vector.EulerZero` | integrator.hpp:248 | a step of length zero leaves the state unchanged |
| `MinQueue.MinIndex` | integrator.hpp:37-39 | the top of a heap ordered by the reversed `operator<` is an entry of smallest time; no earlier-inserted entry has that time |
| `MinQueue.RemoveAtContents` | integrator.hpp:72 | removing the top drops exactly that entry and keeps all others |
| `MinQueue.MinIndexAppend` | integrator.hpp:70-72 | pushing an entry that is not earlier than the top leaves the top in place, so `pop` after the re-insert removes the entry that fired |
| `MinQueue.MinKeyAppend` | integrator.hpp:76-78 | after a push the smallest time is the smaller of the old one and the pushed entry's |
| `MinQueue.MinKeyRemoveAt` | calendar_queue.hpp:51-54 | removing an entry never lowers the smallest time |
| `EventQueue.TopIsMin` | integrator.hpp:58-64 | the top is a queued entry and no queued entry is earlier |
| `EventQueue.Recurrence` | integrator.hpp:70-71 | a pop re-inserts something iff `recur_int > 0`, and then exactly the same event `recur_int` later, strictly after the popped time |
| `EventQueue.AfterPopContents` | integrator.hpp:66-73 | a pop of an empty queue is a no-op; otherwise the top is removed and its recurrence added, so the size stays for a recurring event and drops by one otherwise |
| `EventQueue.AfterPopWellFormed` | integrator.hpp:66-73 | a pop keeps every recurrence interval non-negative |
| `EventQueue.AfterPopTopNondecreasing` | integrator.hpp:19-22 | the top time never decreases across a pop |
| `EventQueue.RecurringNeverLost` | integrator.hpp:66-73 | after a pop a recurring event is still queued or its next occurrence is |
| `EventQueue.AfterPopSingleton` | integrator.hpp:66-73 | popping a one-entry queue leaves exactly that entry's recurrence |
| `EventQueue.PopLoneRecurring` | integrator.hpp:66-73 | `n` pops of a lone recurring event are `n - 1` pops of its next occurrence |
| `EventQueue.Occurrence` | integrator.hpp:70-71 | every occurrence of a recurring event keeps its label and interval, and the `n`-th fires `n` intervals after the first |
| `EventQueue.RecursForever` | integrator.hpp:66-73 | after `n` pops a lone recurring event's queue holds exactly its `n`-th occurrence |
| `EventQueue.RescheduleTopResult` | integrator.hpp:76-79 | `reschedule_top(dt)` returns `top.t + dt` for `dt >= 0` and `top.t + 2 dt` for `dt < 0` |
| `EventQueue.CalendarQueue.constructor` | integrator.hpp:42-43 | a new queue is empty |
| `EventQueue.CalendarQueue.Insert` | integrator.hpp:46-56 | requires `recur_int >= 0`; appends exactly one entry, whatever its time |
| `EventQueue.CalendarQueue.CurrentTime` | integrator.hpp:57-60 | requires a non-empty queue; returns the top's time |
| `EventQueue.CalendarQueue.CurrentEvent` | integrator.hpp:61-64 | requires a non-empty queue; returns the top's label |
| `EventQueue.CalendarQueue.Pop` | integrator.hpp:65-73 | re-inserts a recurring top and then removes the old top: the queue becomes `AfterPop` of the old one |
| `EventQueue.CalendarQueue.RescheduleTop` | integrator.hpp:74-79 | requires a non-empty queue; appends a copy of the top `dt` later, keeps the original, and returns the new top's time plus `dt` |
| `EventQueue.CalendarQueue.Clear` | integrator.hpp:80-83 | the queue becomes empty |
| `EventQueue.CalendarQueue.Empty` | integrator.hpp:84-87 | true iff no entries remain |
| `LegacyQueue.TopIsMin` | calendar_queue.hpp:24-26 | the top is a queued entry and no queued entry is earlier |
| `LegacyQueue.AfterPopContents` | calendar_queue.hpp:51-54 | a pop of an empty queue is a no-op; otherwise exactly one top entry goes and all others stay |
| `LegacyQueue.AfterPopTopNondecreasing` | calendar_queue.hpp:8-11 | "top priority is always increasing", for pop: a pop never lowers the top time; an insert may (not promised) |
| `LegacyQueue.RescheduleTopResult` | calendar_queue.hpp:57-60 | `reschedule_top(dt)` returns `top.t + dt` for `dt >= 0` and `top.t + 2 dt` for `dt < 0` |
| `LegacyQueue.CalendarQueue.constructor` | calendar_queue.hpp:29-30 | a new queue is empty |
| `LegacyQueue.CalendarQueue.Insert` | calendar_queue.hpp:32-41 | appends exactly one `(t, event)` entry, with no constraint on `t` |
| `LegacyQueue.CalendarQueue.CurrentTime` | calendar_queue.hpp:42-45 | requires a non-empty queue; returns the top's time |
| `LegacyQueue.CalendarQueue.CurrentEvent` | calendar_queue.hpp:46-49 | requires a non-empty queue; returns the top's label |
| `LegacyQueue.CalendarQueue.Pop` | calendar_queue.hpp:50-54 | the queue becomes `AfterPop` of the old one |
| `LegacyQueue.CalendarQueue.RescheduleTop` | calendar_queue.hpp:55-60 | requires a non-empty queue; appends a copy of the top `dt` later, keeps the original, and returns the new top's time plus `dt` |
| `LegacyQueue.CalendarQueue.Clear` | calendar_queue.hpp:61-64 | the queue becomes empty |
| `LegacyQueue.CalendarQueue.Empty` | calendar_queue.hpp:65-68 | true iff no entries remain |
| `StepControl.Rejects` | integrator.hpp:241 | equal norms are never rejected; for non-negative norms, reject iff `40 * abs(e1 - e2) > e1 + e2` |
| `StepControl.RejectsIsRatio` | integrator.hpp:241 | with a non-zero denominator, `Rejects` is the test `abs(e1 - e2) / (abs(e1 + e2) / 2) > 0.05` |
| `StepControl.Judge` | integrator.hpp:241-251 | reject: advance by `dt / 2`, `dt` becomes `max(dt / 2, dtmin)`, streak 0; accept: advance by `dt`, `dt` kept, streak + 1 |
| `StepControl.Grow` | integrator.hpp:253-256 | time and streak are kept, `dt` ends at most `dtmax` and never shrinks below a size within bounds, and a changed `dt` is `min(2 dt, dtmax)` or was over `dtmax` |
| `StepControl.Adapt` | integrator.hpp:241-256 | `dtmin <= dt <= dtmax` is preserved; time advances by `dt` or `dt / 2`, so strictly; a reject resets the streak and sets `dt` to `max(dt / 2, dtmin)` with no doubling; an accept extends the streak and changes `dt` iff `dt < dtmax` and the streak reaches 8, and then to `min(2 dt, dtmax)` |
| `StepControl.HalvingShrinks` | integrator.hpp:325-330 | halving `dt` lowers the termination measure `(dt / dtmin).Floor` of the halving loop |
| `StepControl.Halve` | integrator.hpp:325-330 | the halving loop ends with a positive `dt` no larger than before that is at most `dtmin` or no longer passes the event; a halved result was needed, its double was above `dtmin` and passed the event |
| `StepControl.Shrink` | integrator.hpp:325-333 | after the halving and the clamp, `dtmin <= dt <= old dt`, and either `dt == dtmin` or the step does not pass the event |
| `StepControl.Planned` | integrator.hpp:324-333 | with no event the step size is kept; otherwise it is shrunk within bounds so that it is `dtmin` or does not pass the event |
| `StepControl.NextControl` | integrator.hpp:320-369 | bounds kept; with an empty queue the plain adaptive step; a landing happens iff the next event is closer than `dtmin`, and sets `t` to the event time, `dt` to `dtmin` and keeps the streak; otherwise the adaptive step of the shrunk size; the new `t` never passes the next event, and does not go back when that event is not in the past |
| `StepControl.ApproachShrinks` | integrator.hpp:320-345 | a non-landing step towards an event moves at least `dtmin / 2` and lowers the approach measure |
| `StepControl.Approach` | integrator.hpp:320-345 | from any time at or before an event, whatever the 5 % test decides, repeated steps end in a landing exactly on the event time with `dt == dtmin` |
| `Integration.Slope` | integrator.hpp:183 | the derivative has the dimension of the state |
| `Integration.RatioRejects` | integrator.hpp:236-241 | the 5 % test of a step of size `dt`, computed from the callback; a step of size zero is never rejected |
| `Integration.Integrator.constructor` | integrator.hpp:199-208 | requires `0 < dtmin <= dtmax`; starts at `t = 0`, `dt = dtmin`, `stepcount = 0` with the given state and callback |
| `Integration.Integrator.SetDt` | integrator.hpp:219-225 | requires `dtmin <= h <= dtmax`; sets `dtval` and nothing else |
| `Integration.Integrator.GrowStep` | integrator.hpp:253-256 | the new controller state is `Grow` of the old one; only `dtval` changes |
| `Integration.Integrator.AdaptiveAdvance` | integrator.hpp:236-256 | the controller state becomes `Adapt` of the old one under the 5 % verdict, and the state is one Euler step along the initial slope over exactly the time advanced |
| `Integration.Integrator.ShrinkTowards` | integrator.hpp:325-333 | the loop and clamp leave `dtval == Shrink(t, old dtval, dtmin, m)`; only `dtval` changes |
| `Integration.Integrator.Step` | integrator.hpp:230-257 | `stepcount` + 1, the controller update is `Adapt`, the state is the Euler step over the time advanced, and `t` strictly increases |
| `Integration.EventIntegrator.constructor` | integrator.hpp:276-279 | an `Integrator` as constructed above, an empty queue, not at an event, and an empty label |
| `Integration.EventIntegrator.InsertEvent` | integrator.hpp:287-295 | appends exactly one entry to the queue |
| `Integration.EventIntegrator.IsEvent` | integrator.hpp:297-300 | returns the `at_event` flag |
| `Integration.EventIntegrator.Event` | integrator.hpp:302-308 | at an event, the label of the queue's current top; otherwise empty |
| `Integration.EventIntegrator.FiredEvent` | integrator.hpp:315 | at an event, the label of the event that fired (`at_event_name`); otherwise empty |
| `Integration.EventIntegrator.Step` | integrator.hpp:310-370 | a drain pops exactly one event and keeps `t`, `dt`, the streak, the state, `stepcount` and `at_event`; any other step adds one to `stepcount`, is an Euler step, and updates the controller, the flag and the queue exactly as `NextControl` says, popping iff it lands |
| `Integration.EventIntegrator.Advance` | integrator.hpp:320-369 | the non-drain step: the landing case iff the next event is closer than `dtmin` (land on it, fire it, pop it), else the adaptive step of the planned size with the queue and label untouched |
| `Integration.EventIntegrator.ApproachEvent` | integrator.hpp:324-335 | `dtval` becomes `Planned` for the next event, and the result says whether the step lands |
| `Integration.EventIntegrator.Land` | integrator.hpp:335-345 | an Euler step that ends exactly at the top time, `dt` back to `dtmin`, streak kept, `at_event` set, the label recorded and the event popped |
| `Integration.LandingReportsNextLabel` | integrator.hpp:302-308 | with events "a" at 0.5 and "b" at 2, the first step lands at 0.5, `Event` reports "b" and `FiredEvent` reports "a" |

## Left out

- `ArrayState`'s vector algebra and printer (integrator.hpp:93-168, arraystate.hpp): the state is a `seq<real>`. An Euler step is written componentwise (`Vector.Euler`), and `abs` is the sum of absolute values.
- Floating-point rounding: doubles are reals. Only the division by zero in the 5 % test is modelled with its IEEE outcome.
- The derivative callback `dx` is foreign code. It is a function value fixed at construction, assumed total and dimension-preserving; the callback's writes through `T &dxdt` are its return value.
- The heap internals of `std::priority_queue`. Among entries of equal time, the model chooses the first inserted.
- `int` overflow of `goodsteps` and `stepcount`: these are unbounded integers.
- The accessors `time()`, `state()`, `dt()` and `steps()` return a field. `state()` hands out a mutable reference, which callers may use to change the state between steps. They are the fields `t`, `stateval`, `dtval` and `stepcount` of `Integrator`, readable and assignable directly.
- The two `insert`/`insert_event` overloads for `const char[]` and `std::string`: both are modelled as one method taking a `string`.
- The default argument `recur_int = 0` of `insert` and `insert_event` (integrator.hpp:46, 52, 288, 293): callers of `Insert` and `InsertEvent` pass `0.0` explicitly for a one-shot event.
- `Integration.EventIntegrator.Step` requires that at an event the queue is not empty (`CanStep`). The C++ at that point reads the top of an empty queue, whose behaviour is undefined.
- The example drivers example_lotka.cpp, example_lotka_events.cpp and test.cpp are I/O programs, not part of the core.

## Findings

| source | as written | input that shows it | evidently intended | confidence | as-written member | corrected member |
|---|---|---|---|---|---|---|
| integrator.hpp:302-308 | `event()` returns `calq.current_event()`, the label of the queue's top, read after the landing or drain step has already popped the event that fired; `at_event_name`, which holds the fired label (lines 315, 342), is never read | one-shot events "a" at 0.5 and "b" at 2, `dtmin = dtmax = 1`, one `step()`: the step lands at 0.5 and fires "a", and `event()` returns "b" (`Integration.LandingReportsNextLabel`) | `event()` returns `at_event_name`, the label of the event just reached | not executed | `Integration.EventIntegrator.Event` | `Integration.EventIntegrator.FiredEvent` |
