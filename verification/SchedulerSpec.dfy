/**
 The task ring as a value (src/core/tasks.c): the tasks in ring order from the current one on, and their states.
 */
module SchedulerSpec {

  datatype State = Ready | Blocked | Stopped | Exited

  datatype Ring<T> = Ring(order: seq<T>, state: map<T, State>)

  predicate Other<T(==)>(order: seq<T>, i: int, j: int)
    requires 0 <= i < |order| && 0 <= j < |order|
  {
    order[i] != order[j]
  }

  predicate Known<T>(r: Ring<T>, i: int)
    requires 0 <= i < |r.order|
  {
    r.order[i] in r.state
  }

  /** One cycle: there is a current task, and no task occurs twice. */
  ghost predicate IsRing<T>(r: Ring<T>) {
    && |r.order| > 0
    && (forall i :: 0 <= i < |r.order| ==> Known(r, i))
    && (forall i, j :: 0 <= i < j < |r.order| ==> Other(r.order, i, j))
  }

  predicate IsReady<T>(r: Ring<T>, i: int)
    requires 0 <= i < |r.order| && Known(r, i)
  {
    r.state[r.order[i]] == Ready
  }

  /** Index of the first ready task from k on, or |order|. */
  function FirstReady<T>(r: Ring<T>, k: nat): (i: int)
    requires k <= |r.order| && forall i :: 0 <= i < |r.order| ==> Known(r, i)
    ensures k <= i <= |r.order|
    ensures i < |r.order| ==> IsReady(r, i)
    ensures forall j :: k <= j < i ==> !IsReady(r, j)
    decreases |r.order| - k
  {
    if k == |r.order| || IsReady(r, k) then k else FirstReady(r, k + 1)
  }

  /** The ring seen from the task at index k. */
  function Rotate<T>(order: seq<T>, k: int): seq<T>
    requires 0 <= k <= |order|
  {
    order[k..] + order[..k]
  }

  /** A timer tick or a yield: the first other ready task in ring order takes over; without one nothing changes. */
  function Tick<T>(r: Ring<T>): Ring<T>
    requires |r.order| > 0 && forall i :: 0 <= i < |r.order| ==> Known(r, i)
  {
    var k := FirstReady(r, 1);
    if k == |r.order| then r else r.(order := Rotate(r.order, k))
  }

  /** A new task goes right behind the current one. */
  function Add<T>(r: Ring<T>, t: T): Ring<T>
    requires |r.order| > 0
  {
    Ring([r.order[0], t] + r.order[1..], r.state[t := Ready])
  }

  function SetState<T>(r: Ring<T>, t: T, s: State): Ring<T> { r.(state := r.state[t := s]) }

  // ---------- the ring stays a ring ----------

  lemma RotateAt<T>(order: seq<T>, k: int, i: int)
    requires 0 <= k < |order| && 0 <= i < |order|
    ensures Rotate(order, k)[i] == order[if i < |order| - k then i + k else i + k - |order|]
  {}

  lemma TickIsRing<T>(r: Ring<T>)
    requires IsRing(r)
    ensures IsRing(Tick(r)) && |Tick(r).order| == |r.order|
  {
    var k, u := FirstReady(r, 1), Tick(r);
    if k < |r.order| {
      var n := |r.order|;
      forall i | 0 <= i < n ensures Known(u, i) {
        RotateAt(r.order, k, i);
        assert Known(r, if i < n - k then i + k else i + k - n);
      }
      forall i, j | 0 <= i < j < n ensures Other(u.order, i, j) {
        RotateAt(r.order, k, i);
        RotateAt(r.order, k, j);
        var a, b := if i < n - k then i + k else i + k - n, if j < n - k then j + k else j + k - n;
        if a < b { assert Other(r.order, a, b); } else { assert Other(r.order, b, a); }
      }
    }
  }

  /** The first other ready task becomes the current one, k places on; with k == 0 there is none. No task changes its
      place in the ring or its state. */
  lemma TickExact<T>(r: Ring<T>) returns (k: int)
    requires IsRing(r)
    ensures 0 <= k < |r.order| && Tick(r).state == r.state && Tick(r).order == r.order[k..] + r.order[..k]
    ensures k > 0 ==> r.order[k] in r.state && r.state[r.order[k]] == Ready
    ensures forall i :: 1 <= i < |r.order| && (k == 0 || i < k) ==>
              r.order[i] in r.state && r.state[r.order[i]] != Ready
  {
    var f := FirstReady(r, 1);
    k := if f == |r.order| then 0 else f;
    forall i | 1 <= i < |r.order| && (k == 0 || i < k) ensures r.order[i] in r.state && r.state[r.order[i]] != Ready {
      assert Known(r, i) && !IsReady(r, i);
    }
    if k > 0 { assert Known(r, k) && IsReady(r, k); }
    assert r.order[0..] + r.order[..0] == r.order;
  }

  lemma AddIsRing<T>(r: Ring<T>, t: T)
    requires IsRing(r) && t !in r.order
    ensures IsRing(Add(r, t))
  {
    var u := Add(r, t);
    forall i | 0 <= i < |u.order| ensures Known(u, i) {
      if i != 1 { assert Known(r, if i == 0 then 0 else i - 1); }
    }
    forall i, j | 0 <= i < j < |u.order| ensures Other(u.order, i, j) {
      var a, b := if i == 0 then 0 else i - 1, j - 1;
      if i != 1 && j != 1 { assert Other(r.order, a, b); }
    }
  }

  lemma SetStateIsRing<T>(r: Ring<T>, t: T, s: State)
    requires IsRing(r)
    ensures IsRing(SetState(r, t, s))
  {
    var u := SetState(r, t, s);
    forall i | 0 <= i < |u.order| ensures Known(u, i) { assert Known(r, i); }
    forall i, j | 0 <= i < j < |u.order| ensures Other(u.order, i, j) { assert Other(r.order, i, j); }
  }

  // ---------- runs ----------

  datatype Event<T> = TickEvent | AddEvent(t: T) | StateEvent(t: T, s: State)

  /** New tasks are new, and an exited task stays exited. */
  predicate Allowed<T(==)>(r: Ring<T>, e: Event<T>) {
    match e
    case TickEvent => true
    case AddEvent(t) => t !in r.order && (t in r.state ==> r.state[t] != Exited)
    case StateEvent(t, s) => t in r.state && r.state[t] != Exited
  }

  function Apply<T>(r: Ring<T>, e: Event<T>): Ring<T>
    requires |r.order| > 0 && forall i :: 0 <= i < |r.order| ==> Known(r, i)
  {
    match e
    case TickEvent => Tick(r)
    case AddEvent(t) => Add(r, t)
    case StateEvent(t, s) => SetState(r, t, s)
  }

  lemma ApplyIsRing<T>(r: Ring<T>, e: Event<T>)
    requires IsRing(r) && Allowed(r, e)
    ensures IsRing(Apply(r, e))
  {
    match e
    case TickEvent => TickIsRing(r);
    case AddEvent(t) => AddIsRing(r, t);
    case StateEvent(t, s) => SetStateIsRing(r, t, s);
  }

  /** trace[i] leads to trace[i + 1] by events[i]. */
  ghost predicate StepAt<T>(trace: seq<Ring<T>>, events: seq<Event<T>>, i: int)
    requires 0 <= i < |events| && |trace| == |events| + 1
  {
    IsRing(trace[i]) && Allowed(trace[i], events[i]) && trace[i + 1] == Apply(trace[i], events[i])
  }

  ghost predicate IsRun<T>(trace: seq<Ring<T>>, events: seq<Event<T>>) {
    && |trace| == |events| + 1 && IsRing(trace[0])
    && forall i :: 0 <= i < |events| ==> StepAt(trace, events, i)
  }

  function Ticks<T>(events: seq<Event<T>>): nat {
    if events == [] then 0 else Ticks(events[..|events| - 1]) + if events[|events| - 1].TickEvent? then 1 else 0
  }

  function Adds<T>(events: seq<Event<T>>): nat {
    if events == [] then 0 else Adds(events[..|events| - 1]) + if events[|events| - 1].AddEvent? then 1 else 0
  }

  lemma {:induction false} RunIsRing<T>(trace: seq<Ring<T>>, events: seq<Event<T>>, n: int)
    requires IsRun(trace, events) && 0 <= n < |trace|
    ensures IsRing(trace[n])
  {
    if n > 0 {
      RunIsRing(trace, events, n - 1);
      assert StepAt(trace, events, n - 1);
      ApplyIsRing(trace[n - 1], events[n - 1]);
    }
  }

  // ---------- bounded waiting ----------

  /** Task t is ready, and some way behind the current task. */
  predicate Waiting<T(==)>(r: Ring<T>, t: T) { t in r.state && r.state[t] == Ready && t in r.order && t != r.order[0] }

  /** How far behind. */
  function Distance<T(==)>(order: seq<T>, t: T): (d: int)
    requires t in order
    ensures 0 <= d < |order| && order[d] == t && forall i :: 0 <= i < d ==> order[i] != t
  {
    if order[0] == t then 0 else 1 + Distance(order[1..], t)
  }

  lemma DistanceIs<T>(order: seq<T>, t: T, d: int)
    requires 0 <= d < |order| && order[d] == t && forall i :: 0 <= i < d ==> order[i] != t
    ensures Distance(order, t) == d
  {}

  /** A tick that passes a ready task over takes it at least one place forward. */
  lemma TickApproaches<T>(r: Ring<T>, t: T)
    requires IsRing(r) && Waiting(r, t) && t in Tick(r).order && t != Tick(r).order[0]
    ensures Distance(Tick(r).order, t) < Distance(r.order, t)
  {
    var d, k := Distance(r.order, t), FirstReady(r, 1);
    assert IsReady(r, d);
    var u := Rotate(r.order, k);
    RotateAt(r.order, k, d - k);
    forall i | 0 <= i < d - k ensures u[i] != t { RotateAt(r.order, k, i); }
    DistanceIs(u, t, d - k);
  }

  lemma AddDelays<T>(r: Ring<T>, t: T, added: T)
    requires IsRing(r) && t in r.order && t != r.order[0] && added !in r.order
    ensures t in Add(r, added).order && Distance(Add(r, added).order, t) == Distance(r.order, t) + 1
  {
    var d, u := Distance(r.order, t), Add(r, added).order;
    assert u[d + 1] == t;
    forall i | 0 <= i < d + 1 ensures u[i] != t { if i > 1 { assert u[i] == r.order[i - 1]; } }
    DistanceIs(u, t, d + 1);
  }

  ghost predicate WaitsAt<T>(trace: seq<Ring<T>>, t: T, i: int)
    requires 0 <= i < |trace|
  {
    |trace[i].order| > 0 && Waiting(trace[i], t)
  }

  lemma {:induction false} DistanceFalls<T>(trace: seq<Ring<T>>, events: seq<Event<T>>, t: T)
    requires IsRun(trace, events) && forall i :: 0 <= i < |trace| ==> WaitsAt(trace, t, i)
    ensures WaitsAt(trace, t, 0) && WaitsAt(trace, t, |events|)
    ensures Distance(trace[|events|].order, t) + Ticks(events) <= Distance(trace[0].order, t) + Adds(events)
    decreases |events|
  {
    assert WaitsAt(trace, t, 0) && WaitsAt(trace, t, |events|);
    if events != [] {
      var n := |events| - 1;
      var front, before := trace[..n + 1], events[..n];
      forall i | 0 <= i < |before| ensures StepAt(front, before, i) { assert StepAt(trace, events, i); }
      forall i | 0 <= i < |front| ensures WaitsAt(front, t, i) { assert WaitsAt(trace, t, i); }
      DistanceFalls(front, before, t);
      assert StepAt(trace, events, n) && WaitsAt(trace, t, n);
      var r := trace[n];
      match events[n]
      case TickEvent => TickApproaches(r, t);
      case AddEvent(a) => AddDelays(r, t, a);
      case StateEvent(a, s) =>
    }
  }

  /**
   A task that stays ready runs before the ticks reach its distance plus the tasks added meanwhile: in every run with
   that many ticks it is, at some point, the current task.
   */
  lemma BoundedWaiting<T>(trace: seq<Ring<T>>, events: seq<Event<T>>, t: T)
    requires IsRun(trace, events) && t in trace[0].order
    requires forall i :: 0 <= i < |trace| ==>
               trace[i].order != [] && t in trace[i].order && t in trace[i].state && trace[i].state[t] == Ready
    requires Ticks(events) >= Distance(trace[0].order, t) + Adds(events)
    ensures exists i :: 0 <= i < |trace| && trace[i].order != [] && trace[i].order[0] == t
  {
    if forall i :: 0 <= i < |trace| ==> trace[i].order[0] != t {
      forall i | 0 <= i < |trace| ensures WaitsAt(trace, t, i) {}
      DistanceFalls(trace, events, t);
    }
  }

  // ---------- exited tasks ----------

  ghost predicate Gone<T>(r: Ring<T>, t: T) { t in r.state && r.state[t] == Exited && r.order != [] && t != r.order[0] }

  lemma {:induction false} GoneForever<T>(trace: seq<Ring<T>>, events: seq<Event<T>>, t: T, n: int)
    requires IsRun(trace, events) && 0 <= n < |trace| && Gone(trace[0], t)
    ensures Gone(trace[n], t)
  {
    if n > 0 {
      GoneForever(trace, events, t, n - 1);
      RunIsRing(trace, events, n - 1);
      assert StepAt(trace, events, n - 1);
      var r := trace[n - 1];
      var k := FirstReady(r, 1);
      if events[n - 1].TickEvent? && k < |r.order| { assert IsReady(r, k); }
    }
  }
}
