/**
 The round-robin scheduler over linked tasks (src/core/tasks.c) and the end of a process (src/core/process.c).
 */
module Scheduler {
  import opened SchedulerSpec

  class Task {
    var next: Task?
    var state: State

    constructor ()
      ensures state == Ready
    {
      next, state := null, Ready;
    }
  }

  ghost predicate LinkAt(ring: seq<Task>, i: int)
    requires 0 <= i < |ring|
    reads ring[i]
  {
    ring[i].next == if i + 1 < |ring| then ring[i + 1] else ring[0]
  }

  ghost function States(ring: seq<Task>): map<Task, State>
    reads ring
  {
    map t | t in ring :: t.state
  }

  class Sched {
    var current: Task           // theCurrentTask
    ghost var ring: seq<Task>

    ghost predicate Valid()
      reads this, ring
    {
      && |ring| > 0 && ring[0] == current
      && (forall i :: 0 <= i < |ring| ==> LinkAt(ring, i))
      && (forall i, j :: 0 <= i < j < |ring| ==> Other(ring, i, j))
    }

    ghost function Value(): Ring<Task>
      reads this, ring
    {
      Ring(ring, States(ring))
    }

    lemma ValueIsRing()
      requires Valid()
      ensures IsRing(Value()) && forall i :: 0 <= i < |ring| ==> Known(Value(), i)
    {}

    /** tasks_setup: a ring of one. */
    constructor (first: Task)
      modifies first
      ensures Valid() && IsRing(Value()) && ring == [first] && first.state == old(first.state)
    {
      current, ring := first, [first];
      new;
      first.next := first;
    }

    /** sched_add_task, for a task that task_init has made ready. */
    method AddTask(task: Task)
      requires Valid() && task !in ring && task.state == Ready
      modifies this`ring, current`next, task`next
      ensures Valid() && IsRing(Value()) && Value() == Add(old(Value()), task)
    {
      task.next := current.next;
      current.next := task;
      ring := [ring[0], task] + ring[1..];
      forall i | 0 <= i < |ring| ensures LinkAt(ring, i) {
        if i != 1 { assert old(LinkAt(ring, if i == 0 then 0 else i - 1)); }
        assert old(LinkAt(ring, 0));
        if i > 1 { assert old(Other(ring, 0, i - 1)); }
      }
      forall i, j | 0 <= i < j < |ring| ensures Other(ring, i, j) {
        if i != 1 && j != 1 { assert old(Other(ring, if i == 0 then 0 else i - 1, j - 1)); }
      }
      ValueIsRing();
    }

    /** the_scheduler: the first other ready task in ring order, or null. */
    method NextTask() returns (t: Task?)
      requires Valid()
      ensures |ring| > 0 && forall i :: 0 <= i < |ring| ==> Known(Value(), i)
      ensures var k := FirstReady(Value(), 1); t == if k < |ring| then ring[k] else null
    {
      ValueIsRing();
      t := current.next;
      ghost var k := 1;
      assert LinkAt(ring, 0);
      forall i | 1 <= i < |ring| ensures ring[i] != current { assert Other(ring, 0, i); }
      while t != null && t != current
        invariant 1 <= k <= |ring| && t == (if k < |ring| then ring[k] else ring[0])
        invariant FirstReady(Value(), k) == FirstReady(Value(), 1)
        decreases |ring| - k
      {
        assert k < |ring| && LinkAt(ring, k);
        if t.state == Ready { return; }
        t := t.next;
        k := k + 1;
      }
      t := null;
    }

    /** task_timer_handler, as far as it concerns which task runs. */
    method TimerTick()
      requires Valid()
      modifies this
      ensures Valid() && old(|ring| > 0 && forall i :: 0 <= i < |ring| ==> Known(Value(), i))
      ensures IsRing(Value()) && Value() == Tick(old(Value()))
    {
      ghost var r := Value();
      ValueIsRing();
      TickIsRing(r);
      var t := NextTask();
      if t == null { return; }
      current := t;
      ghost var k := FirstReady(r, 1);
      ring := Rotate(ring, k);
      Rotated(r.order, k);
      assert States(ring) == r.state;
      forall i, j | 0 <= i < j < |ring| ensures Other(ring, i, j) {}
      forall i | 0 <= i < |ring| ensures LinkAt(ring, i) {
        RotateAt(r.order, k, i);
        var n := |ring|;
        var a := if i < n - k then i + k else i + k - n;
        assert old(LinkAt(ring, a));
        if i + 1 < n { RotateAt(r.order, k, i + 1); }
        RotateAt(r.order, k, 0);
      }
    }

    /** sys_exit: the current task will not be chosen again. */
    method Exit()
      requires Valid()
      modifies this, current`state
      ensures Valid() && IsRing(Value())
      ensures old(current).state == Exited
      ensures old(|ring| > 0 && forall i :: 0 <= i < |ring| ==> Known(SetState(Value(), current, Exited), i))
      ensures Value() == Tick(SetState(old(Value()), old(current), Exited))
    {
      ghost var r := Value();
      ValueIsRing();
      SetStateIsRing(r, current, Exited);
      current.state := Exited;
      assert States(ring) == r.state[current := Exited];
      forall i | 0 <= i < |ring| ensures LinkAt(ring, i) { assert old(LinkAt(ring, i)); }
      forall i, j | 0 <= i < j < |ring| ensures Other(ring, i, j) { assert old(Other(ring, i, j)); }
      TimerTick();
    }
  }

  lemma Rotated(order: seq<Task>, k: int)
    requires 0 <= k < |order|
    ensures |Rotate(order, k)| == |order| && forall t :: t in Rotate(order, k) <==> t in order
  {
    assert order == order[..k] + order[k..];
  }
}
