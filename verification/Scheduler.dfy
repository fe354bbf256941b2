/** The round-robin scheduler of src/task.rs: the task table, the ready queue and the
    current task, as updated by `spawn`, `yield_now` and `task_exit`. */
module Scheduler {
  import opened Common

  const IDLE := 0

  datatype State = Ready | Running | Finished

  /** The scheduler as a value: task states by index, queue, current task. */
  datatype Sched = Sched(states: seq<State>, ready: seq<nat>, current: nat)

  const INITIAL := Sched([Running], [], IDLE)

  /** Ready holds no task twice, neither idle nor the current task; idle is always
      Running; any other task is Running iff current, Ready iff queued, and otherwise
      Finished. A current task that has just finished has still to yield. */
  ghost predicate Inv(s: Sched) {
    && 0 < |s.states| && s.current < |s.states|
    && s.states[IDLE] == Running
    && (forall i | 0 <= i < |s.ready| :: 0 < s.ready[i] < |s.states| && s.ready[i] != s.current)
    && (forall i, j | 0 <= i < j < |s.ready| :: s.ready[i] != s.ready[j])
    && (forall t | 0 < t < |s.states| ::
          && (s.states[t] == Running <==> t == s.current)
          && (s.states[t] == Ready <==> t in s.ready))
  }

  /** As Inv, but the current task is marked Finished and about to yield for good. */
  ghost predicate Exiting(s: Sched) {
    && 0 < s.current < |s.states| && s.states[s.current] == Finished
    && Inv(s.(states := s.states[s.current := Running]))
  }

  function Spawn(s: Sched): Sched {
    s.(states := s.states + [Ready], ready := s.ready + [|s.states|])
  }

  /** `yield_now`: the head of the queue becomes current, idle if there is none; the
      outgoing task is requeued unless it is idle or finished. */
  function Yield(s: Sched): Sched
    requires s.current < |s.states| && (s.ready != [] ==> s.ready[0] < |s.states|) && 0 < |s.states|
  {
    var next := if s.ready == [] then IDLE else s.ready[0];
    var rest := if s.ready == [] then [] else s.ready[1..];
    if next == s.current then s.(ready := rest)
    else
      var requeue := s.current != IDLE && s.states[s.current] != Finished;
      var states := if requeue then s.states[s.current := Ready] else s.states;
      Sched(states[next := Running], if requeue then rest + [s.current] else rest, next)
  }

  function Finish(s: Sched): Sched
    requires s.current < |s.states|
  {
    s.(states := s.states[s.current := Finished])
  }

  /** `task_exit`: mark the current task finished, then yield. */
  function Exit(s: Sched): Sched
    requires s.current < |s.states| && (s.ready != [] ==> s.ready[0] < |s.states|) && 0 < |s.states|
  {
    Yield(Finish(s))
  }

  lemma SpawnInv(s: Sched)
    requires Inv(s)
    ensures Inv(Spawn(s))
  {
    var s' := Spawn(s);
    forall t | 0 < t < |s'.states|
      ensures s'.states[t] == Running <==> t == s'.current
      ensures s'.states[t] == Ready <==> t in s'.ready
    {
    }
  }

  lemma YieldInv(s: Sched)
    requires Inv(s)
    ensures Inv(Yield(s))
  {
    var s' := Yield(s);
    if s.ready != [] {
      assert s.ready == [s.ready[0]] + s.ready[1..];
    }
    forall t | 0 < t < |s'.states|
      ensures s'.states[t] == Running <==> t == s'.current
      ensures s'.states[t] == Ready <==> t in s'.ready
    {
    }
  }

  lemma ExitInv(s: Sched)
    requires Inv(s) && s.current != IDLE
    ensures Exiting(Finish(s)) && Inv(Exit(s)) && Exit(s).states[s.current] == Finished
  {
    assert s.states[s.current := Finished][s.current := Running] == s.states;
    var s' := Exit(s);
    if s.ready != [] {
      assert s.ready == [s.ready[0]] + s.ready[1..];
    }
    forall t | 0 < t < |s'.states|
      ensures s'.states[t] == Running <==> t == s'.current
      ensures s'.states[t] == Ready <==> t in s'.ready
    {
    }
  }

  // ---- Runs -----------------------------------------------------------------------------

  /** What can happen to the scheduler. An exit is a yield too. */
  datatype Event = Spawned | Yielded | Exited

  /** Idle never returns from its entry function. */
  predicate Possible(s: Sched, e: Event) { e.Exited? ==> s.current != IDLE }

  function Step(s: Sched, e: Event): Sched
    requires s.current < |s.states| && (s.ready != [] ==> s.ready[0] < |s.states|) && 0 < |s.states|
  {
    match e
    case Spawned => Spawn(s)
    case Yielded => Yield(s)
    case Exited => Exit(s)
  }

  lemma StepInv(s: Sched, e: Event)
    requires Inv(s) && Possible(s, e)
    ensures Inv(Step(s, e))
  {
    match e
    case Spawned => SpawnInv(s);
    case Yielded => YieldInv(s);
    case Exited => ExitInv(s);
  }

  function Yields(events: seq<Event>): nat {
    if events == [] then 0 else (if events[0].Spawned? then 0 else 1) + Yields(events[1..])
  }

  /** The run is possible, and ends in `t`. */
  ghost predicate Leads(s: Sched, events: seq<Event>, t: Sched)
    requires Inv(s)
    decreases |events|
  {
    if events == [] then s == t
    else
      && Possible(s, events[0])
      && (StepInv(s, events[0]); Leads(Step(s, events[0]), events[1..], t))
  }

  lemma {:induction false} LeadsInv(s: Sched, events: seq<Event>, t: Sched)
    requires Inv(s) && Leads(s, events, t)
    ensures Inv(t)
    decreases |events|
  {
    if events != [] {
      StepInv(s, events[0]);
      LeadsInv(Step(s, events[0]), events[1..], t);
    }
  }

  /** A finished task stays finished, is never queued and never current again. */
  lemma {:induction false} FinishedStays(s: Sched, events: seq<Event>, t: Sched, task: nat)
    requires Inv(s) && Leads(s, events, t)
    requires 0 < task < |s.states| && s.states[task] == Finished
    ensures task < |t.states| && t.states[task] == Finished && task != t.current && task !in t.ready
    decreases |events|
  {
    LeadsInv(s, events, t);
    if events != [] {
      StepInv(s, events[0]);
      FinishedStays(Step(s, events[0]), events[1..], t, task);
    }
  }

  /** One event moves a queued task up one place if it is a yield, and leaves it in
      place if it is a spawn. */
  lemma StepMovesUp(s: Sched, e: Event, k: nat)
    requires Inv(s) && Possible(s, e) && k < |s.ready| && (k == 0 ==> e.Spawned?)
    ensures var k' := if e.Spawned? then k else k - 1;
      k' < |Step(s, e).ready| && Step(s, e).ready[k'] == s.ready[k]
  {
    hide Inv;
  }

  /** Until it has been yielded to, a queued task moves up one place per yield. */
  lemma {:induction false} Waiting(s: Sched, events: seq<Event>, t: Sched, k: nat)
    requires Inv(s) && Leads(s, events, t) && k < |s.ready| && Yields(events) <= k
    ensures k - Yields(events) < |t.ready| && t.ready[k - Yields(events)] == s.ready[k] && t.current != s.ready[k]
    decreases |events|
  {
    if events == [] {
      assert s.ready[k] != s.current;
    } else {
      hide Inv, Step;
      StepInv(s, events[0]);
      StepMovesUp(s, events[0], k);
      Waiting(Step(s, events[0]), events[1..], t, if events[0].Spawned? then k else k - 1);
    }
  }

  /** Fairness: whatever spawns and exits intervene, the task at queue position k is not
      current before the (k+1)-th later yield, and is current right after it. */
  lemma {:induction false} Fairness(s: Sched, before: seq<Event>, last: Event, k: nat, mid: Sched)
    requires Inv(s) && k < |s.ready| && Leads(s, before, mid)
    requires Yields(before) == k && !last.Spawned? && Possible(mid, last)
    ensures Inv(mid) && mid.current != s.ready[k] && Step(mid, last).current == s.ready[k]
  {
    LeadsInv(s, before, mid);
    Waiting(s, before, mid, k);
  }

  // ---- The kernel's scheduler object -------------------------------------------------------

  class SchedulerCell {
    var states: seq<State>
    var ready: seq<nat>
    var current: nat

    ghost function Value(): Sched
      reads this
    {
      Sched(states, ready, current)
    }

    constructor ()
      ensures Value() == INITIAL && Inv(Value())
    {
      states, ready, current := [Running], [], IDLE;
    }

    method SpawnTask() returns (id: nat)
      requires Inv(Value())
      modifies this
      ensures Inv(Value()) && Value() == Spawn(old(Value())) && id == |old(states)|
    {
      SpawnInv(Value());
      id := |states|;
      states := states + [Ready];
      ready := ready + [id];
    }

    /** The next task, or none when only idle itself is runnable. */
    method YieldNow() returns (switchTo: Option<nat>)
      requires Inv(Value()) || Exiting(Value())
      modifies this
      ensures Inv(Value()) && Value() == Yield(old(Value()))
      ensures switchTo == if old(current) == current then None else Some(current)
      ensures current == if old(ready) == [] then 0 else old(ready)[0]
      ensures old(current) == 0 ==> ready == old(ready)[Min(1, |old(ready)|)..]
    {
      if Exiting(Value()) {
        ExitInv(Value().(states := states[current := Running]));
        assert states[current := Running][current := Finished] == states;
      } else {
        YieldInv(Value());
      }
      var old_ := current;
      var next := IDLE;
      if ready != [] {
        next := ready[0];
        ready := ready[1..];
      }
      if next == old_ { return None; }
      if old_ != IDLE && states[old_] != Finished {
        states := states[old_ := Ready];
        ready := ready + [old_];
      }
      states := states[next := Running];
      current := next;
      switchTo := Some(next);
    }

    method TaskExit() returns (switchTo: nat)
      requires Inv(Value()) && current != IDLE
      modifies this
      ensures Inv(Value()) && Value() == Exit(old(Value()))
      ensures switchTo == current && states[old(current)] == Finished
    {
      ExitInv(Value());
      states := states[current := Finished];
      var next := YieldNow();
      switchTo := next.value;
    }
  }
}
