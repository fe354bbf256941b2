/** Runs of the task machine seen as runs of the scheduler: what the scheduler promises
    over its events it promises on the processor, with ticks, calls and switches. */
module TaskFairness {
  import opened Scheduler
  import opened TaskMachine

  /** The scheduler as its events see it. Between being marked finished and its last pick
      the current task still counts as running: both are parts of one exit. */
  function Seen(s: Sys): Sched
    requires s.onCpu < |s.sched.states| && s.sched.current < |s.sched.states|
  {
    if Gone(s) && s.cpu.rip != YIELD_SWITCH then s.sched.(states := s.sched.states[s.sched.current := Running])
    else s.sched
  }

  /** The scheduler event that a machine step is, if any. */
  function EventOf(s: Sys, a: Action): (e: seq<Event>)
    requires s.onCpu < |s.sched.states|
    ensures |e| <= 1
  {
    if !a.Kernel? then []
    else if s.cpu.rip == YIELD_PICK then [if Gone(s) then Exited else Yielded]
    else if s.cpu.rip == SPAWN_BODY then [Spawned]
    else []
  }

  lemma SeenInv(s: Sys)
    requires SysInv(s)
    ensures s.onCpu < |s.sched.states| && s.sched.current < |s.sched.states| && Inv(Seen(s))
  {
    hide Disjoint, CpuOk, OthersParked;
  }

  lemma PickProjects(s: Sys, a: Action)
    requires SysInv(s) && Enabled(s, a) && a.Kernel? && s.cpu.rip == YIELD_PICK
    ensures SysInv(Apply(s, a)) && Inv(Seen(s)) && Possible(Seen(s), EventOf(s, a)[0])
    ensures Seen(Apply(s, a)) == Step(Seen(s), EventOf(s, a)[0])
  {
    hide Inv, Exiting, Disjoint, CpuOk, OthersParked, Yield, Seen;
    SeenInv(s);
    StepSys(s, a);
    YieldFromInv(s.sched);
    SeenAtPick(s);
    SeenAfterPick(s, a);
  }

  /** Before its last pick a task has been marked finished: its exit is the marking and
      the pick. */
  lemma SeenAtPick(s: Sys)
    requires SysInv(s) && s.cpu.rip == YIELD_PICK && s.onCpu < |s.sched.states| && s.sched.current < |s.sched.states|
    ensures if Gone(s) then s.sched == Finish(Seen(s)) && Seen(s).current != IDLE else s.sched == Seen(s)
  {
    hide Disjoint, CpuOk, OthersParked, Inv;
    var states := s.sched.states;
    assert states[s.sched.current := Running][s.sched.current := states[s.sched.current]] == states;
  }

  lemma SeenAfterPick(s: Sys, a: Action)
    requires SysInv(s) && Enabled(s, a) && a.Kernel? && s.cpu.rip == YIELD_PICK && SysInv(Apply(s, a))
    requires Inv(s.sched) || Exiting(s.sched)
    ensures Apply(s, a).onCpu < |Apply(s, a).sched.states| && Apply(s, a).sched.current < |Apply(s, a).sched.states|
    ensures Seen(Apply(s, a)) == Yield(s.sched)
  {
    hide Inv, Exiting, Disjoint, CpuOk, OthersParked, Yield;
    YieldFromInv(s.sched);
    SeenInv(Apply(s, a));
  }

  lemma ExitProjects(s: Sys, a: Action)
    requires SysInv(s) && Enabled(s, a) && a.Kernel? && s.cpu.rip == EXIT_BODY
    ensures SysInv(Apply(s, a)) && Inv(Seen(s)) && Seen(Apply(s, a)) == Seen(s)
  {
    SeenInv(s);
    StepSys(s, a);
    ExitBodySched(s, a);
    assert s.sched.states[s.sched.current] == Running;
    hide Inv, Disjoint, OthersParked;
    assert s.sched.states[s.sched.current := Finished][s.sched.current := Running] == s.sched.states;
  }

  lemma QuietProjects(s: Sys, a: Action)
    requires SysInv(s) && Enabled(s, a) && Quiet(s, a) && SysInv(Apply(s, a))
    ensures Inv(Seen(s)) && EventOf(s, a) == [] && Seen(Apply(s, a)) == Seen(s)
  {
    hide Inv, Exiting, Disjoint, OthersParked, Returns;
    SeenInv(s);
    SeenInv(Apply(s, a));
    QuietSched(s, a);
  }

  lemma SwitchProjects(s: Sys, a: Action)
    requires SysInv(s) && Enabled(s, a) && a.Kernel? && s.cpu.rip == YIELD_SWITCH && SysInv(Apply(s, a))
    ensures Inv(Seen(s)) && EventOf(s, a) == [] && Seen(Apply(s, a)) == Seen(s)
  {
    hide Inv, Exiting, Disjoint, OthersParked, Returns, Parked;
    SeenInv(s);
    SeenInv(Apply(s, a));
    SwitchLoads(s, a);
    SwitchKeepsSched(s, a);
  }

  lemma SwitchKeepsSched(s: Sys, a: Action)
    requires SysInv(s) && Enabled(s, a) && a.Kernel? && s.cpu.rip == YIELD_SWITCH
    ensures Apply(s, a).sched == s.sched
  {
    hide Inv, Exiting, Disjoint, OthersParked, Returns, Parked;
  }

  lemma SpawnProjects(s: Sys, a: Action)
    requires SysInv(s) && Enabled(s, a) && a.Kernel? && s.cpu.rip == SPAWN_BODY && SysInv(Apply(s, a))
    ensures Inv(Seen(s)) && EventOf(s, a) == [Spawned] && Seen(Apply(s, a)) == Spawn(Seen(s))
  {
    hide Inv, Exiting, Disjoint, OthersParked, Returns;
    SeenInv(s);
    SeenInv(Apply(s, a));
  }

  lemma SpawnIsStep(s: Sched)
    requires Inv(s)
    ensures Step(s, Spawned) == Spawn(s)
  {
  }

  /** A step is its event, or nothing, to the scheduler. */
  lemma StepProjects(s: Sys, a: Action)
    requires SysInv(s) && Enabled(s, a)
    ensures SysInv(Apply(s, a)) && Inv(Seen(s)) && Inv(Seen(Apply(s, a)))
    ensures EventOf(s, a) == [] ==> Seen(Apply(s, a)) == Seen(s)
    ensures EventOf(s, a) != [] ==>
      Possible(Seen(s), EventOf(s, a)[0]) && Seen(Apply(s, a)) == Step(Seen(s), EventOf(s, a)[0])
  {
    hide SysInv, Enabled, Apply, Inv, Seen, Step;
    StepSys(s, a);
    SeenInv(Apply(s, a));
    if a.Kernel? && s.cpu.rip == YIELD_PICK {
      PickProjects(s, a);
    } else if a.Kernel? && s.cpu.rip == EXIT_BODY {
      ExitProjects(s, a);
    } else if a.Kernel? && s.cpu.rip == YIELD_SWITCH {
      SwitchProjects(s, a);
    } else if a.Kernel? && s.cpu.rip == SPAWN_BODY {
      SeenInv(s);
      SpawnProjects(s, a);
      SpawnIsStep(Seen(s));
    } else {
      QuietProjects(s, a);
    }
  }

  /** The events of a run. */
  ghost function Trace(s: Sys, actions: seq<Action>): seq<Event>
    requires SysInv(s)
    decreases |actions|
  {
    if actions == [] || !Enabled(s, actions[0]) then []
    else
      StepSys(s, actions[0]);
      EventOf(s, actions[0]) + Trace(Apply(s, actions[0]), actions[1..])
  }

  /** Every run of the machine is a run of the scheduler. */
  lemma {:induction false} RunProjects(s: Sys, actions: seq<Action>, t: Sys)
    requires SysInv(s) && Reaches(s, actions, t)
    ensures SysInv(t) && Inv(Seen(s)) && Inv(Seen(t)) && Leads(Seen(s), Trace(s, actions), Seen(t))
    decreases |actions|
  {
    hide SysInv, Enabled, Apply, Inv, Seen, Step, EventOf;
    SeenInv(s);
    if actions != [] {
      var s', e := Apply(s, actions[0]), EventOf(s, actions[0]);
      StepProjects(s, actions[0]);
      RunProjects(s', actions[1..], t);
      var rest := Trace(s', actions[1..]);
      if e == [] {
        assert e + rest == rest;
      } else {
        assert e == [e[0]] && (e + rest)[0] == e[0] && (e + rest)[1..] == rest;
      }
    }
  }

  /** Fairness on the processor: from any state, with ticks, calls, spawns and exits in
      between, the task at queue position k runs right after the (k+1)-th later pick, and
      not at that pick: whatever step comes next is the switch that puts it there. */
  lemma QueuedTaskRuns(s: Sys, before: seq<Action>, mid: Sys, pick: Action, next: Action, k: nat)
    requires SysInv(s) && s.onCpu < |s.sched.states| && s.sched.current < |s.sched.states|
    requires k < |Seen(s).ready| && Reaches(s, before, mid) && Yields(Trace(s, before)) == k
    requires SysInv(mid) && pick.Kernel? && mid.cpu.rip == YIELD_PICK && Enabled(mid, pick)
    requires SysInv(Apply(mid, pick)) && Enabled(Apply(mid, pick), next)
    ensures mid.onCpu != Seen(s).ready[k]
    ensures next.Kernel? && Apply(mid, pick).cpu.rip == YIELD_SWITCH
    ensures Apply(Apply(mid, pick), next).onCpu == Seen(s).ready[k]
  {
    hide Inv, Leads, Trace, Reaches, Step, Yield;
    RunProjects(s, before, mid);
    PickProjects(mid, pick);
    Fairness(Seen(s), Trace(s, before), EventOf(mid, pick)[0], k, Seen(mid));
    PickSwitches(mid, pick, next, Seen(s).ready[k]);
  }

  lemma PickSwitches(mid: Sys, pick: Action, next: Action, task: nat)
    requires SysInv(mid) && pick.Kernel? && mid.cpu.rip == YIELD_PICK && Enabled(mid, pick)
    requires SysInv(Apply(mid, pick)) && Enabled(Apply(mid, pick), next)
    requires mid.sched.current != task && Apply(mid, pick).sched.current == task
    ensures mid.onCpu != task && next.Kernel? && Apply(mid, pick).cpu.rip == YIELD_SWITCH
    ensures Apply(Apply(mid, pick), next).onCpu == task
  {
    RunningInBounds(Apply(mid, pick));
    hide Inv, Exiting, Disjoint, OthersParked, Returns, Yield, CpuOk;
  }

  /** A finished task that has left the processor is never on it again. */
  lemma {:induction false} FinishedNeverRuns(s: Sys, actions: seq<Action>, t: Sys, k: nat)
    requires SysInv(s) && Reaches(s, actions, t)
    requires k < |s.tasks| && k < |s.sched.states| && k != s.onCpu && s.sched.states[k] == Finished
    ensures k < |t.sched.states| && k != t.onCpu && t.sched.states[k] == Finished
    decreases |actions|
  {
    hide Inv, Exiting, Disjoint, OthersParked, CpuOk, Apply, Enabled;
    if actions != [] {
      var s' := Apply(s, actions[0]);
      StepSys(s, actions[0]);
      StepSched(s, actions[0]);
      StepIsolates(s, actions[0], k);
      if s'.onCpu == k { RunsOnlyLive(s, actions[0]); }
      FinishedNeverRuns(s', actions[1..], t, k);
    }
  }

  lemma RunsOnlyLive(s: Sys, a: Action)
    requires SysInv(s) && Enabled(s, a)
    ensures s.onCpu < |s.sched.states| && Apply(s, a).onCpu < |s.sched.states|
    ensures Apply(s, a).onCpu != s.onCpu ==> s.sched.states[Apply(s, a).onCpu] != Finished
  {
    if a.Kernel? && s.cpu.rip == YIELD_SWITCH { SwitchLoads(s, a); }
    hide Inv, Exiting, Disjoint, OthersParked, CpuOk;
  }
}
