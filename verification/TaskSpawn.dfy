/** From `spawn(f)` to f's first instruction, and from a tick to the task it wakes: what
    the steps of the task machine come to, one after the other. */
module TaskSpawn {
  import opened Scheduler
  import opened SwitchAsm
  import opened TaskMachine

  // ---- The fabricated frame ------------------------------------------------------------------

  /** The seven words that `Task::new` writes below the top of the new stack. */
  ghost predicate Fabricated(mem: Mem, top: nat, entry: nat) {
    && top >= 56
    && Rd(mem, top - 56) == entry && Rd(mem, top - 48) == 0 && Rd(mem, top - 40) == 0 && Rd(mem, top - 32) == 0
    && Rd(mem, top - 24) == 0 && Rd(mem, top - 16) == 0 && Rd(mem, top - 8) == TRAMPOLINE
  }

  lemma FrameWords(mem: Mem, base: nat, entry: nat)
    ensures Fabricated(NewFrame(mem, base, entry), StackTop(base), entry)
    ensures StackTop(base) % 16 == 0 && base + 16368 < StackTop(base) <= base + 16384
  {
    hide StackTop;
    TopOfStack(base);
  }

  lemma TopOfStack(base: nat)
    ensures StackTop(base) % 16 == 0 && base + 16368 < StackTop(base) <= base + 16384
  {
  }

  /** The spawn's step: the task appended runs the function that the spawn was given, on
      its own 16 KiB, its saved stack pointer at seven fabricated words below the
      16-aligned top; it is queued last; nobody else's entry or stack changes. */
  lemma SpawnStep(s: Sys, a: Action)
    requires SysInv(s) && Enabled(s, a) && a.Kernel? && s.cpu.rip == SPAWN_BODY
    ensures var s', entry := Apply(s, a), s.tasks[s.onCpu].arg;
      && |s'.tasks| == |s.tasks| + 1 && s'.tasks[..|s.tasks|] == s.tasks
      && var task := s'.tasks[|s.tasks|];
      && task.entry == entry && task.stack == Stack(a.base, a.base + 16384)
      && (task.savedSp + 56) % 16 == 0 && a.base + 16368 < task.savedSp + 56 <= a.base + 16384
      && Fabricated(s'.mem, task.savedSp + 56, entry)
      && s'.sched.ready == s.sched.ready + [|s.tasks|] && s'.sched.states == s.sched.states + [Ready]
      && s'.sched.current == s.sched.current && s'.onCpu == s.onCpu && !s'.lock
  {
    hide Disjoint, OthersParked, CpuOk, Inv, Exiting, Fabricated, NewFrame;
    FrameWords(s.mem, a.base, s.tasks[s.onCpu].arg);
  }

  // ---- Arguments and entries over a run --------------------------------------------------------

  /** No step changes what an existing task was spawned to run, or where its stack lies. */
  lemma EntryStays(s: Sys, a: Action, k: nat)
    requires SysInv(s) && Enabled(s, a) && k < |s.tasks|
    ensures var s' := Apply(s, a);
      k < |s'.tasks| && s'.tasks[k].entry == s.tasks[k].entry && s'.tasks[k].stack == s.tasks[k].stack
  {
    hide Disjoint, OthersParked, Inv, Exiting, Returns;
    RunningInBounds(s);
  }

  lemma {:induction false} EntriesStay(s: Sys, actions: seq<Action>, t: Sys, k: nat)
    requires SysInv(s) && Reaches(s, actions, t) && k < |s.tasks|
    ensures k < |t.tasks| && t.tasks[k].entry == s.tasks[k].entry && t.tasks[k].stack == s.tasks[k].stack
    decreases |actions|
  {
    hide SysInv, Enabled, Apply;
    if actions != [] {
      StepSys(s, actions[0]);
      EntryStays(s, actions[0], k);
      EntriesStay(Apply(s, actions[0]), actions[1..], t, k);
    }
  }

  /** While a task has a call pending, no step changes its argument. */
  lemma ArgStays(s: Sys, a: Action, k: nat)
    requires SysInv(s) && Enabled(s, a) && k < |s.tasks| && s.frames[k] != []
    ensures k < |Apply(s, a).tasks| && Apply(s, a).tasks[k].arg == s.tasks[k].arg
  {
    hide Disjoint, OthersParked, Inv, Exiting;
    RunningInBounds(s);
  }

  lemma {:induction false} ArgsStay(s: Sys, actions: seq<Action>, t: Sys, k: nat, depth: nat)
    requires SysInv(s) && Reaches(s, actions, t) && Pending(s, actions, k, depth) && k < |s.tasks|
    ensures k < |t.tasks| && t.tasks[k].arg == s.tasks[k].arg
    decreases |actions|
  {
    hide Enabled, Apply, Disjoint, CpuOk, OthersParked, SchedOk;
    if actions != [] {
      StepSys(s, actions[0]);
      ArgStays(s, actions[0], k);
      ArgsStay(Apply(s, actions[0]), actions[1..], t, k, depth);
    }
  }

  /** The trampoline enters the function in r15, whose return leads behind the call. */
  lemma TrampolineEnters(s: Sys, a: Action)
    requires SysInv(s) && Enabled(s, a) && s.cpu.rip == TRAMPOLINE
    ensures s.cpu.regs.r15 == s.tasks[s.onCpu].entry
    ensures a.Kernel? && var s' := Apply(s, a);
      && s'.onCpu == s.onCpu && s'.cpu.rip == s.tasks[s.onCpu].entry && Rd(s'.mem, s'.cpu.rsp) == EXIT_CALL
      && (s'.cpu.rsp + 8) % 16 == 0
  {
    hide Disjoint, OthersParked, Inv, Exiting, Returns;
    RunningInBounds(s);
    LockSafe(s);
    InTrampoline(s);
  }

  lemma InTrampoline(s: Sys)
    requires SysInv(s) && s.cpu.rip == TRAMPOLINE
    ensures FreshCpu(s.cpu, s.tasks[s.onCpu]) && !s.cpu.iflag
  {
    hide Disjoint, OthersParked, Inv, Exiting, Returns;
    RunningInBounds(s);
  }

  /** A task that the machine makes in answer to `spawn(f)` runs f: however the other tasks
      and the ticks come in between, before the task is made and after, whenever it
      stands in the trampoline, f is in r15, and the trampoline's step goes to f. */
  lemma SpawnedRunsItsEntry(s: Sys, call: Action, actions: seq<Action>, mid: Sys, body: Action, later: seq<Action>,
                            t: Sys, enter: Action)
    requires SysInv(s) && Enabled(s, call) && call.CallSpawn? && SysInv(Apply(s, call))
    requires Reaches(Apply(s, call), actions, mid) && Pending(Apply(s, call), actions, s.onCpu, |s.frames[s.onCpu]|)
    requires SysInv(mid) && mid.onCpu == s.onCpu && mid.cpu.rip == SPAWN_BODY
    requires body.Kernel? && Enabled(mid, body) && SysInv(Apply(mid, body))
    requires Reaches(Apply(mid, body), later, t) && SysInv(t)
    requires t.onCpu == |mid.tasks| && t.cpu.rip == TRAMPOLINE && Enabled(t, enter)
    ensures t.cpu.regs.r15 == call.entry
    ensures Apply(t, enter).cpu.rip == call.entry && Rd(Apply(t, enter).mem, Apply(t, enter).cpu.rsp) == EXIT_CALL
  {
    hide SysInv, Reaches, Pending, Enabled, Apply, Fabricated;
    CallSetsArg(s, call);
    ArgsStay(Apply(s, call), actions, mid, s.onCpu, |s.frames[s.onCpu]|);
    SpawnStep(mid, body);
    EntriesStay(Apply(mid, body), later, t, |mid.tasks|);
    TrampolineEnters(t, enter);
  }

  lemma CallSetsArg(s: Sys, call: Action)
    requires SysInv(s) && Enabled(s, call) && call.CallSpawn?
    ensures s.onCpu < |s.frames| && s.onCpu < |Apply(s, call).tasks| && Apply(s, call).tasks[s.onCpu].arg == call.entry
  {
    hide Disjoint, OthersParked, Inv, Exiting, Returns;
    RunningInBounds(s);
  }

  // ---- Progress ----------------------------------------------------------------------------------

  /** In kernel code there is always a next step, and it goes on from where it stands: the
      lock is free when it is asked for, and the safety net behind an exit is not reached. */
  lemma KernelGoesOn(s: Sys, base: nat)
    requires SysInv(s) && !IsUser(s.cpu.rip) && (s.cpu.rip == SPAWN_BODY ==> FreshStack(s, base))
    ensures Enabled(s, Kernel(base)) && Apply(s, Kernel(base)).cpu.rip != s.cpu.rip && s.cpu.rip != EXIT_HANG
  {
    hide Disjoint, OthersParked, Inv, Exiting;
    NoSafetyNet(s);
    RunningInBounds(s);
    LockSafe(s);
    hide Returns, InCall, InIsr;
    if s.cpu.rip == YIELD_SWITCH {
      LoadedElsewhere(s, base);
    } else if s.cpu.rip in {YIELD_RET, ISR_TAIL} {
      ReturnsElsewhere(s, base);
    } else if s.cpu.rip == TRAMPOLINE {
      InTrampoline(s);
    }
  }

  lemma ReturnsElsewhere(s: Sys, base: nat)
    requires SysInv(s) && s.cpu.rip in {YIELD_RET, ISR_TAIL} && Enabled(s, Kernel(base))
    ensures Apply(s, Kernel(base)).cpu.rip != s.cpu.rip
  {
    hide Disjoint, OthersParked, Inv, Exiting;
    ReturnTransparent(s);
  }

  lemma NoSafetyNet(s: Sys)
    requires SysInv(s)
    ensures s.cpu.rip != EXIT_HANG && (IsUser(s.cpu.rip) || 0 < s.cpu.rip <= EXIT_CALL)
  {
    hide Disjoint, OthersParked, Inv, Exiting;
  }

  lemma LoadedElsewhere(s: Sys, base: nat)
    requires SysInv(s) && s.cpu.rip == YIELD_SWITCH && Enabled(s, Kernel(base))
    ensures Apply(s, Kernel(base)).cpu.rip in {YIELD_RESTORE, TRAMPOLINE}
  {
    hide Disjoint, OthersParked, Inv, Exiting, Returns;
    SwitchLoads(s, Kernel(base));
  }

  /** Queue, states and task table change under the lock alone, with the flag clear, so no
      tick can come in between. */
  lemma ChangesUnderLock(s: Sys, a: Action)
    requires SysInv(s) && Enabled(s, a)
    ensures Apply(s, a).sched != s.sched || |Apply(s, a).tasks| != |s.tasks| ==>
      a.Kernel? && s.lock && !s.cpu.iflag && !Enabled(s, Tick)
    ensures Apply(s, a).onCpu != s.onCpu ==> a.Kernel? && !s.lock && !s.cpu.iflag
  {
    hide Disjoint, OthersParked, Inv, Exiting, Returns, CpuOk;
    RunningInBounds(s);
    LockSafe(s);
  }

  /** Kernel code goes on by itself, but for a tick where the flag is set. */
  lemma OnlyTheKernel(s: Sys, a: Action)
    requires SysInv(s) && Enabled(s, a) && !IsUser(s.cpu.rip) && (!s.cpu.iflag || !a.Tick?)
    ensures a.Kernel?
  {
    hide Disjoint, OthersParked, Inv, Exiting, Returns;
  }

  /** A tick is taken wherever the flag is set, and nobody holds the lock then; a task may
      call wherever it stands in its own code. The stack has to have the room. */
  lemma AlwaysTaken(s: Sys, ret: nat, entry: nat)
    requires SysInv(s)
    ensures s.cpu.iflag && s.tasks[s.onCpu].stack.lo + 136 <= s.cpu.rsp ==> Enabled(s, Tick) && !s.lock
    ensures IsUser(s.cpu.rip) && IsUser(ret) && IsUser(entry) && s.tasks[s.onCpu].stack.lo + 72 <= s.cpu.rsp ==>
      Enabled(s, CallYield(ret)) && Enabled(s, CallSpawn(ret, entry))
  {
    hide Disjoint, OthersParked, Inv, Exiting, Returns;
    RunningInBounds(s);
  }

  /** One step on the way from the start of `yield_now` to the pick. */
  lemma YieldStep(s: Sys, a: Action)
    requires SysInv(s) && Enabled(s, a) && (!s.cpu.iflag || !a.Tick?)
    requires s.cpu.rip in {YIELD_READ, YIELD_CLI, YIELD_LOCK}
    ensures var s' := Apply(s, a);
      && SysInv(s') && s'.cpu.rip == s.cpu.rip + 1 && s'.sched == s.sched && s'.onCpu == s.onCpu
      && (!s.cpu.iflag || s.cpu.rip == YIELD_CLI ==> !s'.cpu.iflag)
  {
    hide Disjoint, OthersParked, Inv, Exiting, Returns, CpuOk;
    OnlyTheKernel(s, a);
    StepSys(s, a);
    assert s.onCpu < |s.tasks|;
  }

  lemma PickStep(s: Sys, a: Action)
    requires SysInv(s) && Enabled(s, a) && !s.cpu.iflag && s.cpu.rip == YIELD_PICK && s.sched.ready != []
    ensures var s' := Apply(s, a);
      SysInv(s') && s'.cpu.rip == YIELD_SWITCH && !s'.cpu.iflag && s'.sched.current == s.sched.ready[0] != s.onCpu
  {
    hide Disjoint, OthersParked, Returns, CpuOk;
    OnlyTheKernel(s, a);
    StepSys(s, a);
    assert s.sched.current == s.onCpu && s.sched.current !in s.sched.ready;
    assert s.sched.ready[0] in s.sched.ready;
  }

  lemma SwitchStep(s: Sys, a: Action)
    requires SysInv(s) && Enabled(s, a) && !s.cpu.iflag && s.cpu.rip == YIELD_SWITCH
    ensures SysInv(Apply(s, a)) && Apply(s, a).onCpu == s.sched.current
  {
    hide Disjoint, OthersParked, Inv, Exiting, Returns, CpuOk;
    OnlyTheKernel(s, a);
    StepSys(s, a);
  }

  /** `yield_now` from its first step, without ticks: the fifth puts the head of the queue
      on the processor. */
  lemma FiveSteps(s: Sys, actions: seq<Action>, t: Sys)
    requires SysInv(s) && s.cpu.rip == YIELD_READ && s.sched.ready != [] && |actions| == 5 && Reaches(s, actions, t)
    requires !s.cpu.iflag || forall i | 0 <= i < 2 :: !actions[i].Tick?
    ensures t.onCpu == s.sched.ready[0]
  {
    hide SysInv, Enabled, Apply;
    YieldStep(s, actions[0]);
    var s1, a1 := Apply(s, actions[0]), actions[1..];
    assert Reaches(s1, a1, t) && |a1| == 4 && a1[0] == actions[1];
    YieldStep(s1, a1[0]);
    var s2, a2 := Apply(s1, a1[0]), a1[1..];
    assert Reaches(s2, a2, t) && |a2| == 3;
    YieldStep(s2, a2[0]);
    var s3, a3 := Apply(s2, a2[0]), a2[1..];
    assert Reaches(s3, a3, t) && |a3| == 2;
    PickStep(s3, a3[0]);
    var s4, a4 := Apply(s3, a3[0]), a3[1..];
    assert Reaches(s4, a4, t) && |a4| == 1;
    SwitchStep(s4, a4[0]);
    assert a4[1..] == [] && Reaches(Apply(s4, a4[0]), a4[1..], t);
  }

  lemma CallStep(s: Sys, a: Action)
    requires SysInv(s) && Enabled(s, a) && (a.Tick? || a.CallYield?)
    ensures var s' := Apply(s, a);
      && SysInv(s') && s'.cpu.rip == YIELD_READ && s'.sched == s.sched && s'.onCpu == s.onCpu
      && (a.Tick? ==> !s'.cpu.iflag)
  {
    hide Disjoint, OthersParked, Inv, Exiting, Returns, CpuOk;
    StepSys(s, a);
    RunningInBounds(s);
  }

  /** Preemption: whatever a task is doing when a tick is taken, the next five actions can
      only be the tick's, and with them the first task of the queue is on the processor. */
  lemma TickPreempts(s: Sys, actions: seq<Action>, t: Sys)
    requires SysInv(s) && s.sched.ready != [] && |actions| == 6 && actions[0].Tick? && Reaches(s, actions, t)
    ensures t.onCpu == s.sched.ready[0]
  {
    hide SysInv, Enabled, Apply, Reaches;
    FirstAction(s, actions, t);
    CallStep(s, actions[0]);
    FiveSteps(Apply(s, actions[0]), actions[1..], t);
  }

  /** So does `yield_now`, if no tick is faster. */
  lemma YieldHandsOver(s: Sys, actions: seq<Action>, t: Sys)
    requires SysInv(s) && s.sched.ready != [] && |actions| == 6 && actions[0].CallYield? && Reaches(s, actions, t)
    requires !actions[1].Tick? && !actions[2].Tick?
    ensures t.onCpu == s.sched.ready[0]
  {
    hide SysInv, Enabled, Apply, Reaches;
    FirstAction(s, actions, t);
    CallStep(s, actions[0]);
    FiveSteps(Apply(s, actions[0]), actions[1..], t);
  }

  lemma FirstAction(s: Sys, actions: seq<Action>, t: Sys)
    requires SysInv(s) && actions != [] && Reaches(s, actions, t)
    ensures Enabled(s, actions[0]) && SysInv(Apply(s, actions[0])) && Reaches(Apply(s, actions[0]), actions[1..], t)
  {
    hide SysInv, Enabled, Apply;
    StepSys(s, actions[0]);
  }

  // ---- Exit --------------------------------------------------------------------------------------

  lemma ExitStep(s: Sys, a: Action)
    requires SysInv(s) && Enabled(s, a) && !a.Tick?
    requires a.EntryReturns? || s.cpu.rip in {EXIT_CALL, EXIT_CLI, EXIT_LOCK, EXIT_BODY}
    ensures var s' := Apply(s, a);
      && SysInv(s') && s'.onCpu == s.onCpu
      && s'.cpu.rip == (if IsUser(s.cpu.rip) then EXIT_CALL
                        else if s.cpu.rip == EXIT_CALL then EXIT_CLI
                        else if s.cpu.rip == EXIT_CLI then EXIT_LOCK
                        else if s.cpu.rip == EXIT_LOCK then EXIT_BODY
                        else YIELD_READ)
      && (s.cpu.rip == EXIT_BODY ==> s'.sched.states[s.onCpu] == Finished && !s'.cpu.iflag && !s'.lock)
  {
    hide Disjoint, OthersParked, Inv, Exiting, Returns;
    StepSys(s, a);
    RunningInBounds(s);
  }

  /** A task whose entry function returns is finished five steps on, ticks apart, with
      the flag clear; `TaskFairness.FinishedNeverRuns` takes over from there. */
  lemma ReturnFinishes(s: Sys, actions: seq<Action>, t: Sys)
    requires SysInv(s) && |actions| == 5 && actions[0].EntryReturns? && Reaches(s, actions, t)
    requires forall i | 0 <= i < 5 :: !actions[i].Tick?
    ensures SysInv(t) && t.onCpu == s.onCpu && t.sched.states[s.onCpu] == Finished
    ensures t.cpu.rip == YIELD_READ && !t.cpu.iflag
  {
    hide SysInv, Enabled, Apply;
    ReturnsFromUser(s, actions[0]);
    ExitStep(s, actions[0]);
    var s1, a1 := Apply(s, actions[0]), actions[1..];
    assert Reaches(s1, a1, t) && |a1| == 4;
    ExitStep(s1, a1[0]);
    var s2, a2 := Apply(s1, a1[0]), a1[1..];
    assert Reaches(s2, a2, t) && |a2| == 3;
    ExitFinishes(s2, a2, t);
  }

  /** From `task_exit` on. */
  lemma ExitFinishes(s: Sys, actions: seq<Action>, t: Sys)
    requires SysInv(s) && |actions| == 3 && s.cpu.rip == EXIT_CLI && Reaches(s, actions, t)
    requires forall i | 0 <= i < 3 :: !actions[i].Tick?
    ensures SysInv(t) && t.onCpu == s.onCpu && t.sched.states[s.onCpu] == Finished
    ensures t.cpu.rip == YIELD_READ && !t.cpu.iflag
  {
    hide SysInv, Enabled, Apply;
    ExitStep(s, actions[0]);
    var s1, a1 := Apply(s, actions[0]), actions[1..];
    assert Reaches(s1, a1, t) && |a1| == 2;
    ExitStep(s1, a1[0]);
    var s2, a2 := Apply(s1, a1[0]), a1[1..];
    assert Reaches(s2, a2, t) && |a2| == 1;
    ExitStep(s2, a2[0]);
    assert a2[1..] == [] && Reaches(Apply(s2, a2[0]), a2[1..], t);
  }

  lemma ReturnsFromUser(s: Sys, a: Action)
    requires SysInv(s) && Enabled(s, a) && a.EntryReturns?
    ensures IsUser(s.cpu.rip)
  {
    hide Disjoint, OthersParked, Inv, Exiting, Returns;
  }
}
