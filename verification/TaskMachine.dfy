/** Tasks, ticks and switches as a state machine: task code, `yield_now`, `spawn`,
    `task_exit` and the timer interrupt of src/task.rs, src/interrupts.rs and
    boot/switch.asm, one step at a time, over one processor, all stacks and the
    scheduler. A timer tick may come between any two steps while the interrupt flag is
    set. `frames` records, per task, the states that its pending kernel calls and
    interrupts have to return to. */
module TaskMachine {
  import opened Scheduler
  import opened SwitchAsm

  // Where the processor is in kernel code; task code lives at USER_CODE and above.
  const YIELD_READ := 1     // are_enabled: the flag is read and kept on the stack
  const YIELD_CLI := 2
  const YIELD_LOCK := 3
  const YIELD_PICK := 4     // SCHED held: queue and states updated, guard dropped
  const YIELD_SWITCH := 5   // call switch_context
  const YIELD_RESTORE := 6  // its return address: restore the flag
  const YIELD_RET := 7
  const SPAWN_READ := 8
  const SPAWN_CLI := 9
  const SPAWN_LOCK := 10
  const SPAWN_BODY := 11    // SCHED held
  const EXIT_CLI := 12      // task_exit
  const EXIT_LOCK := 13
  const EXIT_BODY := 14     // SCHED held
  const EXIT_HANG := 15     // hlt_loop after a yield that never returns
  const ISR_TAIL := 16      // preempt returned: restore registers, iretq
  const TRAMPOLINE := 17
  const EXIT_CALL := 18     // behind the trampoline's call of the entry function
  const USER_CODE := 100

  const STACK_SIZE := 16384
  /** Stack that a tick, or a call, needs with everything it leads to. */
  const TICK_ROOM := 136
  const CALL_ROOM := 72

  datatype Stack = Stack(lo: nat, hi: nat)

  /** `arg` is the argument of the `spawn` that the task is in, or was in last; `entry` is
      the function that it was spawned to run. */
  datatype Task = Task(stack: Stack, savedSp: nat, entry: nat, arg: nat)

  datatype Sys = Sys(cpu: Cpu, mem: Mem, tasks: seq<Task>, sched: Sched, lock: bool, onCpu: nat, frames: seq<seq<Cpu>>)

  predicate IsUser(rip: nat) { rip >= USER_CODE }

  /** Code that runs with interrupts masked. */
  predicate Masked(rip: nat) {
    rip in {YIELD_LOCK, YIELD_PICK, YIELD_SWITCH, YIELD_RESTORE, SPAWN_LOCK, SPAWN_BODY,
            EXIT_LOCK, EXIT_BODY, EXIT_HANG, ISR_TAIL, TRAMPOLINE}
  }

  predicate HoldsLock(rip: nat) { rip in {YIELD_PICK, SPAWN_BODY, EXIT_BODY} }

  /** In a call, before the flag has been pushed or after it has been popped. */
  predicate CallEdge(rip: nat) { rip in {YIELD_READ, SPAWN_READ, YIELD_RET} }

  /** In a call, with the caller's flag on the stack. */
  predicate CallBody(rip: nat) {
    rip in {YIELD_CLI, YIELD_LOCK, YIELD_PICK, YIELD_SWITCH, YIELD_RESTORE, SPAWN_CLI, SPAWN_LOCK, SPAWN_BODY}
  }

  predicate ExitCode(rip: nat) { rip in {EXIT_CALL, EXIT_CLI, EXIT_LOCK, EXIT_BODY} }

  /** Room still needed below `rsp` before the next switch. */
  function Need(rip: nat): nat {
    if rip in {YIELD_READ, SPAWN_READ} then 64
    else if CallBody(rip) && rip != YIELD_RESTORE then 56
    else if rip == EXIT_CALL then 8 + CALL_ROOM
    else if ExitCode(rip) || rip == TRAMPOLINE then CALL_ROOM
    else 0
  }

  function Flag(b: bool): nat { if b then 1 else 0 }

  predicate InBounds(stack: Stack, c: Cpu) {
    stack.lo + Need(c.rip) <= c.rsp <= stack.hi && c.rsp % 8 == 0 && (Masked(c.rip) ==> !c.iflag)
  }

  /** `c` is in a call that returns to `e`: the words above `c.rsp` say so. */
  predicate InCall(mem: Mem, c: Cpu, e: Cpu) {
    && c.regs == e.regs && e.rsp >= 16 && Rd(mem, e.rsp - 8) == e.rip && (IsUser(e.rip) || e.rip == ISR_TAIL)
    && if CallEdge(c.rip) then c.rsp == e.rsp - 8 && c.iflag == e.iflag
       else
         && CallBody(c.rip) && c.rsp == e.rsp - 16 && Rd(mem, e.rsp - 16) == Flag(e.iflag)
         && (c.rip in {YIELD_CLI, SPAWN_CLI} ==> c.iflag == e.iflag)
  }

  /** `c` is in the tail of an interrupt handler that returns to `e`. */
  predicate InIsr(mem: Mem, c: Cpu, e: Cpu) {
    && c.rip == ISR_TAIL && c.regs == e.regs && e.iflag && e.rsp >= 64 && c.rsp == e.rsp - 64
    && FrameCpu(mem, c.rsp, true) == Cpu(e.regs, e.rsp - 8, e.rip, true)
    && Rd(mem, e.rsp - 8) == Flag(true)
  }

  /** Running on from `c`, the pending calls and interrupts return to exactly `frames`,
      innermost last. */
  ghost predicate Returns(mem: Mem, c: Cpu, frames: seq<Cpu>, stack: Stack, idle: bool)
    decreases |frames|
  {
    && InBounds(stack, c)
    && if frames == [] then IsUser(c.rip) || (!idle && (ExitCode(c.rip) || c.rip == TRAMPOLINE))
       else
         && Returns(mem, Top(frames), Drop(frames), stack, idle)
         && (InIsr(mem, c, Top(frames)) || InCall(mem, c, Top(frames)))
  }

  function Top<T>(s: seq<T>): T requires s != [] { s[|s| - 1] }

  function Drop<T>(s: seq<T>): seq<T> requires s != [] { s[..|s| - 1] }

  /** Only the words from `c.rsp` up matter. */
  lemma {:induction false} ReturnsFrame(mem: Mem, mem': Mem, c: Cpu, frames: seq<Cpu>, stack: Stack, idle: bool)
    requires Returns(mem, c, frames, stack, idle) && forall a | c.rsp <= a < stack.hi :: Rd(mem', a) == Rd(mem, a)
    ensures Returns(mem', c, frames, stack, idle)
    decreases |frames|
  {
    if frames != [] {
      ReturnsFrame(mem, mem', Top(frames), Drop(frames), stack, idle);
    }
  }

  /** A parked task resumes after its `switch_context` call or, if new, in the trampoline
      with its entry function in r15 and a 16-aligned stack. */
  ghost predicate Parked(mem: Mem, task: Task, frames: seq<Cpu>, idle: bool) {
    var c := FrameCpu(mem, task.savedSp, false);
    && task.stack.lo <= task.savedSp && task.savedSp + FRAME <= task.stack.hi
    && Returns(mem, c, frames, task.stack, idle)
    && (c.rip == YIELD_RESTORE || FreshCpu(c, task))
  }

  predicate FreshCpu(c: Cpu, task: Task) {
    c.rip == TRAMPOLINE && c.regs.r15 == task.entry && IsUser(task.entry) && c.rsp % 16 == 0
  }

  ghost predicate Disjoint(tasks: seq<Task>) {
    forall t, u | 0 <= t < u < |tasks| :: tasks[t].stack.hi <= tasks[u].stack.lo || tasks[u].stack.hi <= tasks[t].stack.lo
  }

  /** The task on the processor has been marked finished and is yielding for good. */
  predicate Gone(s: Sys)
    requires s.onCpu < |s.sched.states|
  {
    s.sched.states[s.onCpu] == Finished
  }

  ghost predicate SchedOk(s: Sys) {
    && |s.sched.states| == |s.tasks| && s.onCpu < |s.tasks|
    && (if Gone(s) && s.cpu.rip != YIELD_SWITCH then Exiting(s.sched) else Inv(s.sched))
    && (s.cpu.rip == YIELD_SWITCH <==> s.onCpu != s.sched.current)
  }

  ghost predicate CpuOk(s: Sys)
    requires s.onCpu < |s.sched.states| && s.onCpu < |s.tasks| && s.onCpu < |s.frames|
  {
    if Gone(s) then
      && InBounds(s.tasks[s.onCpu].stack, s.cpu) && !s.cpu.iflag && s.frames[s.onCpu] == []
      && s.cpu.rip in {YIELD_READ, YIELD_CLI, YIELD_LOCK, YIELD_PICK, YIELD_SWITCH}
    else
      && Returns(s.mem, s.cpu, s.frames[s.onCpu], s.tasks[s.onCpu].stack, s.onCpu == IDLE)
      && (s.cpu.rip == TRAMPOLINE ==> FreshCpu(s.cpu, s.tasks[s.onCpu]))
  }

  /** No saved stack pointer that can still be loaded is stale. */
  ghost predicate OthersParked(s: Sys)
    requires |s.frames| == |s.tasks| == |s.sched.states|
  {
    forall t | 0 <= t < |s.tasks| && t != s.onCpu && s.sched.states[t] != Finished ::
      Parked(s.mem, s.tasks[t], s.frames[t], t == IDLE)
  }

  ghost predicate SysInv(s: Sys) {
    && |s.frames| == |s.tasks|
    && Disjoint(s.tasks)
    && SchedOk(s)
    && CpuOk(s)
    && OthersParked(s)
    && (s.lock <==> HoldsLock(s.cpu.rip))
    && ArgsOk(s.tasks)
  }

  /** Only functions are spawned. */
  ghost predicate ArgsOk(tasks: seq<Task>) { forall t | 0 <= t < |tasks| :: IsUser(tasks[t].arg) }

  // ---- Steps ---------------------------------------------------------------------------

  datatype Action =
    | Work(cpu: Cpu, mem: Mem)        // task code: any registers, any write off the other stacks
    | CallYield(ret: nat)
    | CallSpawn(ret: nat, entry: nat)
    | EntryReturns                    // the entry function's `ret`, back into the trampoline
    | Tick
    | Kernel(base: nat)               // the next kernel step; a spawn puts its stack here

  /** `x` lies on the stack of a task other than the running one. */
  predicate OnOtherStack(s: Sys, x: nat) {
    exists t | 0 <= t < |s.tasks| :: t != s.onCpu && OnStack(s.tasks[t], x)
  }

  predicate OnStack(task: Task, x: nat) { task.stack.lo <= x < task.stack.hi }

  /** The heap hands out stacks that overlap no other. */
  ghost predicate FreshStack(s: Sys, base: nat) {
    base % 8 == 0 && forall t | 0 <= t < |s.tasks| :: base + STACK_SIZE <= s.tasks[t].stack.lo || s.tasks[t].stack.hi <= base
  }

  /** A tick needs the interrupt flag and nothing else but room on the stack, which has
      no guard page; task code writes no other task's stack; a taken lock is waited for. */
  ghost predicate Enabled(s: Sys, a: Action)
    requires s.onCpu < |s.tasks|
  {
    var task := s.tasks[s.onCpu];
    match a
    case Work(cpu, mem) =>
      && IsUser(s.cpu.rip) && IsUser(cpu.rip) && InBounds(task.stack, cpu)
      && forall x: nat | OnOtherStack(s, x) :: Rd(mem, x) == Rd(s.mem, x)
    case CallYield(ret) => IsUser(s.cpu.rip) && IsUser(ret) && task.stack.lo + CALL_ROOM <= s.cpu.rsp
    case CallSpawn(ret, entry) =>
      IsUser(s.cpu.rip) && IsUser(ret) && IsUser(entry) && task.stack.lo + CALL_ROOM <= s.cpu.rsp
    case EntryReturns =>
      && IsUser(s.cpu.rip) && s.onCpu != IDLE && Rd(s.mem, s.cpu.rsp) == EXIT_CALL
      && task.stack.lo + CALL_ROOM <= s.cpu.rsp && s.cpu.rsp + 8 <= task.stack.hi
    case Tick => s.cpu.iflag && task.stack.lo + TICK_ROOM <= s.cpu.rsp
    case Kernel(base) =>
      && !IsUser(s.cpu.rip)
      && (s.cpu.rip in {YIELD_LOCK, SPAWN_LOCK, EXIT_LOCK} ==> !s.lock)
      && (s.cpu.rip == SPAWN_BODY ==> FreshStack(s, base))
  }

  /** A call: the return address pushed, the state to return to recorded. */
  function Call(s: Sys, ret: nat, to: nat): Sys
    requires s.onCpu < |s.frames| && s.cpu.rsp >= 8
  {
    var c := s.cpu;
    s.(cpu := c.(rsp := c.rsp - 8, rip := to), mem := s.mem[c.rsp - 8 := ret],
       frames := s.frames[s.onCpu := s.frames[s.onCpu] + [c.(rip := ret)]])
  }

  /** The interrupt taken: flags, return address and registers pushed, IF cleared. */
  function Interrupted(s: Sys): Sys
    requires s.onCpu < |s.frames| && s.cpu.rsp >= 64
  {
    var c := s.cpu;
    s.(cpu := c.(rsp := c.rsp - 64, rip := ISR_TAIL, iflag := false),
       mem := PushRegs(s.mem[c.rsp - 8 := Flag(true)][c.rsp - 16 := c.rip], c.rsp - 16, c.regs),
       frames := s.frames[s.onCpu := s.frames[s.onCpu] + [c]])
  }

  /** `Task::new`: the fabricated frame below the 16-aligned top of the stack. */
  function StackTop(base: nat): nat { (base + STACK_SIZE) / 16 * 16 }

  function NewTask(base: nat, entry: nat): Task {
    Task(Stack(base, base + STACK_SIZE), StackTop(base) - FRAME, entry, entry)
  }

  function NewFrame(mem: Mem, base: nat, entry: nat): Mem {
    PushRegs(mem[StackTop(base) - 8 := TRAMPOLINE], StackTop(base) - 8, Regs(entry, 0, 0, 0, 0, 0))
  }

  /** `switch_context`, from the call to the return on the other stack. */
  function Switched(s: Sys): Sys
    requires s.onCpu < |s.tasks| && s.sched.current < |s.tasks| && s.cpu.rsp >= FRAME
  {
    var c := s.cpu;
    var mem := PushRegs(s.mem[c.rsp - 8 := YIELD_RESTORE], c.rsp - 8, c.regs);
    var tasks := s.tasks[s.onCpu := s.tasks[s.onCpu].(savedSp := c.rsp - FRAME)];
    s.(cpu := FrameCpu(mem, tasks[s.sched.current].savedSp, c.iflag), mem := mem, tasks := tasks, onCpu := s.sched.current)
  }

  /** The same on the instructions of boot/switch.asm. */
  method SwitchOnCore(s: Sys) returns (s': Sys)
    requires s.onCpu < |s.tasks| && s.sched.current < |s.tasks| && s.cpu.rsp >= FRAME && s.onCpu != s.sched.current
    ensures s' == Switched(s)
  {
    hide PushRegs, FrameCpu;
    var core := new Core(s.cpu, s.mem);
    core.Push(YIELD_RESTORE);
    var saved := core.SwitchContext(s.tasks[s.sched.current].savedSp);
    var cpu := core.Value();
    s' := s.(cpu := cpu, mem := core.mem, tasks := s.tasks[s.onCpu := s.tasks[s.onCpu].(savedSp := saved)],
             onCpu := s.sched.current);
  }

  function KernelStep(s: Sys, base: nat): Sys
    requires |s.sched.states| == |s.tasks| == |s.frames| && s.onCpu < |s.tasks|
    requires s.sched.current < |s.tasks| && (s.sched.ready != [] ==> s.sched.ready[0] < |s.tasks|)
    requires s.cpu.rsp >= Need(s.cpu.rip)
    requires s.cpu.rip in {YIELD_RET, ISR_TAIL} ==> s.frames[s.onCpu] != []
  {
    var c := s.cpu;
    if c.rip in {YIELD_READ, SPAWN_READ} then
      s.(cpu := c.(rsp := c.rsp - 8, rip := c.rip + 1), mem := s.mem[c.rsp - 8 := Flag(c.iflag)])
    else if c.rip in {YIELD_CLI, SPAWN_CLI, EXIT_CLI} then s.(cpu := c.(iflag := false, rip := c.rip + 1))
    else if c.rip in {YIELD_LOCK, SPAWN_LOCK, EXIT_LOCK} then s.(lock := true, cpu := c.(rip := c.rip + 1))
    else if c.rip == YIELD_PICK then
      var sched := Yield(s.sched);
      s.(sched := sched, lock := false, cpu := c.(rip := if sched.current == s.onCpu then YIELD_RESTORE else YIELD_SWITCH))
    else if c.rip == YIELD_SWITCH then Switched(s)
    else if c.rip == YIELD_RESTORE then
      s.(cpu := c.(rsp := c.rsp + 8, rip := YIELD_RET, iflag := c.iflag || Rd(s.mem, c.rsp) != 0))
    else if c.rip == YIELD_RET then
      s.(cpu := c.(rsp := c.rsp + 8, rip := Rd(s.mem, c.rsp)), frames := s.frames[s.onCpu := Drop(s.frames[s.onCpu])])
    else if c.rip == SPAWN_BODY then
      var entry := s.tasks[s.onCpu].arg;
      s.(sched := Spawn(s.sched), tasks := s.tasks + [NewTask(base, entry)], frames := s.frames + [[]],
         mem := NewFrame(s.mem, base, entry), lock := false, cpu := c.(rip := YIELD_RESTORE))
    else if c.rip == EXIT_BODY then
      s.(sched := Finish(s.sched), lock := false, cpu := c.(rsp := c.rsp - 8, rip := YIELD_READ),
         mem := s.mem[c.rsp - 8 := EXIT_HANG])
    else if c.rip == ISR_TAIL then
      s.(cpu := FrameCpu(s.mem, c.rsp, Rd(s.mem, c.rsp + FRAME) != 0).(rsp := c.rsp + 64),
         frames := s.frames[s.onCpu := Drop(s.frames[s.onCpu])])
    else if c.rip == TRAMPOLINE then
      s.(cpu := c.(rsp := c.rsp - 8, rip := c.regs.r15), mem := s.mem[c.rsp - 8 := EXIT_CALL])
    else if c.rip == EXIT_CALL then
      s.(cpu := c.(rsp := c.rsp - 8, rip := EXIT_CLI), mem := s.mem[c.rsp - 8 := EXIT_HANG])
    else s
  }

  ghost function Apply(s: Sys, a: Action): Sys
    requires SysInv(s) && Enabled(s, a)
  {
    match a
    case Work(cpu, mem) => s.(cpu := cpu, mem := mem)
    case CallYield(ret) => Call(s, ret, YIELD_READ)
    case CallSpawn(ret, entry) =>
      Call(s, ret, SPAWN_READ).(tasks := s.tasks[s.onCpu := s.tasks[s.onCpu].(arg := entry)])
    case EntryReturns => s.(cpu := s.cpu.(rsp := s.cpu.rsp + 8, rip := EXIT_CALL))
    case Tick => Call(Interrupted(s), ISR_TAIL, YIELD_READ)
    case Kernel(base) => KernelStep(s, base)
  }

  // ---- What a step leaves alone ----------------------------------------------------------

  /** Memory that a step may write: the running task's stack or, when it creates a task,
      the stack of that task alone; task code may write anything off the other stacks. */
  predicate Writable(s: Sys, a: Action, x: nat)
    requires s.onCpu < |s.tasks|
  {
    if a.Kernel? && s.cpu.rip == SPAWN_BODY then a.base <= x < a.base + STACK_SIZE
    else if a.Work? then !OnOtherStack(s, x)
    else s.tasks[s.onCpu].stack.lo <= x < s.tasks[s.onCpu].stack.hi
  }

  lemma RunningInBounds(s: Sys)
    requires SysInv(s)
    ensures InBounds(s.tasks[s.onCpu].stack, s.cpu)
  {
    hide Inv, Exiting, Disjoint, OthersParked;
  }

  lemma StepWrites(s: Sys, a: Action)
    requires SysInv(s) && Enabled(s, a)
    ensures forall x: nat | !Writable(s, a, x) :: Rd(Apply(s, a).mem, x) == Rd(s.mem, x)
  {
    hide Inv, Exiting, Disjoint, OthersParked, Returns;
    RunningInBounds(s);
  }

  /** A step changes nothing that belongs to a task off the processor, and puts such a
      task on the processor only by loading its saved stack pointer. */
  lemma StepIsolates(s: Sys, a: Action, k: nat)
    requires SysInv(s) && Enabled(s, a) && k < |s.tasks| && k != s.onCpu
    ensures var s' := Apply(s, a);
      && k < |s'.tasks| && k < |s'.frames| && s'.tasks[k] == s.tasks[k] && s'.frames[k] == s.frames[k]
      && (forall x: nat | s.tasks[k].stack.lo <= x < s.tasks[k].stack.hi :: Rd(s'.mem, x) == Rd(s.mem, x))
      && (s'.onCpu == k ==> s.cpu.rip == YIELD_SWITCH && k == s.sched.current
                            && s'.cpu == FrameCpu(s'.mem, s.tasks[k].savedSp, s.cpu.iflag))
  {
    hide Inv, Exiting, OthersParked, Returns, Rd, StackTop, Writable, Disjoint;
    StepWrites(s, a);
    OthersUnwritable(s, a, k);
  }

  lemma OthersUnwritable(s: Sys, a: Action, k: nat)
    requires SysInv(s) && Enabled(s, a) && k < |s.tasks| && k != s.onCpu
    ensures forall x: nat | s.tasks[k].stack.lo <= x < s.tasks[k].stack.hi :: !Writable(s, a, x)
  {
    hide Inv, Exiting, CpuOk, OthersParked;
    forall x: nat | s.tasks[k].stack.lo <= x < s.tasks[k].stack.hi ensures !Writable(s, a, x) {
      assert OnStack(s.tasks[k], x);
    }
  }

  // ---- The invariant is kept ---------------------------------------------------------------

  lemma YieldFromInv(sched: Sched)
    requires Inv(sched) || Exiting(sched)
    ensures Inv(Yield(sched)) && (Exiting(sched) ==> Yield(sched).current != sched.current)
    ensures |Yield(sched).states| == |sched.states|
    ensures forall t | 0 <= t < |sched.states| ::
      sched.states[t] == Finished <==> Yield(sched).states[t] == Finished
  {
    if Exiting(sched) {
      ExitInv(sched.(states := sched.states[sched.current := Running]));
      assert sched.states[sched.current := Running][sched.current := Finished] == sched.states;
    } else {
      YieldInv(sched);
    }
  }

  /** A call and an interrupt return to exactly the state that was left: same
      callee-saved registers, stack pointer, return address and interrupt flag. */
  lemma ReturnTransparent(s: Sys)
    requires SysInv(s) && s.cpu.rip in {YIELD_RET, ISR_TAIL}
    ensures s.frames[s.onCpu] != []
    ensures forall base ::
      && KernelStep(s, base).cpu == Top(s.frames[s.onCpu])
      && KernelStep(s, base).frames[s.onCpu] == Drop(s.frames[s.onCpu])
    ensures Returns(s.mem, Top(s.frames[s.onCpu]), Drop(s.frames[s.onCpu]), s.tasks[s.onCpu].stack, s.onCpu == IDLE)
  {
    hide Disjoint, OthersParked, Inv, Exiting;
  }

  /** Outside the critical sections, and before and after a switch, the scheduler and
      the task on the processor stay as they are. */
  predicate Quiet(s: Sys, a: Action) {
    a.Kernel? ==> s.cpu.rip !in {YIELD_PICK, YIELD_SWITCH, SPAWN_BODY, EXIT_BODY}
  }

  lemma QuietSched(s: Sys, a: Action)
    requires SysInv(s) && Enabled(s, a) && Quiet(s, a)
    ensures SchedOk(Apply(s, a)) && Apply(s, a).sched == s.sched && |Apply(s, a).frames| == |s.tasks|
  {
    hide Disjoint, OthersParked, Rd, Yield, Inv, Exiting;
    RunningInBounds(s);
    if s.cpu.rip in {YIELD_RET, ISR_TAIL} {
      ReturnTransparent(s);
    }
  }

  lemma ParkedFrame(mem: Mem, mem': Mem, task: Task, frames: seq<Cpu>, idle: bool)
    requires Parked(mem, task, frames, idle)
    requires forall a: nat | task.stack.lo <= a < task.stack.hi :: Rd(mem', a) == Rd(mem, a)
    ensures Parked(mem', task, frames, idle)
    ensures FrameCpu(mem', task.savedSp, false) == FrameCpu(mem, task.savedSp, false)
  {
    hide Rd, Returns;
    ReturnsFrame(mem, mem', FrameCpu(mem, task.savedSp, false), frames, task.stack, idle);
  }

  /** What the switch loads is a parked context: one left by an earlier switch, or one
      made by `Task::new`. */
  lemma SwitchLoads(s: Sys, a: Action)
    requires SysInv(s) && Enabled(s, a) && a.Kernel? && s.cpu.rip == YIELD_SWITCH
    ensures var s', k := Apply(s, a), s.sched.current;
      && k != s.onCpu && s.sched.states[k] != Finished && Parked(s.mem, s.tasks[k], s.frames[k], k == IDLE)
      && s'.onCpu == k && s'.cpu == FrameCpu(s'.mem, s.tasks[k].savedSp, false)
      && Parked(s'.mem, s'.tasks[k], s'.frames[k], k == IDLE)
  {
    hide Rd, Returns, Parked, Disjoint;
    var k := s.sched.current;
    assert s.sched.states[k] == Running;
    RunningInBounds(s);
    StepIsolates(s, a, k);
    ParkedFrame(s.mem, Apply(s, a).mem, s.tasks[k], s.frames[k], k == IDLE);
  }

  lemma ExitBodySched(s: Sys, a: Action)
    requires SysInv(s) && Enabled(s, a) && a.Kernel? && s.cpu.rip == EXIT_BODY
    ensures SchedOk(Apply(s, a)) && Inv(s.sched) && Apply(s, a).sched == Finish(s.sched)
  {
    hide Disjoint, OthersParked, Rd, Yield, Inv, Exiting;
    ExitInv(s.sched);
  }

  /** Only the running task's status can become Finished, and never back. */
  lemma StepSched(s: Sys, a: Action)
    requires SysInv(s) && Enabled(s, a)
    ensures SchedOk(Apply(s, a)) && |Apply(s, a).frames| == |Apply(s, a).tasks|
    ensures forall t | 0 <= t < |s.tasks| && t != s.onCpu ::
      Apply(s, a).sched.states[t] == Finished <==> s.sched.states[t] == Finished
  {
    hide Disjoint, OthersParked, Rd, Yield, Returns;
    if Quiet(s, a) {
      QuietSched(s, a);
    } else if s.cpu.rip == SPAWN_BODY {
      SpawnInv(s.sched);
    } else if s.cpu.rip == EXIT_BODY {
      ExitBodySched(s, a);
    } else if s.cpu.rip == YIELD_PICK {
      YieldFromInv(s.sched);
    } else {
      SwitchLoads(s, a);
    }
  }

  lemma PushesBelow(mem: Mem, rsp: nat, regs: Regs, ret: nat)
    requires rsp >= FRAME
    ensures forall x: nat | rsp <= x :: Rd(PushRegs(mem[rsp - 8 := ret], rsp - 8, regs), x) == Rd(mem, x)
  {
  }

  /** Leaving the processor parks exactly the state that made the call. */
  lemma SwitchParks(s: Sys, a: Action)
    requires SysInv(s) && Enabled(s, a) && a.Kernel? && s.cpu.rip == YIELD_SWITCH
    ensures var s', k := Apply(s, a), s.onCpu;
      && FrameCpu(s'.mem, s'.tasks[k].savedSp, false) == s.cpu.(rip := YIELD_RESTORE)
      && (!Gone(s) ==> Parked(s'.mem, s'.tasks[k], s'.frames[k], k == IDLE))
      && (forall x: nat | s.cpu.rsp <= x :: Rd(s'.mem, x) == Rd(s.mem, x))
  {
    hide Disjoint, Inv, Exiting, OthersParked, PushRegs, Rd;
    RunningInBounds(s);
    var s', k, c := Apply(s, a), s.onCpu, s.cpu.(rip := YIELD_RESTORE);
    PushesBelow(s.mem, s.cpu.rsp, s.cpu.regs, YIELD_RESTORE);
    ParkThenResume(s.mem, s.cpu.rsp, s.cpu.regs, YIELD_RESTORE, false);
    if !Gone(s) {
      assert InCall(s.mem, c, Top(s.frames[k]));
      assert Returns(s.mem, c, s.frames[k], s.tasks[k].stack, k == IDLE);
      ReturnsFrame(s.mem, s'.mem, c, s.frames[k], s.tasks[k].stack, k == IDLE);
    }
  }

  /** A new task is parked in the trampoline, its entry function in r15 and its stack
      pointer 16-aligned. */
  lemma NewTaskParked(mem: Mem, base: nat, entry: nat)
    requires base % 8 == 0 && IsUser(entry)
    ensures var task, mem' := NewTask(base, entry), NewFrame(mem, base, entry);
      Parked(mem', task, [], false) && FreshCpu(FrameCpu(mem', task.savedSp, false), task)
  {
    hide PushRegs, Rd;
    assert StackTop(base) % 16 == 0 && base + STACK_SIZE - 16 < StackTop(base) <= base + STACK_SIZE;
    ParkThenResume(mem, StackTop(base), Regs(entry, 0, 0, 0, 0, 0), TRAMPOLINE, false);
  }

  lemma StepOthers(s: Sys, a: Action)
    requires SysInv(s) && Enabled(s, a)
    ensures |Apply(s, a).frames| == |Apply(s, a).tasks| == |Apply(s, a).sched.states| && OthersParked(Apply(s, a))
  {
    hide Returns, Inv, Exiting, Rd, Disjoint, Parked, NewTask, NewFrame;
    StepSched(s, a);
    var s' := Apply(s, a);
    forall t | 0 <= t < |s'.tasks| && t != s'.onCpu && s'.sched.states[t] != Finished
      ensures Parked(s'.mem, s'.tasks[t], s'.frames[t], t == IDLE)
    {
      if t == |s.tasks| {
        NewTaskParked(s.mem, a.base, s.tasks[s.onCpu].arg);
      } else if t == s.onCpu {
        SwitchParks(s, a);
      } else {
        StepIsolates(s, a, t);
        ParkedFrame(s.mem, s'.mem, s.tasks[t], s.frames[t], t == IDLE);
      }
    }
  }

  lemma StepFrame(s: Sys, a: Action)
    requires SysInv(s) && Enabled(s, a)
    ensures Disjoint(Apply(s, a).tasks)
  {
    hide Inv, Exiting, Rd, OthersParked, CpuOk, Returns;
    RunningInBounds(s);
  }

  lemma StepLock(s: Sys, a: Action)
    requires SysInv(s) && Enabled(s, a)
    ensures Apply(s, a).lock <==> HoldsLock(Apply(s, a).cpu.rip)
  {
    hide Inv, Exiting, Rd, OthersParked, Disjoint;
    RunningInBounds(s);
    if s.cpu.rip in {YIELD_RET, ISR_TAIL} {
      ReturnTransparent(s);
    } else if a.Kernel? && s.cpu.rip == YIELD_SWITCH {
      SwitchLoads(s, a);
    }
  }

  lemma StepArgs(s: Sys, a: Action)
    requires SysInv(s) && Enabled(s, a)
    ensures ArgsOk(Apply(s, a).tasks)
  {
    hide Inv, Exiting, Rd, OthersParked, Disjoint, CpuOk, Returns;
    RunningInBounds(s);
    assert IsUser(s.tasks[s.onCpu].arg);
  }

  /** The invariant of the running task holds after a call from a state that the call
      can return to. */
  lemma CallCpu(s: Sys, ret: nat, to: nat)
    requires |s.frames| == |s.tasks| && s.onCpu < |s.tasks| && to in {YIELD_READ, SPAWN_READ}
    requires (IsUser(ret) || ret == ISR_TAIL) && s.tasks[s.onCpu].stack.lo + CALL_ROOM <= s.cpu.rsp
    requires Returns(s.mem, s.cpu.(rip := ret), s.frames[s.onCpu], s.tasks[s.onCpu].stack, s.onCpu == IDLE)
    ensures var s' := Call(s, ret, to);
      Returns(s'.mem, s'.cpu, s'.frames[s.onCpu], s.tasks[s.onCpu].stack, s.onCpu == IDLE)
  {
    hide Rd;
    var s', frames, stack := Call(s, ret, to), s.frames[s.onCpu], s.tasks[s.onCpu].stack;
    var e := s.cpu.(rip := ret);
    WriteBelow(s.mem, s.cpu.rsp - 8, ret);
    ReturnsFrame(s.mem, s'.mem, e, frames, stack, s.onCpu == IDLE);
    assert Top(frames + [e]) == e && Drop(frames + [e]) == frames;
  }

  lemma WriteBelow(mem: Mem, a: nat, w: nat)
    ensures Rd(mem[a := w], a) == w && forall x: nat | x != a :: Rd(mem[a := w], x) == Rd(mem, x)
  {
  }

  lemma InterruptedCpu(s: Sys)
    requires |s.frames| == |s.tasks| && s.onCpu < |s.tasks|
    requires s.cpu.iflag && s.tasks[s.onCpu].stack.lo + TICK_ROOM <= s.cpu.rsp
    requires Returns(s.mem, s.cpu, s.frames[s.onCpu], s.tasks[s.onCpu].stack, s.onCpu == IDLE)
    ensures var s' := Interrupted(s);
      Returns(s'.mem, s'.cpu, s'.frames[s.onCpu], s.tasks[s.onCpu].stack, s.onCpu == IDLE)
  {
    hide Rd, PushRegs;
    var s', frames, stack, c := Interrupted(s), s.frames[s.onCpu], s.tasks[s.onCpu].stack, s.cpu;
    WriteBelow(s.mem, c.rsp - 8, Flag(true));
    PushesBelow(s.mem[c.rsp - 8 := Flag(true)], c.rsp - 8, c.regs, c.rip);
    ParkThenResume(s.mem[c.rsp - 8 := Flag(true)], c.rsp - 8, c.regs, c.rip, true);
    ReturnsFrame(s.mem, s'.mem, c, frames, stack, s.onCpu == IDLE);
    assert Top(frames + [c]) == c && Drop(frames + [c]) == frames;
  }

  /** The next instruction of a pending call that leaves the words above the caller's
      part of the stack alone. */
  lemma InnerStep(mem: Mem, mem': Mem, c: Cpu, c': Cpu, frames: seq<Cpu>, stack: Stack, idle: bool)
    requires frames != [] && Returns(mem, c, frames, stack, idle)
    requires InBounds(stack, c') && InCall(mem', c', Top(frames))
    requires forall a: nat | Top(frames).rsp <= a :: Rd(mem', a) == Rd(mem, a)
    ensures Returns(mem', c', frames, stack, idle)
  {
    hide Rd;
    ReturnsFrame(mem, mem', Top(frames), Drop(frames), stack, idle);
  }

  /** A finished task goes straight on to its last switch. */
  lemma GoneCpu(s: Sys, a: Action)
    requires SysInv(s) && Enabled(s, a) && Gone(s) && s.cpu.rip != YIELD_SWITCH
    ensures CpuOk(Apply(s, a))
  {
    hide Disjoint, Inv, Exiting, OthersParked, Rd, Returns;
    StepSched(s, a);
    if s.cpu.rip == YIELD_PICK {
      YieldFromInv(s.sched);
    }
  }

  lemma TaskCpu(s: Sys, a: Action)
    requires SysInv(s) && Enabled(s, a) && !Gone(s) && !a.Kernel?
    ensures CpuOk(Apply(s, a))
  {
    hide Disjoint, Inv, Exiting, OthersParked, Rd;
    if a.CallYield? || a.CallSpawn? {
      CallCpu(s, a.ret, if a.CallYield? then YIELD_READ else SPAWN_READ);
    } else if a.Tick? {
      InterruptedCpu(s);
      CallCpu(Interrupted(s), ISR_TAIL, YIELD_READ);
    }
  }

  lemma InnerCpu(s: Sys, a: Action)
    requires SysInv(s) && Enabled(s, a) && !Gone(s) && a.Kernel?
    requires s.cpu.rip in {YIELD_READ, YIELD_CLI, YIELD_LOCK, YIELD_RESTORE, SPAWN_READ, SPAWN_CLI, SPAWN_LOCK}
    ensures CpuOk(Apply(s, a))
  {
    hide Disjoint, Inv, Exiting, OthersParked, Rd;
    var s' := Apply(s, a);
    if s.cpu.rip in {YIELD_READ, SPAWN_READ} {
      WriteBelow(s.mem, s.cpu.rsp - 8, Flag(s.cpu.iflag));
    }
    InnerStep(s.mem, s'.mem, s.cpu, s'.cpu, s.frames[s.onCpu], s.tasks[s.onCpu].stack, s.onCpu == IDLE);
  }

  lemma PickCpu(s: Sys, a: Action)
    requires SysInv(s) && Enabled(s, a) && !Gone(s) && a.Kernel? && s.cpu.rip == YIELD_PICK
    ensures CpuOk(Apply(s, a))
  {
    hide Disjoint, Inv, Exiting, OthersParked, Rd, Yield;
    YieldFromInv(s.sched);
    var s' := Apply(s, a);
    InnerStep(s.mem, s'.mem, s.cpu, s'.cpu, s.frames[s.onCpu], s.tasks[s.onCpu].stack, s.onCpu == IDLE);
  }

  lemma SpawnCpu(s: Sys, a: Action)
    requires SysInv(s) && Enabled(s, a) && !Gone(s) && a.Kernel? && s.cpu.rip == SPAWN_BODY
    ensures CpuOk(Apply(s, a))
  {
    hide Disjoint, Inv, Exiting, OthersParked, Rd;
    StepWrites(s, a);
    var s', stack := Apply(s, a), s.tasks[s.onCpu].stack;
    ReturnsFrame(s.mem, s'.mem, Top(s.frames[s.onCpu]), Drop(s.frames[s.onCpu]), stack, s.onCpu == IDLE);
  }

  lemma ExitCpu(s: Sys, a: Action)
    requires SysInv(s) && Enabled(s, a) && !Gone(s) && a.Kernel?
    requires s.cpu.rip in {EXIT_CALL, EXIT_CLI, EXIT_LOCK, EXIT_BODY, TRAMPOLINE}
    ensures CpuOk(Apply(s, a))
  {
    hide Disjoint, Inv, Exiting, OthersParked, Rd;
  }

  lemma StepCpu(s: Sys, a: Action)
    requires SysInv(s) && Enabled(s, a)
    ensures Apply(s, a).onCpu < |Apply(s, a).sched.states| && Apply(s, a).onCpu < |Apply(s, a).tasks|
    ensures Apply(s, a).onCpu < |Apply(s, a).frames| && CpuOk(Apply(s, a))
  {
    hide Disjoint, Inv, Exiting, OthersParked, Rd;
    StepSched(s, a);
    if a.Kernel? && s.cpu.rip == YIELD_SWITCH {
      SwitchLoads(s, a);
    } else if Gone(s) {
      GoneCpu(s, a);
    } else if !a.Kernel? {
      TaskCpu(s, a);
    } else if s.cpu.rip in {YIELD_RET, ISR_TAIL} {
      ReturnTransparent(s);
    } else if s.cpu.rip in {EXIT_CALL, EXIT_CLI, EXIT_LOCK, EXIT_BODY, TRAMPOLINE} {
      ExitCpu(s, a);
    } else if s.cpu.rip == SPAWN_BODY {
      SpawnCpu(s, a);
    } else if s.cpu.rip == YIELD_PICK {
      PickCpu(s, a);
    } else {
      InnerCpu(s, a);
    }
  }

  /** Every step, ticks included, keeps the invariant. */
  lemma StepSys(s: Sys, a: Action)
    requires SysInv(s) && Enabled(s, a)
    ensures SysInv(Apply(s, a))
  {
    hide Apply, CpuOk, OthersParked, Disjoint, SchedOk, Enabled, ArgsOk;
    StepSched(s, a);
    StepFrame(s, a);
    StepLock(s, a);
    StepArgs(s, a);
    StepOthers(s, a);
    StepCpu(s, a);
  }

  // ---- Runs --------------------------------------------------------------------------------

  /** A run of the machine: every action enabled in turn, `t` the state it ends in. */
  ghost predicate Reaches(s: Sys, actions: seq<Action>, t: Sys)
    requires SysInv(s)
    decreases |actions|
  {
    if actions == [] then s == t
    else Enabled(s, actions[0]) && (StepSys(s, actions[0]); Reaches(Apply(s, actions[0]), actions[1..], t))
  }

  /** The boot context is task 0: no saved stack pointer, nothing queued. */
  function Booted(cpu: Cpu, mem: Mem, stack: Stack): Sys {
    Sys(cpu, mem, [Task(stack, 0, USER_CODE, USER_CODE)], INITIAL, false, IDLE, [[]])
  }

  /** From boot on, whatever the tasks do and wherever the ticks come: the invariant
      holds, no tick can land and nobody can wait while the scheduler is locked, a switch
      only ever loads a parked context, and a new task starts with its entry function in
      r15 on a 16-aligned stack. */
  lemma {:induction false} RunsAreSafe(cpu: Cpu, mem: Mem, stack: Stack, actions: seq<Action>, t: Sys)
    requires IsUser(cpu.rip) && InBounds(stack, cpu)
    ensures SysInv(Booted(cpu, mem, stack))
    ensures Reaches(Booted(cpu, mem, stack), actions, t) ==>
      && SysInv(t)
      && (t.lock ==> !Enabled(t, Tick))
      && (t.cpu.rip in {YIELD_LOCK, SPAWN_LOCK, EXIT_LOCK} ==> !t.lock)
      && (t.cpu.rip == YIELD_SWITCH ==>
            Parked(t.mem, t.tasks[t.sched.current], t.frames[t.sched.current], t.sched.current == IDLE))
      && (t.cpu.rip == TRAMPOLINE ==> FreshCpu(t.cpu, t.tasks[t.onCpu]))
  {
    BootedInv(cpu, mem, stack);
    if Reaches(Booted(cpu, mem, stack), actions, t) {
      ReachesInv(Booted(cpu, mem, stack), actions, t);
      LockSafe(t);
      if t.cpu.rip == YIELD_SWITCH {
        SwitchLoads(t, Kernel(0));
      }
    }
  }

  lemma BootedInv(cpu: Cpu, mem: Mem, stack: Stack)
    requires IsUser(cpu.rip) && InBounds(stack, cpu)
    ensures SysInv(Booted(cpu, mem, stack))
  {
  }

  lemma {:induction false} ReachesInv(s: Sys, actions: seq<Action>, t: Sys)
    requires SysInv(s) && Reaches(s, actions, t)
    ensures SysInv(t)
    decreases |actions|
  {
    hide SysInv, Enabled, Apply;
    if actions != [] {
      StepSys(s, actions[0]);
      ReachesInv(Apply(s, actions[0]), actions[1..], t);
    }
  }

  lemma LockSafe(s: Sys)
    requires SysInv(s)
    ensures s.lock ==> !Enabled(s, Tick)
    ensures s.cpu.rip in {YIELD_LOCK, SPAWN_LOCK, EXIT_LOCK} ==> !s.lock
  {
    hide Disjoint, OthersParked, Inv, Exiting;
    RunningInBounds(s);
  }

  /** Task `k` is off the processor in every state of the run but perhaps the last. */
  ghost predicate Away(s: Sys, actions: seq<Action>, k: nat)
    requires SysInv(s)
    decreases |actions|
  {
    actions != [] && Enabled(s, actions[0]) ==>
      && s.onCpu != k
      && (StepSys(s, actions[0]); Away(Apply(s, actions[0]), actions[1..], k))
  }

  lemma {:induction false} ParkedStays(s: Sys, actions: seq<Action>, t: Sys, k: nat)
    requires SysInv(s) && Reaches(s, actions, t) && Away(s, actions, k)
    requires k < |s.tasks| && k != s.onCpu && s.sched.states[k] != Finished
    ensures SysInv(t) && k < |t.frames| && t.frames[k] == s.frames[k]
    ensures forall x: nat | s.tasks[k].stack.lo <= x < s.tasks[k].stack.hi :: Rd(t.mem, x) == Rd(s.mem, x)
    ensures t.onCpu == k ==> t.cpu == FrameCpu(s.mem, s.tasks[k].savedSp, false)
    decreases |actions|
  {
    hide Enabled, Apply, Rd, Returns, Disjoint, Inv, Exiting;
    if actions != [] {
      var s' := Apply(s, actions[0]);
      StepSys(s, actions[0]);
      StepIsolates(s, actions[0], k);
      StepSched(s, actions[0]);
      RunningInBounds(s);
      if s'.onCpu == k {
        assert FrameCpu(s'.mem, s.tasks[k].savedSp, false) == FrameCpu(s.mem, s.tasks[k].savedSp, false);
      } else {
        ParkedStays(s', actions[1..], t, k);
      }
    }
  }

  lemma SwitchKeeps(s: Sys, switch: Action)
    requires SysInv(s) && !Gone(s) && s.cpu.rip == YIELD_SWITCH && switch.Kernel? && Enabled(s, switch)
    ensures var s', k := Apply(s, switch), s.onCpu;
      && k < |s'.tasks| && k < |s'.frames| && k < |s'.sched.states| && k != s'.onCpu && s'.sched.states[k] != Finished
      && s'.frames[k] == s.frames[k] && s'.tasks[k].stack == s.tasks[k].stack
      && s.tasks[k].stack.lo <= s.cpu.rsp && !s.cpu.iflag
      && FrameCpu(s'.mem, s'.tasks[k].savedSp, false) == s.cpu.(rip := YIELD_RESTORE)
      && (forall x: nat | s.cpu.rsp <= x :: Rd(s'.mem, x) == Rd(s.mem, x))
  {
    hide Rd, Returns, Disjoint, Inv, Exiting, OthersParked, FrameCpu;
    RunningInBounds(s);
    SwitchParks(s, switch);
  }

  /** The switch is transparent: however long the others run, ticks included, a task that
      left the processor in `switch_context` comes back behind the call with the
      registers, stack pointer and flag it left with, and its stack from there up as it
      was. */
  lemma SwitchTransparent(s: Sys, switch: Action, actions: seq<Action>, t: Sys)
    requires SysInv(s) && !Gone(s) && s.cpu.rip == YIELD_SWITCH && switch.Kernel? && Enabled(s, switch)
    requires SysInv(Apply(s, switch)) && Reaches(Apply(s, switch), actions, t)
    requires Away(Apply(s, switch), actions, s.onCpu) && t.onCpu == s.onCpu
    ensures t.cpu == s.cpu.(rip := YIELD_RESTORE)
    ensures s.onCpu < |t.frames| && t.frames[s.onCpu] == s.frames[s.onCpu]
    ensures forall x: nat | s.cpu.rsp <= x < s.tasks[s.onCpu].stack.hi :: Rd(t.mem, x) == Rd(s.mem, x)
  {
    hide Rd, SysInv, FrameCpu, Apply, Enabled, Away, Reaches, Gone;
    SwitchKeeps(s, switch);
    ParkedStays(Apply(s, switch), actions, t, s.onCpu);
  }

  // ---- Calls and interrupts, from entry to return ----------------------------------------------

  lemma {:induction false} BelowFrames(mem: Mem, c: Cpu, frames: seq<Cpu>, stack: Stack, idle: bool, i: nat)
    requires Returns(mem, c, frames, stack, idle) && i < |frames|
    ensures c.rsp <= frames[i].rsp
    decreases |frames|
  {
    if i < |frames| - 1 {
      BelowFrames(mem, Top(frames), Drop(frames), stack, idle, i);
    }
  }

  /** Task `k` still has to return to the state `e`, at this depth of its pending calls
      and interrupts, with its stack from `e.rsp` up as in `mem`. */
  ghost predicate Owes(s: Sys, k: nat, depth: nat, e: Cpu, mem: Mem) {
    && k < |s.tasks| && k < |s.frames| && depth < |s.frames[k]| && s.frames[k][depth] == e
    && s.tasks[k].stack.lo <= e.rsp
    && forall x: nat | e.rsp <= x < s.tasks[k].stack.hi :: Rd(s.mem, x) == Rd(mem, x)
  }

  /** Task `k` has just returned to `e`, with its stack as in `mem`. */
  ghost predicate Returned(s: Sys, k: nat, depth: nat, e: Cpu, mem: Mem) {
    && s.onCpu == k && k < |s.tasks| && k < |s.frames| && |s.frames[k]| == depth && s.cpu == e
    && forall x: nat | e.rsp <= x < s.tasks[k].stack.hi :: Rd(s.mem, x) == Rd(mem, x)
  }

  /** Above the stack pointer nothing is written, but for the stack of a new task. */
  lemma WritesBelow(s: Sys, a: Action)
    requires SysInv(s) && Enabled(s, a) && !IsUser(s.cpu.rip)
    ensures forall x: nat | s.cpu.rsp <= x < s.tasks[s.onCpu].stack.hi :: Rd(Apply(s, a).mem, x) == Rd(s.mem, x)
  {
    hide Inv, Exiting, Disjoint, OthersParked, Returns;
    RunningInBounds(s);
  }

  lemma OwesAway(s: Sys, a: Action, k: nat, depth: nat, e: Cpu, mem: Mem)
    requires SysInv(s) && Enabled(s, a) && Owes(s, k, depth, e, mem) && k != s.onCpu
    ensures Owes(Apply(s, a), k, depth, e, mem) && Apply(s, a).tasks[k].stack == s.tasks[k].stack
  {
    hide Inv, Exiting, OthersParked, Returns, Rd, Apply, Enabled;
    StepIsolates(s, a, k);
  }

  lemma OwesHere(s: Sys, a: Action, depth: nat, e: Cpu, mem: Mem)
    requires SysInv(s) && Enabled(s, a) && Owes(s, s.onCpu, depth, e, mem)
    ensures var s' := Apply(s, a);
      s'.tasks[s.onCpu].stack == s.tasks[s.onCpu].stack
      && (Owes(s', s.onCpu, depth, e, mem) || Returned(s', s.onCpu, depth, e, mem))
  {
    hide Inv, Exiting, OthersParked, Disjoint, Rd, Apply, Enabled, Returns;
    OwesInKernel(s, depth, e, mem);
    WritesBelow(s, a);
    StepFrames(s, a);
  }

  /** A task with something to return to is in kernel code, at or below that state's stack
      pointer. */
  lemma OwesInKernel(s: Sys, depth: nat, e: Cpu, mem: Mem)
    requires SysInv(s) && Owes(s, s.onCpu, depth, e, mem)
    ensures !IsUser(s.cpu.rip) && s.cpu.rsp <= e.rsp
  {
    hide Inv, Exiting, OthersParked, Disjoint, Rd;
    BelowFrames(s.mem, s.cpu, s.frames[s.onCpu], s.tasks[s.onCpu].stack, s.onCpu == IDLE, depth);
  }

  /** A kernel step returns to the innermost recorded state, or keeps all that are. */
  lemma StepFrames(s: Sys, a: Action)
    requires SysInv(s) && Enabled(s, a) && !IsUser(s.cpu.rip) && s.frames[s.onCpu] != []
    ensures var s', frames := Apply(s, a), s.frames[s.onCpu];
      && s.onCpu < |s'.tasks| && s.onCpu < |s'.frames| && s'.tasks[s.onCpu].stack == s.tasks[s.onCpu].stack
      && (frames <= s'.frames[s.onCpu]
          || (s'.onCpu == s.onCpu && s'.cpu == Top(frames) && s'.frames[s.onCpu] == Drop(frames)))
  {
    hide Inv, Exiting, OthersParked, Disjoint, Rd;
    if s.cpu.rip in {YIELD_RET, ISR_TAIL} {
      ReturnTransparent(s);
    }
  }

  lemma StepOwes(s: Sys, a: Action, k: nat, depth: nat, e: Cpu, mem: Mem)
    requires SysInv(s) && Enabled(s, a) && Owes(s, k, depth, e, mem)
    ensures var s' := Apply(s, a);
      k < |s'.tasks| && s'.tasks[k].stack == s.tasks[k].stack
      && (Owes(s', k, depth, e, mem) || Returned(s', k, depth, e, mem))
  {
    if k != s.onCpu {
      OwesAway(s, a, k, depth, e, mem);
    } else {
      OwesHere(s, a, depth, e, mem);
    }
  }

  /** Not yet back: at every state of the run but the last, more is pending. */
  ghost predicate Pending(s: Sys, actions: seq<Action>, k: nat, depth: nat)
    requires SysInv(s)
    decreases |actions|
  {
    actions != [] && Enabled(s, actions[0]) ==>
      && k < |s.frames| && |s.frames[k]| > depth
      && (StepSys(s, actions[0]); Pending(Apply(s, actions[0]), actions[1..], k, depth))
  }

  lemma {:induction false} OwesUntilReturned(s: Sys, actions: seq<Action>, t: Sys, k: nat, depth: nat, e: Cpu, mem: Mem)
    requires SysInv(s) && Reaches(s, actions, t) && Pending(s, actions, k, depth)
    requires Owes(s, k, depth, e, mem)
    ensures k < |t.tasks| && t.tasks[k].stack == s.tasks[k].stack
    ensures Owes(t, k, depth, e, mem) || Returned(t, k, depth, e, mem)
    decreases |actions|
  {
    hide SysInv, Enabled, Apply, Rd;
    if actions != [] {
      var s' := Apply(s, actions[0]);
      StepSys(s, actions[0]);
      StepOwes(s, actions[0], k, depth, e, mem);
      if Owes(s', k, depth, e, mem) {
        OwesUntilReturned(s', actions[1..], t, k, depth, e, mem);
      }
    }
  }

  /** What a task sees of a tick, of `yield_now` or of `spawn`: it comes back to the
      instruction it left, or the one behind the call, with the six callee-saved
      registers, the stack pointer and the interrupt flag as they were and its stack from
      there up unchanged, whatever ran in between. */
  lemma CallsAndTicksAreTransparent(s: Sys, a: Action, actions: seq<Action>, t: Sys)
    requires SysInv(s) && Enabled(s, a) && (a.Tick? || a.CallYield? || a.CallSpawn?)
    requires SysInv(Apply(s, a)) && Reaches(Apply(s, a), actions, t)
    requires Pending(Apply(s, a), actions, s.onCpu, |s.frames[s.onCpu]|)
    requires s.onCpu < |t.frames| && |t.frames[s.onCpu]| == |s.frames[s.onCpu]|
    ensures t.onCpu == s.onCpu && t.cpu == (if a.Tick? then s.cpu else s.cpu.(rip := a.ret))
    ensures forall x: nat | s.cpu.rsp <= x < s.tasks[s.onCpu].stack.hi :: Rd(t.mem, x) == Rd(s.mem, x)
  {
    hide Inv, Exiting, OthersParked, Disjoint, Reaches, Pending, Returns;
    RunningInBounds(s);
    var k, e := s.onCpu, if a.Tick? then s.cpu else s.cpu.(rip := a.ret);
    assert Owes(Apply(s, a), k, |s.frames[k]|, e, s.mem);
    OwesUntilReturned(Apply(s, a), actions, t, k, |s.frames[k]|, e, s.mem);
  }
}
