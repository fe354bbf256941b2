/** boot/switch.asm: the context switch as instructions on registers and stack memory. */
module SwitchAsm {

  /** The six callee-saved registers. */
  datatype Regs = Regs(r15: nat, r14: nat, r13: nat, r12: nat, rbx: nat, rbp: nat)

  datatype Cpu = Cpu(regs: Regs, rsp: nat, rip: nat, iflag: bool)

  /** Stack memory by 8-byte words; words never written read as 0. */
  type Mem = map<nat, nat>

  function Rd(mem: Mem, a: nat): nat { if a in mem then mem[a] else 0 }

  /** Size of a parked frame: six registers and a return address. */
  const FRAME := 56

  /** What a parked stack pointer stands for: the state in which the task resumes. */
  function FrameCpu(mem: Mem, sp: nat, iflag: bool): Cpu {
    Cpu(Regs(Rd(mem, sp), Rd(mem, sp + 8), Rd(mem, sp + 16), Rd(mem, sp + 24), Rd(mem, sp + 32), Rd(mem, sp + 40)),
        sp + FRAME, Rd(mem, sp + 48), iflag)
  }

  /** Memory after the six registers have been pushed below `rsp`. */
  function PushRegs(mem: Mem, rsp: nat, regs: Regs): Mem
    requires rsp >= 48
  {
    mem[rsp - 8 := regs.rbp][rsp - 16 := regs.rbx][rsp - 24 := regs.r12]
       [rsp - 32 := regs.r13][rsp - 40 := regs.r14][rsp - 48 := regs.r15]
  }

  /** Parking is undone by resuming: the frame pushed stands for exactly the registers,
      the stack pointer and the return address that the task had. */
  lemma ParkThenResume(mem: Mem, rsp: nat, regs: Regs, ret: nat, iflag: bool)
    requires rsp >= FRAME
    ensures FrameCpu(PushRegs(mem[rsp - 8 := ret], rsp - 8, regs), rsp - FRAME, iflag) == Cpu(regs, rsp, ret, iflag)
  {
  }

  /** The frame word by word, from the return address down: rbp, rbx, r12, r13, r14, r15. */
  lemma FrameWords(mem: Mem, rsp: nat, regs: Regs, ret: nat)
    requires rsp >= 56
    ensures var m := PushRegs(mem[rsp - 8 := ret], rsp - 8, regs);
      && Rd(m, rsp - 8) == ret && Rd(m, rsp - 16) == regs.rbp && Rd(m, rsp - 24) == regs.rbx
      && Rd(m, rsp - 32) == regs.r12 && Rd(m, rsp - 40) == regs.r13 && Rd(m, rsp - 48) == regs.r14
      && Rd(m, rsp - 56) == regs.r15
      && forall a: nat | a < rsp - 56 || rsp <= a :: Rd(m, a) == Rd(mem, a)
  {
  }

  /** `switch_context` on the machine's registers. No instruction touches `iflag`, so an
      interrupt that is masked at the call stays masked at every instruction. */
  class Core {
    var regs: Regs
    var rsp: nat
    var rip: nat
    var mem: Mem
    var iflag: bool

    function Value(): Cpu
      reads this
    {
      Cpu(regs, rsp, rip, iflag)
    }

    constructor (cpu: Cpu, mem: Mem)
      ensures Value() == cpu && this.mem == mem
    {
      regs, rsp, rip, iflag, this.mem := cpu.regs, cpu.rsp, cpu.rip, cpu.iflag, mem;
    }

    method Push(w: nat)
      requires rsp >= 8
      modifies this`rsp, this`mem
      ensures rsp == old(rsp) - 8 && mem == old(mem)[rsp := w]
    {
      rsp := rsp - 8;
      mem := mem[rsp := w];
    }

    method Pop() returns (w: nat)
      modifies this`rsp
      ensures w == Rd(mem, old(rsp)) && rsp == old(rsp) + 8
    {
      w := Rd(mem, rsp);
      rsp := rsp + 8;
    }

    /** On entry the return address is at `rsp`. `saved` is what goes to `*old_sp`. */
    method SwitchContext(newSp: nat) returns (saved: nat)
      requires rsp >= 48
      modifies this`regs, this`rsp, this`rip, this`mem
      ensures saved == old(rsp) - 48
      ensures mem == PushRegs(old(mem), old(rsp), old(regs))
      ensures Value() == FrameCpu(mem, newSp, old(iflag))
    {
      hide PushRegs;
      PushSix();
      saved := rsp;
      rsp := newSp;
      PopSix();
      rip := Pop();
    }

    method PushSix()
      requires rsp >= 48
      modifies this`rsp, this`mem
      ensures rsp == old(rsp) - 48 && mem == PushRegs(old(mem), old(rsp), regs)
    {
      Push(regs.rbp);
      Push(regs.rbx);
      Push(regs.r12);
      Push(regs.r13);
      Push(regs.r14);
      Push(regs.r15);
    }

    method PopSix()
      modifies this`rsp, this`regs
      ensures rsp == old(rsp) + 48 && regs == FrameCpu(mem, old(rsp), iflag).regs
    {
      var r15 := Pop();
      var r14 := Pop();
      var r13 := Pop();
      var r12 := Pop();
      var rbx := Pop();
      var rbp := Pop();
      regs := Regs(r15, r14, r13, r12, rbx, rbp);
    }
  }
}
