/**
 The processor as the emulator keeps it: registers, memory and control registers that a step updates in
 place (rv32ima_step, course1/mini-rv32ima/mini-rv32ima.h).
 */
module Rv32 {
  import opened BitStream
  import opened Rv32Words
  import opened Rv32Machine
  import opened Rv32Isa
  import opened Wrappers

  class Cpu {
    const regs: array<Word>
    var csr: Csrs
    const mem: array<Byte>
    const memOffset: Word

    ghost function Now(): (m: Machine)
      reads this, regs, mem
    {
      Machine(regs[..], mem[..], memOffset, csr)
    }

    ghost predicate Valid()
      reads this, regs, mem
    {
      Sound(Now()) && regs as object != mem
    }

    constructor (size: nat, offset: Word)
      requires 4 <= size <= 0x2000_0000 && size % 4 == 0
      ensures Valid() && Started(Now()) && memOffset == offset && mem.Length == size && fresh(regs) && fresh(mem)
    {
      regs := new Word[32](_ => 0);
      mem := new Byte[size](_ => 0);
      csr, memOffset := ZEROED, offset;
    }

    /** The word at a place in RAM that the test for the range has let through. */
    method Fetch(a: nat) returns (w: Word)
      requires a + 4 <= mem.Length
      ensures w == Read32(mem[..], a)
    {
      var p: int, q: int, r: int, s: int := mem[a], mem[a + 1], mem[a + 2], mem[a + 3];
      w := p + 0x100 * q + 0x1_0000 * r + 0x100_0000 * s;
    }

    method Put(a: nat, w: Word)
      requires a + 4 <= mem.Length
      modifies mem
      ensures mem[..] == Write32(old(mem[..]), a, w)
    {
      mem[a], mem[a + 1], mem[a + 2], mem[a + 3] := w % 0x100, w / 0x100 % 0x100, w / 0x1_0000 % 0x100, w / 0x100_0000;
    }

    // ----- instructions -----

    /** LB, LH, LW, LBU and LHU from RAM. */
    method LoadRam(ir: Word, pc: Word, place: nat) returns (o: Outcome)
      requires place + 4 <= mem.Length
      ensures o == LoadedRam(mem[..], place, ir, pc)
    {
      var low: int, high: int := mem[place], mem[place + 1];
      LoadedBytes(mem[..], place, low, low + 0x100 * high);
      match Funct3(ir) {
        case 0 => o := Continue(Rd(ir), if low >= 0x80 then TWO_32 - 0x100 + low else low, pc);
        case 1 =>
          var half := low + 0x100 * high;
          o := Continue(Rd(ir), if half >= 0x8000 then TWO_32 - 0x10000 + half else half, pc);
        case 2 =>
          var word := Fetch(place);
          o := Continue(Rd(ir), word, pc);
        case 4 => o := Continue(Rd(ir), low, pc);
        case 5 => o := Continue(Rd(ir), low + 0x100 * high, pc);
        case _ => o := Trap(3, 0);
      }
    }

    method Load(ir: Word, pc: Word) returns (o: Outcome)
      requires Valid()
      ensures o == Loaded(regs[..], memOffset, mem[..], csr, ir, pc)
    {
      PlaceWraps(regs[Rs1(ir)], Extend12(Imm12(ir)), memOffset);
      var place := Wrap(regs[Rs1(ir)] + Extend12(Imm12(ir)) - memOffset);
      if place >= mem.Length - 3 {
        var address := Wrap(place + memOffset);
        if 0x10000000 <= address < 0x12000000 {
          var value := 0;
          if address == 0x1100bffc {
            value := csr.timerh;
          } else if address == 0x1100bff8 {
            value := csr.timerl;
          }
          return Continue(Rd(ir), value, pc);
        }
        return Trap(6, address);
      }
      o := LoadRam(ir, pc, place);
    }

    /** SB, SH and SW to RAM. */
    method StoreRam(ir: Word, pc: Word, place: nat, value: Word) returns (o: Outcome)
      requires place + 4 <= mem.Length
      modifies mem
      ensures StoredRam(old(mem[..]), place, value, ir, pc, mem[..], o)
    {
      o := Continue(0, 0, pc);
      match Funct3(ir) {
        case 0 => mem[place] := value % 0x100;
        case 1 => mem[place], mem[place + 1] := value % 0x100, value / 0x100 % 0x100;
        case 2 => Put(place, value);
        case _ => o := Trap(3, 0);
      }
    }

    method Store(ir: Word, pc: Word) returns (o: Outcome)
      requires Valid()
      modifies `csr, mem
      ensures Valid() && StoreDone(regs[..], memOffset, old(mem[..]), old(csr), ir, pc, mem[..], csr, o)
    {
      PlaceWraps(regs[Rs1(ir)], StoreOffset(ir), memOffset);
      var value := regs[Rs2(ir)];
      var place := Wrap(StoreOffset(ir) + regs[Rs1(ir)] - memOffset);
      if place >= mem.Length - 3 {
        var address := Wrap(place + memOffset);
        if 0x10000000 <= address < 0x12000000 {
          if address == 0x11004004 {
            csr := csr.(timermatchh := value);
          } else if address == 0x11004000 {
            csr := csr.(timermatchl := value);
          } else if address == 0x11100000 {
            csr := csr.(pc := Wrap(pc + 4));
            return Return(Signed(value));
          }
          return Continue(0, 0, pc);
        }
        return Trap(8, address);
      }
      o := StoreRam(ir, pc, place, value);
    }

    method System(ir: Word, pc: Word, cycle: Word) returns (o: Outcome)
      requires Valid()
      modifies `csr
      ensures Valid() && SystemDone(regs[..], old(csr), ir, pc, cycle, csr, o)
    {
      var no, op := Imm12(ir), Funct3(ir);
      if op % 4 != 0 {
        var value := ReadCsr(csr, no, cycle);
        csr := WriteCsr(csr, no, CsrValue(op, value, regs[Rs1(ir)], Rs1(ir)));
        return Continue(Rd(ir), value, pc);
      }
      if op != 0 {
        return Trap(3, 0);
      }
      if no == 0x105 {
        csr := csr.(mstatus := WithInterrupts(csr.mstatus), extraflags := Asleep(csr.extraflags), pc := Wrap(pc + 4));
        return Return(1);
      }
      if no % 0x100 == 2 {
        var m, e := csr.mstatus, csr.extraflags;
        csr := csr.(mstatus := ReturnedStatus(m, e), extraflags := WithMode(e, ReturnedMode(m)));
        return Continue(0, 0, Wrap(csr.mepc - 4));
      }
      match no {
        case 0 => o := Trap(if csr.extraflags % 4 != 0 then 12 else 9, 0);
        case 1 => o := Trap(4, 0);
        case _ => o := Trap(3, 0);
      }
    }

    method AtomicMemory(ir: Word, pc: Word) returns (o: Outcome)
      requires Valid()
      modifies `csr, mem
      ensures Valid() && AtomicDone(regs[..], memOffset, old(mem[..]), old(csr), ir, pc, mem[..], csr, o)
    {
      var place := Wrap(regs[Rs1(ir)] - memOffset);
      if place >= mem.Length - 3 {
        return Trap(8, Wrap(place + memOffset));
      }
      var value := Fetch(place);
      var write := regs[Rs2(ir)];
      var op := ir / 0x800_0000;
      if op == 2 {
        csr := csr.(extraflags := Reserve(csr.extraflags, place));
        return Continue(Rd(ir), value, pc);
      }
      if op == 3 {
        if csr.extraflags / 8 != place % 0x2000_0000 {
          return Continue(Rd(ir), 1, pc);
        }
        value := 0;
      } else {
        var r := Atomic(op, value, write);
        if r.None? {
          return Trap(3, value);
        }
        write := r.value;
      }
      Put(place, write);
      return Continue(Rd(ir), value, pc);
    }

    method Execute(ir: Word, pc: Word, cycle: Word) returns (o: Outcome)
      requires Valid() && pc == csr.pc && cycle == ThisCycle(csr)
      modifies `csr, mem
      ensures Valid() && Executed(old(Now()), ir, mem[..], csr, o)
    {
      match Opcode(ir) {
        case 0x03 => o := Load(ir, pc);
        case 0x23 => o := Store(ir, pc);
        case 0x73 => o := System(ir, pc, cycle);
        case 0x2f => o := AtomicMemory(ir, pc);
        case _ => o := Computed(regs[..], ir, pc);
      }
    }

    // ----- the step -----

    /** The timer: 64 bits, and its interrupt. */
    method Tick(elapsed: Word)
      requires Valid()
      modifies `csr
      ensures Valid() && Timed(old(csr), elapsed, csr)
    {
      Carry(csr.timerh, csr.timerl, elapsed);
      var timer := Wrap((csr.timerl as int) + elapsed);
      if timer < csr.timerl {
        csr := csr.(timerh := Wrap(1 + (csr.timerh as int)));
      }
      csr := csr.(timerl := timer);
      var now, target := Wide(csr.timerh, csr.timerl), Wide(csr.timermatchh, csr.timermatchl);
      if (csr.timermatchh != 0 || csr.timermatchl != 0) && now > target {
        csr := csr.(extraflags := Awake(csr.extraflags), mip := WithTimerBit(csr.mip, true));
      } else {
        csr := csr.(mip := WithTimerBit(csr.mip, false));
      }
    }

    /** Enters the trap handler. */
    method EnterTrap(trap: Word, rval: Word, pc: Word)
      requires Valid() && trap > 0
      modifies `csr
      ensures Valid() && TrapEntered(old(csr), trap, rval, pc, csr)
      ensures csr.cyclel == old(csr).cyclel && csr.cycleh == old(csr).cycleh
    {
      var e, m := csr.extraflags, csr.mstatus;
      if trap >= TWO_31 {
        csr := csr.(mcause := trap, mtval := 0);
      } else {
        csr := csr.(mcause := trap - 1, mtval := if 5 < trap <= 8 then rval else pc);
      }
      csr := csr.(mepc := pc, mstatus := EnteredStatus(m, e), extraflags := WithMode(e, 3), pc := csr.mtvec);
    }

    /** The cycle counter: 64 bits. */
    method CountCycle(cycle: Word)
      requires Valid() && cycle == ThisCycle(csr)
      modifies `csr
      ensures Valid() && csr == old(csr).(cyclel := cycle, cycleh := csr.cycleh)
      ensures Wide(csr.cycleh, csr.cyclel) == (Wide(old(csr.cycleh), old(csr.cyclel)) + 1) % TWO_64
    {
      Carry(csr.cycleh, csr.cyclel, 1);
      if csr.cyclel > cycle {
        csr := csr.(cycleh := Wrap(1 + (csr.cycleh as int)));
      }
      csr := csr.(cyclel := cycle);
    }

    /** Enters the trap handler and counts the cycle. */
    method TrapAndCount(trap: Word, rval: Word, pc: Word, cycle: Word)
      requires Valid() && 0 < trap < TWO_31 && pc == csr.pc && cycle == ThisCycle(csr)
      modifies `csr
      ensures Valid() && SameTimer(csr, old(csr)) && Counted(old(csr), csr, 1) && TrapKept(old(csr), trap, csr)
      ensures TrapEntered(old(csr), trap, rval, pc, Uncount(csr, old(csr)))
    {
      EnterTrap(trap, rval, pc);
      ghost var entered := csr;
      CountCycle(cycle);
      EnteredAndCounted(old(csr), trap, rval, pc, entered, csr);
    }

    /** The end of the step: writes the register and goes on, or enters the trap handler. */
    method Finish(r: Outcome, pc: Word, cycle: Word, ghost m: Machine) returns (code: int, how: Ending)
      requires Valid() && Sound(m) && m.regs == regs[..] && pc == m.csr.pc && cycle == ThisCycle(csr)
      requires (r.Trap? ==> 0 < r.trap < TWO_31 && csr == m.csr) && (r.Continue? ==> r.rd < 32)
      modifies `csr, regs
      ensures Valid() && Finished(m, r, old(csr), regs[..], csr, how)
      ensures how.Trapped? ==> TrapKept(old(csr), how.trap, csr) && how.trap < TWO_31
      ensures SameTimer(csr, old(csr)) && Counted(old(csr), csr, if how == Left then 0 else 1) && how != Slept
    {
      code := 0;
      match r {
        case Return(c) =>
          CountedNone(csr);
          code, how := c, Left;
        case Trap(trap, rval) =>
          TrapAndCount(trap, rval, pc, cycle);
          how := Trapped(trap);
        case Continue(rd, rval, pc') =>
          if rd != 0 {
            regs[rd] := rval;
          }
          csr := csr.(pc := Wrap(pc' + 4));
          CountCycle(cycle);
          how := Ran(rd, rval);
      }
    }

    /** Executes an instruction and finishes the step; mid are the control registers in between. */
    method RunInstruction(ir: Word, pc: Word, cycle: Word) returns (code: int, how: Ending, ghost o: Outcome, ghost mid: Csrs)
      requires Valid() && Instruction(Now()) == Some(ir) && pc == csr.pc && cycle == ThisCycle(csr)
      modifies `csr, regs, mem
      ensures Valid() && Cycled(old(Now()), o, mid, how, Now())
      ensures how.Trapped? ==> TrapKept(old(csr), how.trap, csr) && how.trap < TWO_31
      ensures SameTimer(csr, old(csr)) && Counted(old(csr), csr, if how == Left then 0 else 1) && how != Slept
    {
      ghost var m := Now();
      var r := Execute(ir, pc, cycle);
      o, mid := r, csr;
      ExecutedFacts(m, ir, mem[..], mid, o);
      code, how := Finish(r, pc, cycle, m);
      CycledBy(m, ir, o, mid, how, Now());
    }

    /** Fetches and executes the next instruction. */
    method FetchAndRun() returns (code: int, how: Ending, ghost o: Outcome, ghost mid: Csrs)
      requires Valid() && !Waiting(csr.extraflags) && !Interrupted(csr)
      modifies `csr, regs, mem
      ensures Valid() && SameTimer(csr, old(csr)) && Counted(old(csr), csr, if Uncounted(how) then 0 else 1)
      ensures Cycled(old(Now()), o, mid, how, Now())
      ensures how.Trapped? ==> TrapKept(old(csr), how.trap, csr)
    {
      var pc, place := csr.pc, Wrap(csr.pc - memOffset);
      var cycle := Wrap(1 + (csr.cyclel as int));
      if place >= mem.Length || place % 4 != 0 {
        var trap := if place >= mem.Length then 2 else 1;
        o, mid := Return(0), csr;
        TrapAndCount(trap, 0, pc, cycle);
        return 0, Trapped(trap), o, mid;
      }
      var ir := Fetch(place);
      code, how, o, mid := RunInstruction(ir, pc, cycle);
    }

    /** The step after the timer: sleeps, takes the interrupt, or executes one instruction. */
    method Cycle() returns (code: int, how: Ending, ghost o: Outcome, ghost mid: Csrs)
      requires Valid()
      modifies `csr, regs, mem
      ensures Valid() && Cycled(old(Now()), o, mid, how, Now())
      ensures SameTimer(csr, old(csr)) && (how.Trapped? ==> TrapKept(old(csr), how.trap, csr))
      ensures Counted(old(csr), csr, if Uncounted(how) then 0 else 1)
    {
      CountedNone(csr);
      o, mid := Return(0), csr;
      if Waiting(csr.extraflags) {
        return 1, Slept, o, mid;
      }
      if Interrupted(csr) {
        EnterTrap(INTERRUPT, 0, csr.pc);
        Entered(mid, INTERRUPT, 0, mid.pc, csr);
        return 0, Trapped(INTERRUPT), o, mid;
      }
      code, how, o, mid := FetchAndRun();
    }

    /** rv32ima_step: 0 for a step, 1 for sleep, or what was written to SYSCON. It is a step of the machine;
        a trap enters the handler; the timer and the cycle counter go on. */
    method Step(elapsed: Word) returns (code: int, how: Ending, ghost r: Record)
      requires Valid()
      modifies `csr, regs, mem
      ensures Valid() && Stepped(old(Now()), r, Now()) && r.elapsed == elapsed && r.how == how
      ensures Lawful(old(Now()), r, Now())
      ensures var place := AtomicAt(old(Now()), r, 2);
              Reservation(csr.extraflags) == if place.Some? then place.value else old(Reservation(csr.extraflags))
      ensures how.Trapped? ==> TrapKept(old(csr), how.trap, csr)
      ensures how.Trapped? || how == Slept ==> regs[..] == old(regs[..]) && mem[..] == old(mem[..])
      ensures Wide(csr.timerh, csr.timerl) == (Wide(old(csr.timerh), old(csr.timerl)) + elapsed) % TWO_64
      ensures Counted(old(csr), csr, if Uncounted(how) then 0 else 1)
    {
      Tick(elapsed);
      ghost var ticked := csr;
      ghost var o, mid;
      code, how, o, mid := Cycle();
      r := Record(elapsed, ticked, o, mid, how);
      StepReserves(old(Now()), r, Now());
      StepLawful(old(Now()), r, Now());
      if how.Trapped? || how == Slept {
        StepTraps(old(Now()), r, Now());
      }
    }
  }
}
