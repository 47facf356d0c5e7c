/**
 One step of a RISC-V processor (rv32ima_step, course1/mini-rv32ima/mini-rv32ima.h).

 Shifts and masks that cut a field out of a word are written as divisions and remainders.
 */
module Rv32Machine {
  import opened Powers
  import opened BitStream
  import opened Rv32Words
  import opened Wrappers

  // ----- control and status registers -----

  datatype Csrs = Csrs(
    pc: Word, mstatus: Word, cyclel: Word, cycleh: Word, timerl: Word, timerh: Word,
    timermatchl: Word, timermatchh: Word, mscratch: Word, mtvec: Word, mie: Word, mip: Word,
    mepc: Word, mtval: Word, mcause: Word, extraflags: Word)

  const ZEROED := Csrs(0, 0, 0, 0, 0, 0, 0, 0, 0, 0, 0, 0, 0, 0, 0, 0)

  function ReadCsr(c: Csrs, no: nat, cycle: Word): (v: Word)
  {
    match no
    case 0x340 => c.mscratch
    case 0x305 => c.mtvec
    case 0x304 => c.mie
    case 0xC00 => cycle
    case 0x344 => c.mip
    case 0x341 => c.mepc
    case 0x300 => c.mstatus
    case 0x342 => c.mcause
    case 0x343 => c.mtval
    case 0xf11 => 0xff0ff0ff
    case 0x301 => 0x40401101
    case _ => 0
  }

  function WriteCsr(c: Csrs, no: nat, v: Word): (c': Csrs)
    ensures c'.extraflags == c.extraflags
  {
    match no
    case 0x340 => c.(mscratch := v)
    case 0x305 => c.(mtvec := v)
    case 0x304 => c.(mie := v)
    case 0x344 => c.(mip := v)
    case 0x341 => c.(mepc := v)
    case 0x300 => c.(mstatus := v)
    case 0x342 => c.(mcause := v)
    case 0x343 => c.(mtval := v)
    case _ => c
  }

  /** Bit 2 of EXTRAFLAGS: waiting for an interrupt. Bits 0 and 1: the privilege mode. From bit 3 on:
      the reservation. */
  predicate Waiting(e: Word) { e / 4 % 2 == 1 }

  function Reservation(e: Word): (a: nat) { e / 8 }

  function Awake(e: Word): (e': Word)
    ensures !Waiting(e') && Reservation(e') == Reservation(e) && e' % 4 == e % 4
  {
    if Waiting(e) then e - 4 else e
  }

  function Asleep(e: Word): (e': Word)
    ensures Waiting(e') && Reservation(e') == Reservation(e) && e' % 4 == e % 4
  {
    if Waiting(e) then e else e + 4
  }

  function WithMode(e: Word, mode: nat): (e': Word)
    requires mode < 4
    ensures Reservation(e') == Reservation(e) && e' % 4 == mode && e' / 4 == e / 4
  {
    e - e % 4 + mode
  }

  function Reserve(e: Word, a: nat): (e': Word)
    requires a < 0x2000_0000
    ensures Reservation(e') == a && e' % 8 == e % 8
  {
    e % 8 + a * 8
  }

  /** Bit 7 of MIP and MIE, bit 3 of MSTATUS. */
  predicate TimerBit(w: Word) { w / 0x80 % 2 == 1 }

  function WithInterrupts(mstatus: Word): (m: Word)
    ensures InterruptsOn(m) && m % 8 == mstatus % 8 && m / 16 == mstatus / 16
  {
    if InterruptsOn(mstatus) then mstatus else mstatus + 8
  }

  function WithTimerBit(w: Word, on: bool): (w': Word)
    ensures TimerBit(w') == on && w' % 0x80 == w % 0x80 && w' / 0x100 == w / 0x100
  {
    if TimerBit(w) == on then w else if on then w + 0x80 else w - 0x80
  }

  predicate InterruptsOn(mstatus: Word) { mstatus / 8 % 2 == 1 }

  /** What CSRRW, CSRRS, CSRRC and their immediate forms write. */
  function CsrValue(op: nat, value: Word, rs1: Word, imm: nat): (v: Word)
    requires imm < 32
  {
    match op
    case 2 => BitOr(value, rs1)
    case 3 => BitAnd(value, BitNot(rs1))
    case 5 => imm
    case 6 => BitOr(value, imm)
    case 7 => BitAnd(value, BitNot(imm))
    case _ => rs1
  }

  /** MSTATUS on the way into a trap: MIE goes to MPIE, the mode to MPP; and on the way back. */
  function EnteredStatus(m: Word, e: Word): (m': Word) { m / 8 % 2 * 0x80 + e % 4 * 0x800 }

  function ReturnedStatus(m: Word, e: Word): (m': Word) { m / 0x80 % 2 * 8 + e % 4 * 0x800 + 0x80 }

  function ReturnedMode(m: Word): (mode: nat)
    ensures mode < 4
  {
    m / 0x800 % 4
  }

  lemma {:induction false} StatusBits(x: nat, y: nat, m: nat)
    requires x < 2 && y < 4 && m == x * 0x80 + y * 0x800
    ensures m / 8 % 2 == 0 && m / 0x80 % 2 == x && m / 0x800 % 4 == y
  {
    assert m / 8 == 2 * (8 * x + 128 * y) && m / 0x80 == x + 2 * (8 * y) && m / 0x800 == y;
  }

  lemma {:induction false} ReturnedBits(x: nat, m: nat)
    requires x < 2 && m == x * 8 + 3 * 0x800 + 0x80
    ensures m / 8 % 2 == x
  {
    assert m / 8 == x + 2 * (8 + 128 * 3);
  }

  lemma {:induction false} ModeBack(e: Word)
    ensures WithMode(WithMode(e, 3), e % 4) == e
  {
  }

  /** MRET undoes what a trap did to the mode and to the interrupts, which are off in between. */
  lemma {:induction false} TrapReturns(m: Word, e: Word)
    ensures var m', e' := EnteredStatus(m, e), WithMode(e, 3);
            && !InterruptsOn(m') && WithMode(e', ReturnedMode(m')) == e
            && (InterruptsOn(ReturnedStatus(m', e')) <==> InterruptsOn(m))
  {
    StatusBits(m / 8 % 2, e % 4, EnteredStatus(m, e));
    ModeBack(e);
    ReturnedBits(m / 8 % 2, ReturnedStatus(EnteredStatus(m, e), WithMode(e, 3)));
  }

  /** Two registers as one number of 64 bits. */
  function Wide(high: Word, low: Word): (n: nat) { TWO_32 * high + low }

  /** Addition to two registers with a carry. */
  lemma {:induction false} Carry(high: Word, low: Word, add: Word)
    ensures var sum := Wrap((low as int) + add);
            Wide(if sum < low then Wrap(1 + (high as int)) else high, sum) == (Wide(high, low) + add) % TWO_64
  {
    var sum := Wrap((low as int) + add);
    var total: int := TWO_32 * (high as int) + low + add;
    if sum < low {
      assert total == TWO_32 * (1 + (high as int)) + sum;
    } else {
      assert total == TWO_32 * (high as int) + sum;
    }
  }

  // ----- the processor -----

  /** What an instruction does beside its effects on memory and the control registers: go on after pc
      with a value for a register, trap, or leave the step. */
  datatype Outcome = Continue(rd: nat, rval: Word, pc: Word) | Trap(trap: Word, rval: Word) | Return(code: int)

  /** The timer interrupt. */
  const INTERRUPT: Word := 0x80000007

  /** The steps that the cycle counter leaves out. */
  predicate Uncounted(how: Ending) { how == Slept || how == Left || how == Trapped(INTERRUPT) }

  /** The place in RAM that an instruction of RV32A speaks of. */
  function AtomicPlace(regs: seq<Word>, offset: Word, ir: Word): (place: Word)
    requires |regs| == 32
  {
    Wrap(regs[Rs1(ir)] - offset)
  }

  /** What an instruction of RV32A does. An LR.W reserves its place; an SC.W succeeds, and stores,
      exactly if its place is the reservation. */
  ghost predicate AtomicDone(regs: seq<Word>, offset: Word, mem: seq<Byte>, csr: Csrs, ir: Word, pc: Word,
                             mem': seq<Byte>, csr': Csrs, o: Outcome)
    requires |regs| == 32 && 4 <= |mem| <= 0x2000_0000
  {
    var place, op := AtomicPlace(regs, offset, ir), ir / 0x800_0000;
    if place >= |mem| - 3 then o == Trap(8, Wrap(place + offset)) && mem' == mem && csr' == csr
    else
      var was := Read32(mem, place);
      if op == 2 then
        o == Continue(Rd(ir), was, pc) && mem' == mem && csr' == csr.(extraflags := Reserve(csr.extraflags, place))
      else if op == 3 then
        var success := place == Reservation(csr.extraflags);
        && o == Continue(Rd(ir), if success then 0 else 1, pc) && csr' == csr
        && mem' == if success then Write32(mem, place, regs[Rs2(ir)]) else mem
      else
        var write := Atomic(op, was, regs[Rs2(ir)]);
        && csr' == csr
        && if write.None? then o == Trap(3, was) && mem' == mem
           else o == Continue(Rd(ir), was, pc) && mem' == Write32(mem, place, write.value)
  }

  /** How a step ends: asleep, in the trap handler, by leaving at WFI or SYSCON, or after an
      instruction. */
  datatype Ending = Slept | Trapped(trap: Word) | Left | Ran(rd: nat, rval: Word)

  ghost function LoadedRam(mem: seq<Byte>, place: nat, ir: Word, pc: Word): (o: Outcome)
    requires place + 4 <= |mem|
  {
    var v := LoadValue(mem, place, Funct3(ir));
    if v.None? then Trap(3, 0) else Continue(Rd(ir), v.value, pc)
  }

  ghost predicate StoredRam(mem: seq<Byte>, place: nat, value: Word, ir: Word, pc: Word, mem': seq<Byte>, o: Outcome)
    requires place + 4 <= |mem|
  {
    if Funct3(ir) > 2 then o == Trap(3, 0) && mem' == mem
    else o == Continue(0, 0, pc) && mem' == StoreBytes(mem, place, StoreSize(Funct3(ir)), value)
  }

  /** What a load does: from RAM, from the timer, or a trap. */
  ghost function Loaded(regs: seq<Word>, offset: Word, mem: seq<Byte>, csr: Csrs, ir: Word, pc: Word): (o: Outcome)
    requires |regs| == 32 && |mem| >= 4
  {
    var address := Wrap(regs[Rs1(ir)] + Extend12(Imm12(ir)));
    var place := Wrap(address - offset);
    if place < |mem| - 3 then LoadedRam(mem, place, ir, pc)
    else if 0x10000000 <= address < 0x12000000 then
      Continue(Rd(ir), if address == 0x1100bffc then csr.timerh else if address == 0x1100bff8 then csr.timerl else 0, pc)
    else Trap(6, address)
  }

  /** What a store does: to RAM, to the timer, to SYSCON, or a trap. */
  ghost predicate StoreDone(regs: seq<Word>, offset: Word, mem: seq<Byte>, csr: Csrs, ir: Word, pc: Word,
                            mem': seq<Byte>, csr': Csrs, o: Outcome)
    requires |regs| == 32 && |mem| >= 4
  {
    var address, value := Wrap(regs[Rs1(ir)] + StoreOffset(ir)), regs[Rs2(ir)];
    var place := Wrap(address - offset);
    if place < |mem| - 3 then csr' == csr && StoredRam(mem, place, value, ir, pc, mem', o)
    else
      && mem' == mem
      && if !(0x10000000 <= address < 0x12000000) then o == Trap(8, address) && csr' == csr
         else if address == 0x11100000 then o == Return(Signed(value)) && csr' == csr.(pc := Wrap(pc + 4))
         else o == Continue(0, 0, pc)
              && csr' == if address == 0x11004004 then csr.(timermatchh := value)
                         else if address == 0x11004000 then csr.(timermatchl := value)
                         else csr
  }

  /** What a system instruction does: reads and writes a control register, sleeps, returns from a trap,
      or traps. */
  ghost predicate SystemDone(regs: seq<Word>, csr: Csrs, ir: Word, pc: Word, cycle: Word, csr': Csrs, o: Outcome)
    requires |regs| == 32
  {
    var no, op := Imm12(ir), Funct3(ir);
    if op % 4 != 0 then
      var value := ReadCsr(csr, no, cycle);
      o == Continue(Rd(ir), value, pc) && csr' == WriteCsr(csr, no, CsrValue(op, value, regs[Rs1(ir)], Rs1(ir)))
    else if op == 0 && no == 0x105 then
      && o == Return(1)
      && csr' == csr.(mstatus := WithInterrupts(csr.mstatus), extraflags := Asleep(csr.extraflags), pc := Wrap(pc + 4))
    else if op == 0 && no % 0x100 == 2 then
      && o == Continue(0, 0, Wrap(csr.mepc - 4))
      && csr' == csr.(mstatus := ReturnedStatus(csr.mstatus, csr.extraflags),
                      extraflags := WithMode(csr.extraflags, ReturnedMode(csr.mstatus)))
    else csr' == csr && o == Trap(if op != 0 || no > 1 then 3 else if no == 1 then 4 else if csr.extraflags % 4 != 0 then 12 else 9, 0)
  }

  /** An instruction that touches neither memory nor the control registers. */
  function Computed(regs: seq<Word>, ir: Word, pc: Word): (o: Outcome)
    requires |regs| == 32
    ensures !o.Return? && (o.Continue? ==> o.rd < 32) && (o.Trap? ==> o == Trap(3, 0))
  {
    var a, b, alternative := regs[Rs1(ir)], regs[Rs2(ir)], ir / 0x4000_0000 % 2 == 1;
    match Opcode(ir)
    case 0x37 => Continue(Rd(ir), ir - ir % 0x1000, pc)
    case 0x17 => Continue(Rd(ir), Wrap((pc as int) + ir - ir % 0x1000), pc)
    case 0x6F => Continue(Rd(ir), Wrap(4 + (pc as int)), Wrap((pc as int) + JalOffset(ir) - 4))
    case 0x67 =>
      var target: int := Wrap((a as int) + Extend12(Imm12(ir)));
      Continue(Rd(ir), Wrap(4 + (pc as int)), Wrap(target - target % 2 - 4))
    case 0x63 =>
      if Funct3(ir) == 2 || Funct3(ir) == 3 then Trap(3, 0)
      else Continue(0, 0, if Taken(Funct3(ir), a, b) then Wrap((pc as int) + BranchOffset(ir) - 4) else pc)
    case 0x13 => Continue(Rd(ir), Arithmetic(Funct3(ir), false, alternative, a, Extend12(Imm12(ir))), pc)
    case 0x33 =>
      Continue(Rd(ir), if ir / 0x200_0000 % 2 == 1 then Multiply(Funct3(ir), a, b)
                       else Arithmetic(Funct3(ir), true, alternative, a, b), pc)
    case 0x0f => Continue(0, 0, pc)
    case _ => Trap(3, 0)
  }

  /** The whole state: registers, RAM and the place it starts at, control registers. */
  datatype Machine = Machine(regs: seq<Word>, mem: seq<Byte>, offset: Word, csr: Csrs)

  /** x0 is 0. */
  ghost predicate Sound(m: Machine)
  {
    |m.regs| == 32 && m.regs[0] == 0 && 4 <= |m.mem| <= 0x2000_0000 && |m.mem| % 4 == 0
  }

  /** The count of the cycle under way. */
  function ThisCycle(c: Csrs): (cycle: Word) { Wrap(1 + (c.cyclel as int)) }

  /** What an instruction does, whatever its kind. */
  ghost predicate Executed(m: Machine, ir: Word, mem': seq<Byte>, csr': Csrs, o: Outcome)
    requires Sound(m)
  {
    var pc := m.csr.pc;
    match Opcode(ir)
    case 0x03 => o == Loaded(m.regs, m.offset, m.mem, m.csr, ir, pc) && mem' == m.mem && csr' == m.csr
    case 0x23 => StoreDone(m.regs, m.offset, m.mem, m.csr, ir, pc, mem', csr', o)
    case 0x73 => SystemDone(m.regs, m.csr, ir, pc, ThisCycle(m.csr), csr', o) && mem' == m.mem
    case 0x2f => AtomicDone(m.regs, m.offset, m.mem, m.csr, ir, pc, mem', csr', o)
    case _ => o == Computed(m.regs, ir, pc) && mem' == m.mem && csr' == m.csr
  }

  ghost predicate SameTimer(c: Csrs, d: Csrs) { c.timerl == d.timerl && c.timerh == d.timerh }

  /** The cycle counter has gone on by n. */
  ghost predicate Counted(c: Csrs, d: Csrs, n: nat)
  {
    Wide(d.cycleh, d.cyclel) == (Wide(c.cycleh, c.cyclel) + n) % TWO_64
  }

  lemma {:induction false} CountedNone(c: Csrs)
    ensures Counted(c, c, 0)
  {
  }

  /** The trap handler is entered in machine mode, with the cause and the place of the trap saved. */
  ghost predicate TrapEntered(c: Csrs, trap: Word, rval: Word, pc: Word, d: Csrs)
  {
    && trap > 0 && d.pc == c.mtvec && d.mepc == pc
    && d.mcause == (if trap >= TWO_31 then trap else trap - 1)
    && d.mtval == (if trap >= TWO_31 then 0 else if 5 < trap <= 8 then rval else pc)
    && d.mstatus == EnteredStatus(c.mstatus, c.extraflags) && d.extraflags == WithMode(c.extraflags, 3)
    && d == c.(pc := d.pc, mepc := d.mepc, mcause := d.mcause, mtval := d.mtval, mstatus := d.mstatus, extraflags := d.extraflags)
  }

  /** The control registers d, with the cycle counter of c. */
  ghost function Uncount(d: Csrs, c: Csrs): (e: Csrs) { d.(cyclel := c.cyclel, cycleh := c.cycleh) }

  ghost predicate TrapKept(c: Csrs, trap: Word, d: Csrs)
  {
    && d.pc == c.mtvec && d.mepc == c.pc && d.extraflags % 4 == 3
    && d.mcause == if trap >= TWO_31 then trap else trap - 1
  }

  lemma {:induction false} Entered(c: Csrs, trap: Word, rval: Word, pc: Word, d: Csrs)
    requires TrapEntered(c, trap, rval, pc, d) && pc == c.pc
    ensures Uncount(d, c) == d && SameTimer(d, c) && TrapKept(c, trap, d) && Counted(c, d, 0)
  {
    CountedNone(c);
  }

  lemma {:induction false} EnteredAndCounted(c: Csrs, trap: Word, rval: Word, pc: Word, d: Csrs, e: Csrs)
    requires TrapEntered(c, trap, rval, pc, d) && pc == c.pc && e == d.(cyclel := e.cyclel, cycleh := e.cycleh)
    requires Wide(e.cycleh, e.cyclel) == (Wide(d.cycleh, d.cyclel) + 1) % TWO_64
    ensures TrapEntered(c, trap, rval, pc, Uncount(e, c)) && SameTimer(e, c) && TrapKept(c, trap, e) && Counted(c, e, 1)
  {
    assert Uncount(e, c) == d;
  }

  /** How a step ends after an instruction: a trap allows no register to be written, and nothing is ever
      written to x0. */
  ghost predicate Finished(m: Machine, o: Outcome, mid: Csrs, regs': seq<Word>, csr': Csrs, how: Ending)
    requires Sound(m)
  {
    var counted := Uncount(csr', mid);
    match o
    case Return(_) => how == Left && regs' == m.regs && csr' == mid
    case Trap(trap, rval) => how == Trapped(trap) && regs' == m.regs && TrapEntered(mid, trap, rval, m.csr.pc, counted)
    case Continue(rd, rval, pc') =>
      && how == Ran(rd, rval) && rd < 32 && regs' == (if rd == 0 then m.regs else m.regs[rd := rval])
      && counted == mid.(pc := Wrap(4 + (pc' as int)))
  }

  /** Only what a program may write has changed. */
  ghost predicate Writable(c: Csrs, d: Csrs)
  {
    d == c.(mstatus := d.mstatus, mscratch := d.mscratch, mtvec := d.mtvec, mie := d.mie, mip := d.mip,
            mepc := d.mepc, mtval := d.mtval, mcause := d.mcause)
  }

  /** What WFI does: the interrupts are on and the processor asleep, and no other bit has changed. */
  ghost predicate Sleeps(c: Csrs, pc: Word, d: Csrs)
  {
    && InterruptsOn(d.mstatus) && d.mstatus % 8 == c.mstatus % 8 && d.mstatus / 16 == c.mstatus / 16
    && Waiting(d.extraflags) && d.extraflags % 4 == c.extraflags % 4 && Reservation(d.extraflags) == Reservation(c.extraflags)
    && d == c.(pc := Wrap(pc + 4), mstatus := d.mstatus, extraflags := d.extraflags)
  }

  /** What MRET does: the interrupts and the mode are those saved, and the rest of EXTRAFLAGS stays. */
  ghost predicate Returns(c: Csrs, d: Csrs)
  {
    && (InterruptsOn(d.mstatus) <==> c.mstatus / 0x80 % 2 == 1)
    && d.extraflags % 4 == c.mstatus / 0x800 % 4 && d.extraflags / 4 == c.extraflags / 4
    && d == c.(mstatus := d.mstatus, extraflags := d.extraflags)
  }

  lemma {:induction false} WriteKeeps(c: Csrs, no: nat, v: Word)
    ensures Writable(c, WriteCsr(c, no, v))
  {
  }

  lemma {:induction false} StatusReturns(m: Word, e: Word)
    ensures InterruptsOn(ReturnedStatus(m, e)) <==> m / 0x80 % 2 == 1
  {
    var x, y, w := m / 0x80 % 2, e % 4, ReturnedStatus(m, e);
    assert w / 8 == x + 2 * (8 + 128 * y);
  }

  /** A CSR instruction, which reads the register that it names, can change only what a program may write:
      not the pc, the mode, the counters or the reservation. The others are WFI, MRET and traps. */
  lemma {:induction false} SystemKeeps(regs: seq<Word>, csr: Csrs, ir: Word, pc: Word, cycle: Word, csr': Csrs, o: Outcome)
    requires |regs| == 32 && SystemDone(regs, csr, ir, pc, cycle, csr', o)
    ensures Reservation(csr'.extraflags) == Reservation(csr.extraflags)
    ensures Funct3(ir) % 4 != 0 ==> o == Continue(Rd(ir), ReadCsr(csr, Imm12(ir), cycle), pc) && Writable(csr, csr')
    ensures o.Return? ==> Sleeps(csr, pc, csr')
    ensures o.Continue? && Funct3(ir) % 4 == 0 ==> Returns(csr, csr')
    ensures o.Trap? ==> csr' == csr
  {
    if Funct3(ir) % 4 != 0 {
      WriteKeeps(csr, Imm12(ir), CsrValue(Funct3(ir), ReadCsr(csr, Imm12(ir), cycle), regs[Rs1(ir)], Rs1(ir)));
    } else if o.Continue? {
      StatusReturns(csr.mstatus, csr.extraflags);
    }
  }

  lemma {:induction false} AtomicFacts(regs: seq<Word>, offset: Word, mem: seq<Byte>, csr: Csrs, ir: Word, pc: Word,
                                       mem': seq<Byte>, csr': Csrs, o: Outcome)
    requires |regs| == 32 && 4 <= |mem| <= 0x2000_0000 && AtomicDone(regs, offset, mem, csr, ir, pc, mem', csr', o)
    ensures o.Trap? ==> (o.trap == 3 || o.trap == 8) && mem' == mem && csr' == csr
    ensures !o.Return? && (o.Continue? ==> o.rd < 32) && |mem'| == |mem|
    ensures csr' == csr.(extraflags := csr'.extraflags)
    ensures Reservation(csr'.extraflags) ==
            if ir / 0x800_0000 == 2 && AtomicPlace(regs, offset, ir) < |mem| - 3 then AtomicPlace(regs, offset, ir)
            else Reservation(csr.extraflags)
  {
  }

  lemma {:induction false} StoreFacts(regs: seq<Word>, offset: Word, mem: seq<Byte>, csr: Csrs, ir: Word, pc: Word,
                                      mem': seq<Byte>, csr': Csrs, o: Outcome)
    requires |regs| == 32 && 4 <= |mem| && StoreDone(regs, offset, mem, csr, ir, pc, mem', csr', o)
    ensures o.Trap? ==> (o.trap == 3 || o.trap == 8) && mem' == mem && csr' == csr
    ensures (o.Continue? ==> o.rd == 0) && |mem'| == |mem|
    ensures csr' == csr.(timermatchh := csr'.timermatchh, timermatchl := csr'.timermatchl, pc := csr'.pc)
  {
  }

  /** Whatever its kind, an instruction that traps has no effect, and none touches the counters; only an
      LR.W in range changes the reservation. */
  lemma {:induction false} ExecutedFacts(m: Machine, ir: Word, mem': seq<Byte>, csr': Csrs, o: Outcome)
    requires Sound(m) && Executed(m, ir, mem', csr', o)
    ensures o.Trap? ==> 0 < o.trap < TWO_31 && mem' == m.mem && csr' == m.csr
    ensures o.Continue? ==> o.rd < 32
    ensures SameTimer(csr', m.csr) && csr'.cyclel == m.csr.cyclel && csr'.cycleh == m.csr.cycleh && |mem'| == |m.mem|
    ensures Reservation(csr'.extraflags) ==
            if Opcode(ir) == 0x2f && ir / 0x800_0000 == 2 && AtomicPlace(m.regs, m.offset, ir) < |m.mem| - 3
            then AtomicPlace(m.regs, m.offset, ir) else Reservation(m.csr.extraflags)
  {
    match Opcode(ir)
    case 0x23 => StoreFacts(m.regs, m.offset, m.mem, m.csr, ir, m.csr.pc, mem', csr', o);
    case 0x73 => SystemKeeps(m.regs, m.csr, ir, m.csr.pc, ThisCycle(m.csr), csr', o);
    case 0x2f => AtomicFacts(m.regs, m.offset, m.mem, m.csr, ir, m.csr.pc, mem', csr', o);
    case _ =>
  }

  // ----- the step and the run -----

  /** The timer has gone on, 64 bits wide; its interrupt is pending exactly if it is past its target, which
      wakes the processor. */
  ghost predicate Timed(c: Csrs, elapsed: Word, d: Csrs)
  {
    && Wide(d.timerh, d.timerl) == (Wide(c.timerh, c.timerl) + elapsed) % TWO_64
    && (TimerBit(d.mip) <==> var target := Wide(d.timermatchh, d.timermatchl); 0 < target < Wide(d.timerh, d.timerl))
    && (Waiting(d.extraflags) <==> Waiting(c.extraflags) && !TimerBit(d.mip))
    && d.extraflags % 4 == c.extraflags % 4 && Reservation(d.extraflags) == Reservation(c.extraflags)
    && d.mip % 0x80 == c.mip % 0x80 && d.mip / 0x100 == c.mip / 0x100
    && d == c.(timerh := d.timerh, timerl := d.timerl, mip := d.mip, extraflags := d.extraflags)
  }

  /** The place of the next instruction in RAM. */
  function Place(m: Machine): (place: Word) { Wrap(m.csr.pc - m.offset) }

  /** The timer interrupt is taken. */
  predicate Interrupted(c: Csrs) { TimerBit(c.mip) && TimerBit(c.mie) && InterruptsOn(c.mstatus) }

  /** The instruction that is executed next, if one is. */
  function Instruction(m: Machine): (ir: Option<Word>)
    requires |m.mem| % 4 == 0
  {
    if Waiting(m.csr.extraflags) || Interrupted(m.csr) || Place(m) >= |m.mem| || Place(m) % 4 != 0 then None
    else Some(Read32(m.mem, Place(m)))
  }

  /** What a step went through: the control registers after the timer and after the instruction, the
      instruction's outcome, and the ending. */
  datatype Record = Record(elapsed: Word, ticked: Csrs, o: Outcome, mid: Csrs, how: Ending)

  /** The trap of a step that executes no instruction. */
  ghost function TrapOf(m: Machine): (trap: Word)
  {
    if Interrupted(m.csr) then INTERRUPT else if Place(m) >= |m.mem| then 2 else 1
  }

  ghost predicate Unfetched(m: Machine, how: Ending, m': Machine)
  {
    && how == Trapped(TrapOf(m)) && m'.regs == m.regs && m'.mem == m.mem
    && TrapEntered(m.csr, TrapOf(m), 0, m.csr.pc, Uncount(m'.csr, m.csr))
  }

  /** A step after the timer: it sleeps, takes the interrupt, cannot fetch, or executes one instruction. */
  ghost predicate Cycled(m: Machine, o: Outcome, mid: Csrs, how: Ending, m': Machine)
    requires Sound(m)
  {
    var ir := Instruction(m);
    && m'.offset == m.offset
    && if ir.Some? then Executed(m, ir.value, m'.mem, mid, o) && Finished(m, o, mid, m'.regs, m'.csr, how)
       else if Waiting(m.csr.extraflags) then how == Slept && m' == m
       else Unfetched(m, how, m')
  }

  lemma {:induction false} CycledBy(m: Machine, ir: Word, o: Outcome, mid: Csrs, how: Ending, m': Machine)
    requires Sound(m) && Instruction(m) == Some(ir) && m'.offset == m.offset
    requires Executed(m, ir, m'.mem, mid, o) && Finished(m, o, mid, m'.regs, m'.csr, how)
    ensures Cycled(m, o, mid, how, m')
  {
  }

  ghost function Ticked(m: Machine, r: Record): (t: Machine) { m.(csr := r.ticked) }

  ghost predicate Stepped(m: Machine, r: Record, m': Machine)
  {
    Sound(m) && Timed(m.csr, r.elapsed, r.ticked) && Cycled(Ticked(m, r), r.o, r.mid, r.how, m')
  }

  /** The place of the LR.W (op 2) or SC.W (op 3) that a step executes, if it executes one in range. */
  ghost function AtomicAt(m: Machine, r: Record, op: nat): (place: Option<nat>)
    requires Sound(m)
  {
    var ir := Instruction(Ticked(m, r));
    if ir.Some? && Opcode(ir.value) == 0x2f && ir.value / 0x800_0000 == op && AtomicPlace(m.regs, m.offset, ir.value) < |m.mem| - 3
    then Some(AtomicPlace(m.regs, m.offset, ir.value)) else None
  }

  lemma {:induction false} FinishedKeeps(m: Machine, o: Outcome, mid: Csrs, regs': seq<Word>, csr': Csrs, how: Ending)
    requires Sound(m) && Finished(m, o, mid, regs', csr', how)
    ensures |regs'| == 32 && regs'[0] == 0 && Reservation(csr'.extraflags) == Reservation(mid.extraflags)
  {
  }

  /** Only an LR.W in range changes the reservation; x0 stays 0. */
  lemma {:induction false} StepReserves(m: Machine, r: Record, m': Machine)
    requires Stepped(m, r, m')
    ensures Sound(m')
    ensures Reservation(m'.csr.extraflags) ==
            var place := AtomicAt(m, r, 2); if place.Some? then place.value else Reservation(m.csr.extraflags)
  {
    var t := Ticked(m, r);
    var ir := Instruction(t);
    if ir.Some? {
      ExecutedFacts(t, ir.value, m'.mem, r.mid, r.o);
      FinishedKeeps(t, r.o, r.mid, m'.regs, m'.csr, r.how);
    }
  }

  /** What an SC.W in range leaves behind: 0 in its register and its word in RAM, or 1 and nothing. */
  ghost predicate Conditional(m: Machine, ir: Word, place: nat, success: bool, m': Machine)
    requires Sound(m) && place < |m.mem| - 3
  {
    && m'.regs == (if Rd(ir) == 0 then m.regs else m.regs[Rd(ir) := if success then 0 else 1])
    && m'.mem == if success then Write32(m.mem, place, m.regs[Rs2(ir)]) else m.mem
  }

  lemma {:induction false} StepConditional(m: Machine, r: Record, m': Machine, place: nat)
    requires Stepped(m, r, m') && AtomicAt(m, r, 3) == Some(place)
    ensures Conditional(m, Instruction(Ticked(m, r)).value, place, place == Reservation(m.csr.extraflags), m')
  {
  }

  /** A step that traps or sleeps changes no register and no byte. */
  lemma {:induction false} StepTraps(m: Machine, r: Record, m': Machine)
    requires Stepped(m, r, m') && (r.how.Trapped? || r.how == Slept)
    ensures m'.regs == m.regs && m'.mem == m.mem
  {
    var t := Ticked(m, r);
    var ir := Instruction(t);
    if ir.Some? {
      ExecutedFacts(t, ir.value, m'.mem, r.mid, r.o);
    }
  }

  /** A processor before its first step: nothing is reserved. RAM holds any program. */
  ghost predicate Started(m: Machine) { Sound(m) && Reservation(m.csr.extraflags) == 0 }

  ghost predicate IsRun(ms: seq<Machine>, rs: seq<Record>)
  {
    |ms| == |rs| + 1 && Started(ms[0]) && forall k :: 0 <= k < |rs| ==> Stepped(ms[k], rs[k], ms[k + 1])
  }

  /** The place of the last LR.W in the first k steps, or 0 if there was none. */
  ghost function LastReserved(ms: seq<Machine>, rs: seq<Record>, k: nat): (place: nat)
    requires IsRun(ms, rs) && k <= |rs|
  {
    if k == 0 then 0
    else
      assert Stepped(ms[k - 1], rs[k - 1], ms[k]);
      var place := AtomicAt(ms[k - 1], rs[k - 1], 2);
      if place.Some? then place.value else LastReserved(ms, rs, k - 1)
  }

  lemma {:induction false} RunReserves(ms: seq<Machine>, rs: seq<Record>, k: nat)
    requires IsRun(ms, rs) && k <= |rs|
    ensures Sound(ms[k]) && Reservation(ms[k].csr.extraflags) == LastReserved(ms, rs, k)
  {
    if k > 0 {
      RunReserves(ms, rs, k - 1);
      assert Stepped(ms[k - 1], rs[k - 1], ms[k]);
      StepReserves(ms[k - 1], rs[k - 1], ms[k]);
    }
  }

  /** In every run, an SC.W in range succeeds, and stores, exactly if its place is that of the last LR.W,
      or 0 if there was none: no store and no SC.W in between matters. */
  lemma {:induction false} RunConditional(ms: seq<Machine>, rs: seq<Record>, k: nat, place: nat)
    requires IsRun(ms, rs) && k < |rs| && Sound(ms[k]) && AtomicAt(ms[k], rs[k], 3) == Some(place)
    ensures Conditional(ms[k], Instruction(Ticked(ms[k], rs[k])).value, place, place == LastReserved(ms, rs, k), ms[k + 1])
  {
    assert Stepped(ms[k], rs[k], ms[k + 1]);
    RunReserves(ms, rs, k);
    StepConditional(ms[k], rs[k], ms[k + 1], place);
  }

  /** Two SC.W in a row to one place: the second succeeds if the first does, although the first has used
      the reservation up. */
  lemma {:induction false} SecondConditional(ms: seq<Machine>, rs: seq<Record>, k: nat, place: nat)
    requires IsRun(ms, rs) && k + 1 < |rs| && Sound(ms[k]) && Sound(ms[k + 1])
    requires AtomicAt(ms[k], rs[k], 3) == Some(place) && AtomicAt(ms[k + 1], rs[k + 1], 3) == Some(place)
    ensures var success := place == LastReserved(ms, rs, k);
            && Conditional(ms[k], Instruction(Ticked(ms[k], rs[k])).value, place, success, ms[k + 1])
            && Conditional(ms[k + 1], Instruction(Ticked(ms[k + 1], rs[k + 1])).value, place, success, ms[k + 2])
  {
    RunConditional(ms, rs, k, place);
    RunConditional(ms, rs, k + 1, place);
  }

  /** Without any LR.W, an SC.W to the first word of RAM succeeds, and to any other place it fails. */
  lemma {:induction false} UnreservedConditional(ms: seq<Machine>, rs: seq<Record>, k: nat, place: nat)
    requires IsRun(ms, rs) && k < |rs| && Sound(ms[k]) && AtomicAt(ms[k], rs[k], 3) == Some(place)
    requires forall j :: 0 <= j < k ==> Sound(ms[j]) && AtomicAt(ms[j], rs[j], 2).None?
    ensures Conditional(ms[k], Instruction(Ticked(ms[k], rs[k])).value, place, place == 0, ms[k + 1])
  {
    NeverReserved(ms, rs, k);
    RunConditional(ms, rs, k, place);
  }

  lemma {:induction false} NeverReserved(ms: seq<Machine>, rs: seq<Record>, k: nat)
    requires IsRun(ms, rs) && k <= |rs|
    requires forall j :: 0 <= j < k ==> Sound(ms[j]) && AtomicAt(ms[j], rs[j], 2).None?
    ensures LastReserved(ms, rs, k) == 0
  {
    if k > 0 {
      NeverReserved(ms, rs, k - 1);
    }
  }

  /** SC.W x1, x0, (x0) */
  const STORE_CONDITIONAL: Word := 0x180020af

  lemma {:induction false} StoreConditionalFields(ir: Word)
    requires ir == STORE_CONDITIONAL
    ensures Opcode(ir) == 0x2f && ir / 0x800_0000 == 3 && Rd(ir) == 1 && Rs1(ir) == 0 && Rs2(ir) == 0
  {
  }

  /** A processor that has counted cycles and done nothing else: nothing is reserved, RAM is at address 0. */
  ghost predicate Idle(m: Machine)
  {
    && Sound(m) && m.offset == 0 && (forall i :: 0 <= i < 32 ==> m.regs[i] == 0)
    && m.csr == ZEROED.(pc := m.csr.pc, cyclel := m.csr.cyclel, cycleh := m.csr.cycleh)
  }

  lemma {:induction false} NextCount(c: Csrs) returns (d: Csrs)
    ensures d == c.(cyclel := d.cyclel, cycleh := d.cycleh) && Counted(c, d, 1)
  {
    var low := ThisCycle(c);
    Carry(c.cycleh, c.cyclel, 1);
    d := c.(cyclel := low, cycleh := if low < c.cyclel then Wrap(1 + (c.cycleh as int)) else c.cycleh);
  }

  lemma {:induction false} IdleTimed(m: Machine, r: Record)
    requires Idle(m) && r.elapsed == 0 && r.ticked == m.csr
    ensures Timed(m.csr, r.elapsed, r.ticked) && Ticked(m, r) == m && !Waiting(m.csr.extraflags) && !Interrupted(m.csr)
  {
  }

  lemma {:induction false} IdleFetches(m: Machine, r: Record)
    requires Idle(m) && r.elapsed == 0 && r.ticked == m.csr && m.csr.pc % 4 == 0 && m.csr.pc < |m.mem|
    ensures Instruction(m) == Some(Read32(m.mem, m.csr.pc)) && Ticked(m, r) == m
  {
    IdleTimed(m, r);
  }

  lemma {:induction false} IdleExecutes(m: Machine, ir: Word, o: Outcome)
    requires Idle(m) && ir == STORE_CONDITIONAL && o == Continue(1, 0, m.csr.pc)
    ensures Executed(m, ir, Write32(m.mem, 0, 0), m.csr, o) && AtomicPlace(m.regs, m.offset, ir) == 0
  {
    StoreConditionalFields(ir);
  }

  lemma {:induction false} IdleFinishes(m: Machine, o: Outcome, how: Ending, counted: Csrs, m': Machine)
    requires Idle(m) && m.csr.pc < |m.mem| && o == Continue(1, 0, m.csr.pc) && how == Ran(1, 0)
    requires counted == m.csr.(cyclel := counted.cyclel, cycleh := counted.cycleh) && Counted(m.csr, counted, 1)
    requires m' == Machine(m.regs[1 := 0], Write32(m.mem, 0, 0), 0, counted.(pc := m.csr.pc + 4))
    ensures Finished(m, o, m.csr, m'.regs, m'.csr, how) && Idle(m') && Counted(m.csr, m'.csr, 1)
  {
  }

  /** It executes an SC.W to the first word of RAM: the step reports success and overwrites the word. */
  lemma {:induction false} IdleConditional(m: Machine) returns (r: Record, m': Machine)
    requires Idle(m) && m.csr.pc % 4 == 0 && m.csr.pc < |m.mem| && Read32(m.mem, m.csr.pc) == STORE_CONDITIONAL
    ensures Stepped(m, r, m') && AtomicAt(m, r, 3) == Some(0) && r.how == Ran(1, 0)
    ensures Idle(m') && m'.mem == Write32(m.mem, 0, 0) && m'.csr.pc == m.csr.pc + 4 && Counted(m.csr, m'.csr, 1)
  {
    var ir, pc := Read32(m.mem, m.csr.pc), m.csr.pc;
    var o, how := Continue(1, 0, pc), Ran(1, 0);
    r := Record(0, m.csr, o, m.csr, how);
    var counted := NextCount(m.csr);
    m' := Machine(m.regs[1 := 0], Write32(m.mem, 0, 0), 0, counted.(pc := pc + 4));
    StoreConditionalFields(ir);
    IdleTimed(m, r);
    IdleExecutes(m, ir, o);
    IdleFinishes(m, o, how, counted, m');
    IdleFetches(m, r);
    CycledBy(m, ir, o, m.csr, how, m');
  }

  /** A zeroed processor whose RAM starts with an SC.W: before any LR.W it reports success. */
  lemma {:induction false} UnreservedExample(m: Machine) returns (r: Record, m': Machine)
    requires Sound(m) && m.csr == ZEROED && m.offset == 0 && Read32(m.mem, 0) == STORE_CONDITIONAL
    requires forall i :: 0 <= i < 32 ==> m.regs[i] == 0
    ensures IsRun([m, m'], [r]) && AtomicAt(m, r, 3) == Some(0) && r.how == Ran(1, 0) && m'.mem == Write32(m.mem, 0, 0)
  {
    r, m' := IdleConditional(m);
  }

  /** A word behind the one that is stored stays. */
  lemma {:induction false} NextWordKept(mem: seq<Byte>, w: Word)
    requires 8 <= |mem|
    ensures Read32(Write32(mem, 0, w), 4) == Read32(mem, 4)
  {
    var mem' := Write32(mem, 0, w);
    forall i: nat | 4 <= i < |mem| ensures mem'[i] == mem[i] {
      StoreKeeps(mem, 0, 4, w, i);
    }
    SameBytes(mem, mem', 4, 4);
  }

  lemma {:induction false} SameBytes(mem: seq<Byte>, mem': seq<Byte>, a: nat, n: nat)
    requires a + n <= |mem| == |mem'| && forall i :: a <= i < a + n ==> mem'[i] == mem[i]
    ensures LoadBytes(mem', a, n) == LoadBytes(mem, a, n)
    decreases n
  {
    if n > 0 {
      SameBytes(mem, mem', a + 1, n - 1);
    }
  }

  lemma {:induction false} TwoSteps(m: Machine, r: Record, m1: Machine, r': Record, m2: Machine)
    requires Started(m) && Stepped(m, r, m1) && Stepped(m1, r', m2)
    ensures IsRun([m, m1, m2], [r, r'])
  {
    var ms, rs := [m, m1, m2], [r, r'];
    forall k | 0 <= k < |rs| ensures Stepped(ms[k], rs[k], ms[k + 1]) {
      if k == 1 { assert ms[k + 1] == m2; }
    }
  }

  lemma {:induction false} NextConditional(m: Machine, m1: Machine)
    requires |m.mem| >= 8 && Read32(m.mem, 4) == STORE_CONDITIONAL && m.csr.pc == 0
    requires Idle(m1) && m1.mem == Write32(m.mem, 0, 0) && m1.csr.pc == m.csr.pc + 4
    ensures m1.csr.pc % 4 == 0 && m1.csr.pc < |m1.mem| && Read32(m1.mem, m1.csr.pc) == STORE_CONDITIONAL
  {
    NextWordKept(m.mem, 0);
  }

  /** Two such instructions in a row: the second succeeds as well, although the first has stored to the
      place. */
  lemma {:induction false} TwiceExample(m: Machine) returns (r: Record, m1: Machine, r': Record, m2: Machine)
    requires Sound(m) && m.csr == ZEROED && m.offset == 0 && |m.mem| >= 8
    requires Read32(m.mem, 0) == STORE_CONDITIONAL && Read32(m.mem, 4) == STORE_CONDITIONAL
    requires forall i :: 0 <= i < 32 ==> m.regs[i] == 0
    ensures IsRun([m, m1, m2], [r, r']) && Sound(m1) && AtomicAt(m, r, 3) == Some(0) && AtomicAt(m1, r', 3) == Some(0)
    ensures r.how == Ran(1, 0) && r'.how == Ran(1, 0) && m1.mem == Write32(m.mem, 0, 0) && m2.mem == Write32(m1.mem, 0, 0)
  {
    r, m1 := IdleConditional(m);
    NextConditional(m, m1);
    r', m2 := IdleConditional(m1);
    TwoSteps(m, r, m1, r', m2);
  }
}
