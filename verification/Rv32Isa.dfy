/**
 The instructions of RV32IMA with Zicsr: their formats (section 2.2 and chapter 34 of the RISC-V
 Unprivileged ISA) and what a step of the machine does at each of them.
 */
module Rv32Isa {
  import opened BitStream
  import opened Rv32Words
  import opened Rv32Alu
  import opened Rv32Machine
  import opened Wrappers
  import Words

  // ----- instructions -----

  datatype Cond = Eq | Ne | Lt | Ge | Ltu | Geu

  datatype LoadWidth = Lb | Lh | Lw | Lbu | Lhu

  datatype StoreWidth = Sb | Sh | Sw

  datatype AmoOp = AmoAdd | AmoSwap | AmoXor | AmoOr | AmoAnd | AmoMin | AmoMax | AmoMinu | AmoMaxu

  datatype CsrOp = Rw | Rs | Rc

  datatype Source = Register(no: nat) | Immediate(value: nat)

  datatype Control = Mscratch | Mtvec | Mie | Mip | Mepc | Mstatus | Mcause | Mtval | Cycle | Mvendorid | Misa

  datatype Instr =
    | Lui(rd: nat, upper: nat)
    | Auipc(rd: nat, upper: nat)
    | Jal(rd: nat, offset: int)
    | Jalr(rd: nat, rs1: nat, offset: int)
    | Branch(cond: Cond, rs1: nat, rs2: nat, offset: int)
    | Load(load: LoadWidth, rd: nat, rs1: nat, offset: int)
    | Store(store: StoreWidth, rs1: nat, rs2: nat, offset: int)
    | OpImm(alu: Alu, rd: nat, rs1: nat, imm: int)
    | Op(alu: Alu, rd: nat, rs1: nat, rs2: nat)
    | Csr(csrOp: CsrOp, rd: nat, source: Source, control: Control)
    | Amo(amo: AmoOp, rd: nat, rs1: nat, rs2: nat)

  predicate Shift(alu: Alu) { alu.Sll? || alu.Srl? || alu.Sra? }

  /** Registers, offsets and immediates that have a place in the formats. */
  ghost predicate Legal(i: Instr)
  {
    match i
    case Lui(rd, upper) => rd < 32 && upper < 0x10_0000
    case Auipc(rd, upper) => rd < 32 && upper < 0x10_0000
    case Jal(rd, offset) => rd < 32 && -0x10_0000 <= offset < 0x10_0000 && offset % 2 == 0
    case Jalr(rd, rs1, offset) => rd < 32 && rs1 < 32 && -0x800 <= offset < 0x800
    case Branch(_, rs1, rs2, offset) => rs1 < 32 && rs2 < 32 && -0x1000 <= offset < 0x1000 && offset % 2 == 0
    case Load(_, rd, rs1, offset) => rd < 32 && rs1 < 32 && -0x800 <= offset < 0x800
    case Store(_, rs1, rs2, offset) => rs1 < 32 && rs2 < 32 && -0x800 <= offset < 0x800
    case OpImm(alu, rd, rs1, imm) =>
      rd < 32 && rs1 < 32 && Basic(alu) && !alu.Sub? && (if Shift(alu) then 0 <= imm < 32 else -0x800 <= imm < 0x800)
    case Op(_, rd, rs1, rs2) => rd < 32 && rs1 < 32 && rs2 < 32
    case Csr(_, rd, source, _) => rd < 32 && (if source.Register? then source.no < 32 else source.value < 32)
    case Amo(_, rd, rs1, rs2) => rd < 32 && rs1 < 32 && rs2 < 32
  }

  /** The format of all instructions but LUI, AUIPC and JAL: seven bits, five, five, three, five and seven. */
  ghost function Format(f7: nat, rs2: nat, rs1: nat, f3: nat, rd: nat, op: nat): (ir: Word)
    requires f7 < 0x80 && rs2 < 32 && rs1 < 32 && f3 < 8 && rd < 32 && op < 0x80
  {
    f7 * 0x200_0000 + rs2 * 0x10_0000 + rs1 * 0x8000 + f3 * 0x1000 + rd * 0x80 + op
  }

  /** The immediate of twelve bits. */
  ghost function Twelve(imm: int): (u: nat)
    requires -0x800 <= imm < 0x800
    ensures u < 0x1000
  {
    if imm < 0 then imm + 0x1000 else imm
  }

  /** The same with an immediate in the upper twelve bits. */
  ghost function FormatI(imm: nat, rs1: nat, f3: nat, rd: nat, op: nat): (ir: Word)
    requires imm < 0x1000 && rs1 < 32 && f3 < 8 && rd < 32 && op < 0x80
  {
    imm * 0x10_0000 + rs1 * 0x8000 + f3 * 0x1000 + rd * 0x80 + op
  }

  function CondCode(c: Cond): (f3: nat)
    ensures f3 < 8
  {
    match c case Eq => 0 case Ne => 1 case Lt => 4 case Ge => 5 case Ltu => 6 case Geu => 7
  }

  function LoadCode(w: LoadWidth): (f3: nat)
    ensures f3 < 8
  {
    match w case Lb => 0 case Lh => 1 case Lw => 2 case Lbu => 4 case Lhu => 5
  }

  function StoreCode(w: StoreWidth): (f3: nat)
    ensures f3 < 8
  {
    match w case Sb => 0 case Sh => 1 case Sw => 2
  }

  function AmoCode(op: AmoOp): (f5: nat)
    ensures f5 < 32
  {
    match op
    case AmoAdd => 0 case AmoSwap => 1 case AmoXor => 4 case AmoOr => 8 case AmoAnd => 12
    case AmoMin => 16 case AmoMax => 20 case AmoMinu => 24 case AmoMaxu => 28
  }

  function CsrCode(op: CsrOp, source: Source): (f3: nat)
    ensures f3 < 8
  {
    (match op case Rw => 1 case Rs => 2 case Rc => 3) + if source.Register? then 0 else 4
  }

  function Number(r: Control): (no: nat)
    ensures no < 0x1000
  {
    match r
    case Mstatus => 0x300 case Misa => 0x301 case Mie => 0x304 case Mtvec => 0x305
    case Mscratch => 0x340 case Mepc => 0x341 case Mcause => 0x342 case Mtval => 0x343 case Mip => 0x344
    case Cycle => 0xC00 case Mvendorid => 0xF11
  }

  /** The bits of an offset of a jump or branch, in two's complement. */
  ghost function Jump(offset: int): (u: nat)
    requires -0x10_0000 <= offset < 0x10_0000
    ensures u < 0x20_0000
  {
    if offset < 0 then offset + 0x20_0000 else offset
  }

  ghost function EncodeJal(u: nat, rd: nat): (ir: Word)
    requires u < 0x20_0000 && rd < 32
  {
    u / 0x10_0000 * 0x8000_0000 + u / 2 % 0x400 * 0x20_0000 + u / 0x800 % 2 * 0x10_0000 + u / 0x1000 % 0x100 * 0x1000
    + rd * 0x80 + 0x6F
  }

  ghost function EncodeBranch(u: nat, rs2: nat, rs1: nat, f3: nat): (ir: Word)
    requires u < 0x2000 && rs1 < 32 && rs2 < 32 && f3 < 8
  {
    Format(u / 0x1000 * 64 + u / 32 % 64, rs2, rs1, f3, u / 2 % 16 * 2 + u / 0x800 % 2, 0x63)
  }

  ghost function Encode(i: Instr): (ir: Word)
    requires Legal(i)
  {
    match i
    case Lui(rd, upper) => upper * 0x1000 + rd * 0x80 + 0x37
    case Auipc(rd, upper) => upper * 0x1000 + rd * 0x80 + 0x17
    case Jal(rd, offset) => EncodeJal(Jump(offset), rd)
    case Jalr(rd, rs1, offset) => FormatI(Twelve(offset), rs1, 0, rd, 0x67)
    case Branch(c, rs1, rs2, offset) => EncodeBranch(if offset < 0 then offset + 0x2000 else offset, rs2, rs1, CondCode(c))
    case Load(w, rd, rs1, offset) => FormatI(Twelve(offset), rs1, LoadCode(w), rd, 0x03)
    case Store(w, rs1, rs2, offset) => Format(Twelve(offset) / 32, rs2, rs1, StoreCode(w), Twelve(offset) % 32, 0x23)
    case OpImm(alu, rd, rs1, imm) =>
      if Shift(alu) then Format(Code(alu).1, imm, rs1, Code(alu).0, rd, 0x13)
      else FormatI(Twelve(imm), rs1, Code(alu).0, rd, 0x13)
    case Op(alu, rd, rs1, rs2) => Format(Code(alu).1, rs2, rs1, Code(alu).0, rd, 0x33)
    case Csr(op, rd, source, control) =>
      FormatI(Number(control), if source.Register? then source.no else source.value, CsrCode(op, source), rd, 0x73)
    case Amo(op, rd, rs1, rs2) => Format(AmoCode(op) * 4, rs2, rs1, 2, rd, 0x2f)
  }

  // ----- what they do -----

  ghost predicate Holds(c: Cond, a: Word, b: Word)
  {
    match c
    case Eq => a == b
    case Ne => a != b
    case Lt => Signed(a) < Signed(b)
    case Ge => Signed(a) >= Signed(b)
    case Ltu => a < b
    case Geu => a >= b
  }

  /** A word, the lowest byte first. */
  ghost function Little(mem: seq<Byte>, a: nat): (w: int)
    requires a + 4 <= |mem|
  {
    mem[a] + 0x100 * (mem[a + 1] as int) + 0x1_0000 * (mem[a + 2] as int) + 0x100_0000 * (mem[a + 3] as int)
  }

  ghost predicate LoadMeans(w: LoadWidth, mem: seq<Byte>, a: nat, v: Word)
    requires a + 4 <= |mem|
  {
    var low: int, half: int := mem[a], (mem[a] as int) + 0x100 * (mem[a + 1] as int);
    match w
    case Lb => Signed(v) == if low >= 0x80 then low - 0x100 else low
    case Lh => Signed(v) == if half >= 0x8000 then half - 0x1_0000 else half
    case Lw => v == Little(mem, a)
    case Lbu => v == low
    case Lhu => v == half
  }

  ghost function Size(w: StoreWidth): (n: nat) { match w case Sb => 1 case Sh => 2 case Sw => 4 }

  ghost function ByteOf(x: Word, k: nat): (b: Byte)
    requires k < 4
  {
    match k case 0 => x % 0x100 case 1 => x / 0x100 % 0x100 case 2 => x / 0x1_0000 % 0x100 case 3 => x / 0x100_0000
  }

  /** The first n bytes of x stand in RAM from a on, and the rest of RAM is as it was. */
  ghost predicate Stored(n: nat, mem: seq<Byte>, a: nat, x: Word, mem': seq<Byte>)
    requires a + 4 <= |mem| && n <= 4
  {
    && |mem'| == |mem|
    && forall i :: 0 <= i < |mem| ==> mem'[i] == if a <= i < a + n then ByteOf(x, i - a) else mem[i]
  }

  /** What an AMO stores for the word that was there and the register b. */
  ghost predicate AmoMeans(op: AmoOp, was: Word, b: Word, w: Word)
  {
    match op
    case AmoAdd => Congruent(w, was + b)
    case AmoSwap => w == b
    case AmoXor => Bits(w) == Words.Xor(Bits(was), Bits(b))
    case AmoOr => Bits(w) == Words.Or(Bits(was), Bits(b))
    case AmoAnd => Bits(w) == Words.And(Bits(was), Bits(b))
    case AmoMin => (w == was || w == b) && Signed(w) <= Signed(was) && Signed(w) <= Signed(b)
    case AmoMax => (w == was || w == b) && Signed(w) >= Signed(was) && Signed(w) >= Signed(b)
    case AmoMinu => (w == was || w == b) && w <= was && w <= b
    case AmoMaxu => (w == was || w == b) && w >= was && w >= b
  }

  /** What a CSR instruction leaves in a control register. */
  ghost predicate CsrMeans(op: CsrOp, was: Word, x: Word, w: Word)
  {
    match op
    case Rw => w == x
    case Rs => Bits(w) == Words.Or(Bits(was), Bits(x))
    case Rc => Bits(w) == Words.And(Bits(was), Words.Invert(Bits(x)))
  }

  ghost predicate ReadOnly(r: Control) { r == Cycle || r == Mvendorid || r == Misa }

  /** The value of a control register that can be written. */
  ghost function Field(c: Csrs, r: Control): (v: Word)
    requires !ReadOnly(r)
  {
    match r
    case Mscratch => c.mscratch
    case Mtvec => c.mtvec
    case Mie => c.mie
    case Mip => c.mip
    case Mepc => c.mepc
    case Mstatus => c.mstatus
    case Mcause => c.mcause
    case Mtval => c.mtval
  }

  /** What a control register is read as; the count of cycles includes the one under way. */
  ghost predicate Shows(c: Csrs, r: Control, v: Word)
  {
    match r
    case Cycle => Congruent(v, c.cyclel + 1)
    case Mvendorid => v == 0xff0ff0ff
    case Misa => v == 0x40401101
    case _ => v == Field(c, r)
  }

  ghost predicate Written(regs: seq<Word>, rd: nat, v: Word, regs': seq<Word>)
    requires |regs| == 32 && rd < 32
  {
    regs' == if rd == 0 then regs else regs[rd := v]
  }

  /** Nothing but the pc and the cycle counter has changed. */
  ghost predicate OnlyPc(c: Csrs, d: Csrs) { d == c.(pc := d.pc, cyclel := d.cyclel, cycleh := d.cycleh) }

  /** Only register rd has been written. */
  ghost predicate Gets(m: Machine, rd: nat, v: Word, m': Machine)
    requires |m.regs| == 32 && rd < 32
  {
    Written(m.regs, rd, v, m'.regs) && m'.mem == m.mem && m'.offset == m.offset && OnlyPc(m.csr, m'.csr)
  }

  /** The word at this address is at this place in RAM. */
  ghost predicate At(m: Machine, address: int, place: nat)
  {
    place + 4 <= |m.mem| && Congruent(place + m.offset, address)
  }

  ghost predicate Next(m: Machine, m': Machine) { Congruent(m'.csr.pc, m.csr.pc + 4) }

  ghost predicate LoadDone(i: Instr, m: Machine, place: nat, m': Machine)
    requires i.Load? && Legal(i) && Sound(m) && place + 4 <= |m.mem|
  {
    exists v: Word :: Gets(m, i.rd, v, m') && LoadMeans(i.load, m.mem, place, v)
  }

  ghost predicate StoreDoneAt(i: Instr, m: Machine, place: nat, m': Machine)
    requires i.Store? && Legal(i) && Sound(m) && place + 4 <= |m.mem|
  {
    && Stored(Size(i.store), m.mem, place, m.regs[i.rs2], m'.mem)
    && m'.regs == m.regs && m'.offset == m.offset && OnlyPc(m.csr, m'.csr)
  }

  ghost predicate AmoDone(i: Instr, m: Machine, place: nat, m': Machine)
    requires i.Amo? && Legal(i) && Sound(m) && place + 4 <= |m.mem|
  {
    exists was: Word, w: Word ::
      && was == Little(m.mem, place) && AmoMeans(i.amo, was, m.regs[i.rs2], w)
      && Written(m.regs, i.rd, was, m'.regs) && Stored(4, m.mem, place, w, m'.mem)
      && m'.offset == m.offset && OnlyPc(m.csr, m'.csr)
  }

  ghost function SourceValue(m: Machine, s: Source): (x: Word)
    requires |m.regs| == 32 && if s.Register? then s.no < 32 else s.value < 32
  {
    if s.Register? then m.regs[s.no] else s.value
  }

  /** The control register that is named is read and, unless it cannot be, written; no other changes. */
  ghost predicate CsrDone(i: Instr, m: Machine, m': Machine)
    requires i.Csr? && Legal(i) && Sound(m)
  {
    exists was: Word, w: Word ::
      && Shows(m.csr, i.control, was) && CsrMeans(i.csrOp, was, SourceValue(m, i.source), w)
      && Written(m.regs, i.rd, was, m'.regs) && m'.mem == m.mem && m'.offset == m.offset
      && if ReadOnly(i.control) then OnlyPc(m.csr, m'.csr) else ControlSet(m.csr, i.control, w, m'.csr)
  }

  ghost predicate ControlSet(c: Csrs, r: Control, w: Word, d: Csrs)
    requires !ReadOnly(r)
  {
    && Field(d, r) == w
    && (forall q: Control :: q != r && !ReadOnly(q) ==> Field(d, q) == Field(c, q))
    && Writable(c, d.(pc := c.pc, cyclel := c.cyclel, cycleh := c.cycleh))
  }

  ghost predicate AuipcDone(m: Machine, rd: nat, upper: nat, m': Machine)
    requires Sound(m) && rd < 32
  {
    exists v: Word :: Gets(m, rd, v, m') && Congruent(v, m.csr.pc + upper * 0x1000)
  }

  /** The address of the next instruction is kept. */
  ghost predicate Links(m: Machine, rd: nat, m': Machine)
    requires Sound(m) && rd < 32
  {
    exists v: Word :: Gets(m, rd, v, m') && Congruent(v, m.csr.pc + 4)
  }

  /** The lowest bit of the target is cleared. */
  ghost predicate EvenPart(pc: Word, base: Word, offset: int)
  {
    pc % 2 == 0 && (Congruent(pc, base + offset) || Congruent(pc + 1, base + offset))
  }

  ghost predicate BranchDone(m: Machine, c: Cond, a: Word, b: Word, offset: int, m': Machine)
    requires Sound(m)
  {
    Gets(m, 0, 0, m') && Congruent(m'.csr.pc, m.csr.pc + if Holds(c, a, b) then offset else 4)
  }

  ghost predicate AluDone(m: Machine, alu: Alu, rd: nat, a: Word, b: Word, m': Machine)
    requires Sound(m) && rd < 32
  {
    exists v: Word :: Gets(m, rd, v, m') && Means(alu, a, b, v)
  }

  /** If the address is in RAM, the load reads there; likewise a store and an AMO. */
  ghost predicate LoadsFrom(i: Instr, m: Machine, address: int, m': Machine)
    requires i.Load? && Legal(i) && Sound(m)
  {
    forall place: nat :: At(m, address, place) ==> Next(m, m') && LoadDone(i, m, place, m')
  }

  ghost predicate StoresTo(i: Instr, m: Machine, address: int, m': Machine)
    requires i.Store? && Legal(i) && Sound(m)
  {
    forall place: nat :: At(m, address, place) ==> Next(m, m') && StoreDoneAt(i, m, place, m')
  }

  ghost predicate UpdatesAt(i: Instr, m: Machine, address: int, m': Machine)
    requires i.Amo? && Legal(i) && Sound(m)
  {
    forall place: nat :: At(m, address, place) ==> Next(m, m') && AmoDone(i, m, place, m')
  }

  /** What a step does that executes the instruction. Loads, stores and AMOs to RAM are meant. */
  ghost predicate Obeys(i: Instr, m: Machine, m': Machine)
    requires Legal(i) && Sound(m)
  {
    match i
    case Lui(rd, upper) => Next(m, m') && Gets(m, rd, upper * 0x1000, m')
    case Auipc(rd, upper) => Next(m, m') && AuipcDone(m, rd, upper, m')
    case Jal(rd, offset) => Links(m, rd, m') && Congruent(m'.csr.pc, m.csr.pc + offset)
    case Jalr(rd, rs1, offset) => Links(m, rd, m') && EvenPart(m'.csr.pc, m.regs[rs1], offset)
    case Branch(c, rs1, rs2, offset) => BranchDone(m, c, m.regs[rs1], m.regs[rs2], offset, m')
    case Load(_, _, rs1, offset) => LoadsFrom(i, m, m.regs[rs1] + offset, m')
    case Store(_, rs1, _, offset) => StoresTo(i, m, m.regs[rs1] + offset, m')
    case OpImm(alu, rd, rs1, imm) =>
      Next(m, m') && exists b: Word :: Operand(alu, imm, b) && AluDone(m, alu, rd, m.regs[rs1], b, m')
    case Op(alu, rd, rs1, rs2) => Next(m, m') && AluDone(m, alu, rd, m.regs[rs1], m.regs[rs2], m')
    case Csr(_, _, _, _) => Next(m, m') && CsrDone(i, m, m')
    case Amo(_, _, rs1, _) => UpdatesAt(i, m, m.regs[rs1], m')
  }

  /** An immediate as the second operand; of a shift only the lowest five bits count. */
  ghost predicate Operand(alu: Alu, imm: int, b: Word)
  {
    if Shift(alu) then b % 32 == imm else Congruent(b, imm)
  }

  // ----- the formats, read back -----

  /** The fields of an instruction as the decoder cuts them out. */
  ghost predicate Fielded(ir: Word, f7: nat, rs2: nat, rs1: nat, f3: nat, rd: nat, op: nat)
  {
    && Opcode(ir) == op && Rd(ir) == rd && Funct3(ir) == f3 && Rs1(ir) == rs1 && Rs2(ir) == rs2
    && Imm12(ir) == f7 * 32 + rs2 && ir / 0x200_0000 == f7
  }

  lemma {:induction false} LowFields(ir: Word, top: nat, rs1: nat, f3: nat, rd: nat, op: nat)
    requires top < 0x1000 && rs1 < 32 && f3 < 8 && rd < 32 && op < 0x80
    requires ir == top * 0x10_0000 + rs1 * 0x8000 + f3 * 0x1000 + rd * 0x80 + op
    ensures Opcode(ir) == op && Rd(ir) == rd && Funct3(ir) == f3 && Rs1(ir) == rs1 && Imm12(ir) == top
  {
    var x := top * 32 + rs1;
    var y := x * 8 + f3;
    DivMod(ir, y * 32 + rd, op, 0x80);
    DivMod(y * 32 + rd, y, rd, 32);
    DivMod(ir, y, rd * 0x80 + op, 0x1000);
    DivMod(y, x, f3, 8);
    DivMod(ir, x, f3 * 0x1000 + rd * 0x80 + op, 0x8000);
    DivMod(x, top, rs1, 32);
    DivMod(ir, top, rs1 * 0x8000 + f3 * 0x1000 + rd * 0x80 + op, 0x10_0000);
  }

  lemma {:induction false} Fields(ir: Word, f7: nat, rs2: nat, rs1: nat, f3: nat, rd: nat, op: nat)
    requires f7 < 0x80 && rs2 < 32 && rs1 < 32 && f3 < 8 && rd < 32 && op < 0x80
    requires ir == Format(f7, rs2, rs1, f3, rd, op)
    ensures Fielded(ir, f7, rs2, rs1, f3, rd, op)
  {
    var top := f7 * 32 + rs2;
    LowFields(ir, top, rs1, f3, rd, op);
    DivMod(top, f7, rs2, 32);
    DivMod(ir, f7, rs2 * 0x10_0000 + rs1 * 0x8000 + f3 * 0x1000 + rd * 0x80 + op, 0x200_0000);
  }

  lemma {:induction false} FieldsI(ir: Word, imm: nat, rs1: nat, f3: nat, rd: nat, op: nat)
    requires imm < 0x1000 && rs1 < 32 && f3 < 8 && rd < 32 && op < 0x80 && ir == FormatI(imm, rs1, f3, rd, op)
    ensures Opcode(ir) == op && Rd(ir) == rd && Funct3(ir) == f3 && Rs1(ir) == rs1 && Imm12(ir) == imm
  {
    LowFields(ir, imm, rs1, f3, rd, op);
  }

  lemma {:induction false} UpperFields(ir: Word, upper: nat, rd: nat, op: nat)
    requires upper < 0x10_0000 && rd < 32 && op < 0x80 && ir == upper * 0x1000 + rd * 0x80 + op
    ensures Opcode(ir) == op && Rd(ir) == rd && ir - ir % 0x1000 == upper * 0x1000
  {
    DivMod(ir, upper * 32 + rd, op, 0x80);
    DivMod(upper * 32 + rd, upper, rd, 32);
    DivMod(ir, upper, rd * 0x80 + op, 0x1000);
  }

  /** Bit 30 tells SUB and SRA, bit 25 the M extension, the upper five bits an AMO. */
  lemma {:induction false} HighFields(ir: Word, f7: nat)
    requires ir / 0x200_0000 == f7
    ensures ir / 0x4000_0000 % 2 == f7 / 32 % 2 && ir / 0x800_0000 == f7 / 4 && ir / 0x8000_0000 == f7 / 64
  {
    var r := ir % 0x200_0000;
    DivMod(ir, f7 / 32, f7 % 32 * 0x200_0000 + r, 0x4000_0000);
    DivMod(ir, f7 / 4, f7 % 4 * 0x200_0000 + r, 0x800_0000);
    DivMod(ir, f7 / 64, f7 % 64 * 0x200_0000 + r, 0x8000_0000);
  }

  lemma {:induction false} Extended(imm: int)
    requires -0x800 <= imm < 0x800
    ensures Signed(Extend12(Twelve(imm))) == imm && Congruent(Extend12(Twelve(imm)), imm)
  {
  }

  lemma {:induction false} JumpBits(u: nat)
    requires u < 0x20_0000 && u % 2 == 0
    ensures u == u / 0x10_0000 * 0x10_0000 + u / 0x1000 % 0x100 * 0x1000 + u / 0x800 % 2 * 0x800 + u / 2 % 0x400 * 2
  {
    assert u / 2 / 0x400 == u / 0x800;
    assert u / 0x800 / 2 == u / 0x1000;
    assert u / 0x1000 / 0x100 == u / 0x10_0000;
  }

  lemma {:induction false} BranchBits(u: nat)
    requires u < 0x2000 && u % 2 == 0
    ensures u == u / 0x1000 * 0x1000 + u / 0x800 % 2 * 0x800 + u / 32 % 64 * 32 + u / 2 % 16 * 2
  {
    assert u / 2 / 16 == u / 32;
    assert u / 32 / 64 == u / 0x800;
    assert u / 0x800 / 2 == u / 0x1000;
  }

  lemma {:induction false} JalFields(ir: Word, sign: nat, low: nat, eleven: nat, mid: nat, rd: nat)
    requires sign < 2 && low < 0x400 && eleven < 2 && mid < 0x100 && rd < 32
    requires ir == sign * 0x8000_0000 + low * 0x20_0000 + eleven * 0x10_0000 + mid * 0x1000 + rd * 0x80 + 0x6F
    ensures Opcode(ir) == 0x6F && Rd(ir) == rd
    ensures Signed(JalOffset(ir)) == mid * 0x1000 + eleven * 0x800 + low * 2 - sign * 0x10_0000
  {
    UpperFields(ir, ((sign * 0x400 + low) * 2 + eleven) * 0x100 + mid, rd, 0x6F);
    JalDecodes(ir, sign, low, eleven, mid, rd * 0x80 + 0x6F);
  }

  /** A number of two's complement: its sign bit counts n less instead of n more. */
  lemma {:induction false} TwosComplement(offset: int, u: nat, sign: nat, n: int)
    requires n > 0 && -n <= offset < n && u == (if offset < 0 then offset + 2 * n else offset) && sign == u / n
    ensures offset == u - 2 * (sign * n)
  {
    DivMod(u, if offset < 0 then 1 else 0, if offset < 0 then offset + n else offset, n);
  }

  lemma {:induction false} BranchFields(ir: Word, sign: nat, mid: nat, rs2: nat, rs1: nat, f3: nat, low: nat, eleven: nat)
    requires sign < 2 && mid < 64 && rs1 < 32 && rs2 < 32 && f3 < 8 && low < 16 && eleven < 2
    requires ir == Format(sign * 64 + mid, rs2, rs1, f3, low * 2 + eleven, 0x63)
    ensures Opcode(ir) == 0x63 && Funct3(ir) == f3 && Rs1(ir) == rs1 && Rs2(ir) == rs2
    ensures Signed(BranchOffset(ir)) == eleven * 0x800 + mid * 32 + low * 2 - sign * 0x1000
  {
    Fields(ir, sign * 64 + mid, rs2, rs1, f3, low * 2 + eleven, 0x63);
    BranchDecodes(ir, sign, mid, (rs2 * 32 + rs1) * 8 + f3, low, eleven, 0x63);
  }

  lemma {:induction false} JumpParts(offset: int, u: nat, sign: nat, low: nat, eleven: nat, mid: nat)
    requires -0x10_0000 <= offset < 0x10_0000 && offset % 2 == 0 && u == Jump(offset)
    requires sign == u / 0x10_0000 && low == u / 2 % 0x400 && eleven == u / 0x800 % 2 && mid == u / 0x1000 % 0x100
    ensures sign < 2 && offset == mid * 0x1000 + eleven * 0x800 + low * 2 - sign * 0x10_0000
  {
    JumpBits(u);
    TwosComplement(offset, u, sign, 0x10_0000);
  }

  lemma {:induction false} JalReadBack(ir: Word, offset: int, u: nat, rd: nat)
    requires -0x10_0000 <= offset < 0x10_0000 && offset % 2 == 0 && u == Jump(offset) && rd < 32 && ir == EncodeJal(u, rd)
    ensures Opcode(ir) == 0x6F && Rd(ir) == rd && Signed(JalOffset(ir)) == offset
  {
    var sign, low, eleven, mid := u / 0x10_0000, u / 2 % 0x400, u / 0x800 % 2, u / 0x1000 % 0x100;
    JumpParts(offset, u, sign, low, eleven, mid);
    JalFields(ir, sign, low, eleven, mid, rd);
  }

  lemma {:induction false} BranchParts(offset: int, u: nat, sign: nat, mid: nat, low: nat, eleven: nat)
    requires -0x1000 <= offset < 0x1000 && offset % 2 == 0 && u == (if offset < 0 then offset + 0x2000 else offset)
    requires sign == u / 0x1000 && mid == u / 32 % 64 && low == u / 2 % 16 && eleven == u / 0x800 % 2
    ensures sign < 2 && offset == eleven * 0x800 + mid * 32 + low * 2 - sign * 0x1000
  {
    BranchBits(u);
    TwosComplement(offset, u, sign, 0x1000);
  }

  lemma {:induction false} BranchReadBack(ir: Word, offset: int, u: nat, rs2: nat, rs1: nat, f3: nat)
    requires -0x1000 <= offset < 0x1000 && offset % 2 == 0 && u == (if offset < 0 then offset + 0x2000 else offset)
    requires rs1 < 32 && rs2 < 32 && f3 < 8 && ir == EncodeBranch(u, rs2, rs1, f3)
    ensures Opcode(ir) == 0x63 && Funct3(ir) == f3 && Rs1(ir) == rs1 && Rs2(ir) == rs2
    ensures Signed(BranchOffset(ir)) == offset
  {
    var sign, mid, low, eleven := u / 0x1000, u / 32 % 64, u / 2 % 16, u / 0x800 % 2;
    BranchParts(offset, u, sign, mid, low, eleven);
    BranchFields(ir, sign, mid, rs2, rs1, f3, low, eleven);
  }

  lemma {:induction false} StoreReadBack(ir: Word, u: nat, rs2: nat, rs1: nat, f3: nat)
    requires u < 0x1000 && rs1 < 32 && rs2 < 32 && f3 < 8 && ir == Format(u / 32, rs2, rs1, f3, u % 32, 0x23)
    ensures Opcode(ir) == 0x23 && Funct3(ir) == f3 && Rs1(ir) == rs1 && Rs2(ir) == rs2 && StoreOffset(ir) == Extend12(u)
  {
    Fields(ir, u / 32, rs2, rs1, f3, u % 32, 0x23);
  }

  // ----- computing instructions and jumps -----

  /** A step that executes ir. */
  ghost predicate Runs(m: Machine, ir: Word, m': Machine)
    requires Sound(m)
  {
    exists o, mid, how ::
      Executed(m, ir, m'.mem, mid, o) && Finished(m, o, mid, m'.regs, m'.csr, how) && m'.offset == m.offset
  }

  ghost predicate Computing(op: nat) { op != 0x03 && op != 0x23 && op != 0x73 && op != 0x2f }

  lemma {:induction false} RunsComputed(m: Machine, ir: Word, m': Machine, rd: nat, v: Word, pc: Word)
    requires Sound(m) && Runs(m, ir, m') && Computing(Opcode(ir)) && rd < 32 && Computed(m.regs, ir, m.csr.pc) == Continue(rd, v, pc)
    ensures Gets(m, rd, v, m') && m'.csr.pc == Wrap(4 + (pc as int))
  {
  }

  lemma {:induction false} CongruentSum(x: int, y: int, x': int, y': int)
    requires Congruent(x, y) && Congruent(x', y')
    ensures Congruent(x + x', y + y') && Congruent(x - x', y - y')
  {
  }

  lemma {:induction false} CongruentChain(x: int, y: int, z: int)
    requires Congruent(x, y) && Congruent(y, z)
    ensures Congruent(x, z)
  {
    CongruentSum(x, y, y, z);
  }

  lemma {:induction false} JumpsTo(pc: Word, off: Word, offset: int)
    requires Congruent(off, offset)
    ensures Congruent(Wrap(4 + Wrap((pc as int) + off - 4)), pc + offset)
  {
    WrapFour((pc as int) + off);
    WrapCongruent((pc as int) + off);
    CongruentSum(Wrap((pc as int) + off), pc + off, off, offset);
    assert Congruent(Wrap((pc as int) + off) + off, pc + off + offset);
  }

  lemma {:induction false} WrapFour(x: int)
    ensures Wrap(4 + Wrap(x - 4)) == Wrap(x)
  {
    WrapShift(x, -((x - 4) / TWO_32));
  }

  lemma {:induction false} NextPc(pc: Word)
    ensures Congruent(Wrap(4 + (pc as int)), pc + 4)
  {
    WrapCongruent(4 + (pc as int));
  }

  lemma {:induction false} SignedCongruent(x: Word, n: int)
    requires Signed(x) == n
    ensures Congruent(x, n)
  {
  }

  lemma {:induction false} RunsUpper(m: Machine, ir: Word, m': Machine, rd: nat, upper: nat)
    requires Sound(m) && Runs(m, ir, m') && rd < 32 && Rd(ir) == rd && ir - ir % 0x1000 == upper * 0x1000
    requires Opcode(ir) == 0x37 || Opcode(ir) == 0x17
    ensures Next(m, m') && if Opcode(ir) == 0x37 then Gets(m, rd, upper * 0x1000, m') else AuipcDone(m, rd, upper, m')
  {
    var pc, v: int := m.csr.pc, m.csr.pc + upper * 0x1000;
    NextPc(pc);
    if Opcode(ir) == 0x37 {
      RunsComputed(m, ir, m', rd, upper * 0x1000, pc);
    } else {
      WrapCongruent(v);
      RunsComputed(m, ir, m', rd, Wrap(v), pc);
    }
  }

  lemma {:induction false} UpperObeys(i: Instr, ir: Word, m: Machine, m': Machine)
    requires (i.Lui? || i.Auipc?) && Legal(i) && Sound(m) && ir == Encode(i) && Runs(m, ir, m')
    ensures Obeys(i, m, m')
  {
    UpperFields(ir, i.upper, i.rd, if i.Lui? then 0x37 else 0x17);
    RunsUpper(m, ir, m', i.rd, i.upper);
  }

  lemma {:induction false} RunsJump(m: Machine, ir: Word, m': Machine, rd: nat, pc: Word)
    requires Sound(m) && Runs(m, ir, m') && Computing(Opcode(ir)) && rd < 32
    requires Computed(m.regs, ir, m.csr.pc) == Continue(rd, Wrap(4 + (m.csr.pc as int)), pc)
    ensures Links(m, rd, m') && m'.csr.pc == Wrap(4 + (pc as int))
  {
    NextPc(m.csr.pc);
    RunsComputed(m, ir, m', rd, Wrap(4 + (m.csr.pc as int)), pc);
  }

  lemma {:induction false} RunsJal(m: Machine, ir: Word, m': Machine, rd: nat, off: Word, offset: int)
    requires Sound(m) && Runs(m, ir, m') && Opcode(ir) == 0x6F && rd < 32 && Rd(ir) == rd && JalOffset(ir) == off
    requires Congruent(off, offset)
    ensures Links(m, rd, m') && Congruent(m'.csr.pc, m.csr.pc + offset)
  {
    var pc := m.csr.pc;
    JumpsTo(pc, off, offset);
    RunsJump(m, ir, m', rd, Wrap((pc as int) + off - 4));
  }

  lemma {:induction false} JalRuns(m: Machine, ir: Word, m': Machine, rd: nat, offset: int, u: nat)
    requires Sound(m) && Runs(m, ir, m') && rd < 32 && -0x10_0000 <= offset < 0x10_0000 && offset % 2 == 0
    requires u == Jump(offset) && ir == EncodeJal(u, rd)
    ensures Links(m, rd, m') && Congruent(m'.csr.pc, m.csr.pc + offset)
  {
    JalReadBack(ir, offset, u, rd);
    SignedCongruent(JalOffset(ir), offset);
    RunsJal(m, ir, m', rd, JalOffset(ir), offset);
  }

  lemma {:induction false} JalObeys(i: Instr, ir: Word, m: Machine, m': Machine)
    requires i.Jal? && Legal(i) && Sound(m) && ir == Encode(i) && Runs(m, ir, m')
    ensures Obeys(i, m, m')
  {
    JalRuns(m, ir, m', i.rd, i.offset, Jump(i.offset));
  }

  lemma {:induction false} EvenWord(to: Word, a: Word, offset: int)
    requires Congruent(to, a + offset)
    ensures EvenPart(to - to % 2, a, offset)
  {
  }

  lemma {:induction false} EvenTarget(a: Word, imm: Word, offset: int, to: Word)
    requires Congruent(imm, offset) && to == Wrap((a as int) + imm)
    ensures EvenPart(Wrap(4 + Wrap(to - to % 2 - 4)), a, offset)
  {
    WrapFour(to - to % 2);
    assert Wrap(to - to % 2) == to - to % 2;
    assert Congruent(to, a + offset) by {
      WrapCongruent((a as int) + imm);
      CongruentSum(imm, offset, a, a);
      CongruentChain(to, (a as int) + imm, a + offset);
    }
    EvenWord(to, a, offset);
  }

  lemma {:induction false} RunsJalr(m: Machine, ir: Word, m': Machine, rd: nat, rs1: nat, imm: Word, offset: int)
    requires Sound(m) && Runs(m, ir, m') && Opcode(ir) == 0x67 && rd < 32 && rs1 < 32 && Rd(ir) == rd && Rs1(ir) == rs1
    requires Extend12(Imm12(ir)) == imm && Congruent(imm, offset)
    ensures Links(m, rd, m') && EvenPart(m'.csr.pc, m.regs[rs1], offset)
  {
    var to: Word := Wrap((m.regs[rs1] as int) + imm);
    EvenTarget(m.regs[rs1], imm, offset, to);
    RunsJump(m, ir, m', rd, Wrap(to - to % 2 - 4));
  }

  lemma {:induction false} JalrRuns(m: Machine, ir: Word, m': Machine, rd: nat, rs1: nat, u: nat, offset: int)
    requires Sound(m) && Runs(m, ir, m') && rd < 32 && rs1 < 32 && -0x800 <= offset < 0x800 && u == Twelve(offset)
    requires ir == FormatI(u, rs1, 0, rd, 0x67)
    ensures Links(m, rd, m') && EvenPart(m'.csr.pc, m.regs[rs1], offset)
  {
    FieldsI(ir, u, rs1, 0, rd, 0x67);
    Extended(offset);
    RunsJalr(m, ir, m', rd, rs1, Extend12(u), offset);
  }

  lemma {:induction false} JalrObeys(i: Instr, ir: Word, m: Machine, m': Machine)
    requires i.Jalr? && Legal(i) && Sound(m) && ir == Encode(i) && Runs(m, ir, m')
    ensures Obeys(i, m, m')
  {
    JalrRuns(m, ir, m', i.rd, i.rs1, Twelve(i.offset), i.offset);
  }

  /** The branches that are taken. */
  lemma {:induction false} TakenHolds(c: Cond, a: Word, b: Word)
    ensures Taken(CondCode(c), a, b) <==> Holds(c, a, b)
  {
  }

  function Opposite(c: Cond): (d: Cond)
  {
    match c case Eq => Ne case Ne => Eq case Lt => Ge case Ge => Lt case Ltu => Geu case Geu => Ltu
  }

  /** Of a branch and its opposite exactly one is taken. */
  lemma {:induction false} Opposites(c: Cond, a: Word, b: Word)
    ensures Taken(CondCode(Opposite(c)), a, b) <==> !Taken(CondCode(c), a, b)
  {
    TakenHolds(c, a, b);
    TakenHolds(Opposite(c), a, b);
  }

  lemma {:induction false} RunsBranch(m: Machine, ir: Word, m': Machine, c: Cond, a: Word, b: Word, off: Word, offset: int)
    requires Sound(m) && Runs(m, ir, m') && Opcode(ir) == 0x63 && Funct3(ir) == CondCode(c)
    requires m.regs[Rs1(ir)] == a && m.regs[Rs2(ir)] == b && BranchOffset(ir) == off && Congruent(off, offset)
    ensures BranchDone(m, c, a, b, offset, m')
  {
    var pc := m.csr.pc;
    TakenHolds(c, a, b);
    if Holds(c, a, b) {
      JumpsTo(pc, off, offset);
      RunsComputed(m, ir, m', 0, 0, Wrap((pc as int) + off - 4));
    } else {
      NextPc(pc);
      RunsComputed(m, ir, m', 0, 0, pc);
    }
  }

  lemma {:induction false} BranchObeys(i: Instr, ir: Word, m: Machine, m': Machine)
    requires i.Branch? && Legal(i) && Sound(m) && ir == Encode(i) && Runs(m, ir, m')
    ensures Obeys(i, m, m')
  {
    BranchReadBack(ir, i.offset, if i.offset < 0 then i.offset + 0x2000 else i.offset, i.rs2, i.rs1, CondCode(i.cond));
    SignedCongruent(BranchOffset(ir), i.offset);
    RunsBranch(m, ir, m', i.cond, m.regs[i.rs1], m.regs[i.rs2], BranchOffset(ir), i.offset);
  }

  lemma {:induction false} RunsAlu(m: Machine, ir: Word, m': Machine, alu: Alu, isReg: bool, rd: nat, a: Word, b: Word)
    requires Sound(m) && Runs(m, ir, m') && Computing(Opcode(ir)) && rd < 32 && (alu.Sub? ==> isReg)
    requires Computed(m.regs, ir, m.csr.pc) == Continue(rd, Compute(alu, isReg, a, b), m.csr.pc)
    ensures Next(m, m') && AluDone(m, alu, rd, a, b, m')
  {
    NextPc(m.csr.pc);
    ComputeMeans(alu, isReg, a, b);
    RunsComputed(m, ir, m', rd, Compute(alu, isReg, a, b), m.csr.pc);
  }

  lemma {:induction false} ComputedOp(regs: seq<Word>, ir: Word, pc: Word, alu: Alu, a: Word, b: Word)
    requires |regs| == 32 && Opcode(ir) == 0x33 && Funct3(ir) == Code(alu).0 && regs[Rs1(ir)] == a && regs[Rs2(ir)] == b
    requires ir / 0x200_0000 % 2 == Code(alu).1 % 2 && ir / 0x4000_0000 % 2 == Code(alu).1 / 32
    ensures Computed(regs, ir, pc) == Continue(Rd(ir), Compute(alu, true, a, b), pc)
  {
  }

  lemma {:induction false} AluFields(ir: Word, f7: nat)
    requires (f7 == 0 || f7 == 1 || f7 == 32) && ir / 0x200_0000 == f7
    ensures ir / 0x200_0000 % 2 == f7 % 2 && ir / 0x4000_0000 % 2 == f7 / 32
  {
    HighFields(ir, f7);
  }

  lemma {:induction false} RunsOp(m: Machine, ir: Word, m': Machine, alu: Alu, rd: nat, rs1: nat, rs2: nat)
    requires Sound(m) && Runs(m, ir, m') && rd < 32 && rs1 < 32 && rs2 < 32
    requires Fielded(ir, Code(alu).1, rs2, rs1, Code(alu).0, rd, 0x33)
    ensures Next(m, m') && AluDone(m, alu, rd, m.regs[rs1], m.regs[rs2], m')
  {
    AluFields(ir, Code(alu).1);
    ComputedOp(m.regs, ir, m.csr.pc, alu, m.regs[rs1], m.regs[rs2]);
    RunsAlu(m, ir, m', alu, true, rd, m.regs[rs1], m.regs[rs2]);
  }

  lemma {:induction false} OpObeys(i: Instr, ir: Word, m: Machine, m': Machine)
    requires i.Op? && Legal(i) && Sound(m) && ir == Encode(i) && Runs(m, ir, m')
    ensures Obeys(i, m, m')
  {
    Fields(ir, Code(i.alu).1, i.rs2, i.rs1, Code(i.alu).0, i.rd, 0x33);
    RunsOp(m, ir, m', i.alu, i.rd, i.rs1, i.rs2);
  }

  lemma {:induction false} ComputedOpImm(regs: seq<Word>, ir: Word, pc: Word, alu: Alu, a: Word, b: Word)
    requires |regs| == 32 && Opcode(ir) == 0x13 && Funct3(ir) == Code(alu).0 && regs[Rs1(ir)] == a && Extend12(Imm12(ir)) == b
    requires Basic(alu) && !alu.Sub? && (Shift(alu) ==> ir / 0x4000_0000 % 2 == Code(alu).1 / 32)
    ensures Computed(regs, ir, pc) == Continue(Rd(ir), Compute(alu, false, a, b), pc)
  {
  }

  lemma {:induction false} ShiftAmount(f7: nat, imm: nat)
    requires (f7 == 0 || f7 == 32) && imm < 32
    ensures Extend12(f7 * 32 + imm) % 32 == imm
  {
    DivMod(f7 * 32 + imm, f7, imm, 32);
  }

  lemma {:induction false} RunsOpImm(m: Machine, ir: Word, m': Machine, alu: Alu, rd: nat, rs1: nat, imm: int)
    requires Sound(m) && Runs(m, ir, m') && rd < 32 && rs1 < 32 && Opcode(ir) == 0x13 && Rd(ir) == rd && Rs1(ir) == rs1
    requires Funct3(ir) == Code(alu).0 && Operand(alu, imm, Extend12(Imm12(ir)))
    requires Basic(alu) && !alu.Sub? && (Shift(alu) ==> ir / 0x4000_0000 % 2 == Code(alu).1 / 32)
    ensures Next(m, m') && exists b: Word :: Operand(alu, imm, b) && AluDone(m, alu, rd, m.regs[rs1], b, m')
  {
    var b := Extend12(Imm12(ir));
    ComputedOpImm(m.regs, ir, m.csr.pc, alu, m.regs[rs1], b);
    RunsAlu(m, ir, m', alu, false, rd, m.regs[rs1], b);
  }

  lemma {:induction false} OpImmObeys(i: Instr, ir: Word, m: Machine, m': Machine)
    requires i.OpImm? && Legal(i) && Sound(m) && ir == Encode(i) && Runs(m, ir, m')
    ensures Obeys(i, m, m')
  {
    var c := Code(i.alu);
    if Shift(i.alu) {
      Fields(ir, c.1, i.imm, i.rs1, c.0, i.rd, 0x13);
      AluFields(ir, c.1);
      ShiftAmount(c.1, i.imm);
    } else {
      FieldsI(ir, Twelve(i.imm), i.rs1, c.0, i.rd, 0x13);
      Extended(i.imm);
    }
    RunsOpImm(m, ir, m', i.alu, i.rd, i.rs1, i.imm);
  }

  // ----- memory -----

  lemma {:induction false} SameWord(x: Word, y: Word)
    requires Congruent(x, y)
    ensures x == y
  {
  }

  lemma {:induction false} PlaceOf(address: Word, target: int, start: Word, place: Word)
    requires Congruent(address, target) && Congruent((place as int) + start, target)
    ensures Wrap((address as int) - start) == place
  {
    WrapCongruent((address as int) - start);
    CongruentSum(address, target, (place as int) + start, target);
    CongruentChain(Wrap((address as int) - start), (address as int) - start, place);
    SameWord(Wrap((address as int) - start), place);
  }

  /** The place of an address in RAM is the one that the processor computes. */
  lemma {:induction false} PlaceFound(base: Word, imm: Word, offset: int, start: Word, place: Word)
    requires Congruent(imm, offset) && Congruent((place as int) + start, base + offset)
    ensures Wrap(Wrap((base as int) + imm) - start) == place
  {
    var address: Word := Wrap((base as int) + imm);
    assert Congruent(address, base + offset) by {
      WrapCongruent((base as int) + imm);
      CongruentSum(imm, offset, base, base);
      CongruentChain(address, (base as int) + imm, base + offset);
    }
    PlaceOf(address, base + offset, start, place);
  }

  lemma {:induction false} LoadedMeans(w: LoadWidth, mem: seq<Byte>, a: nat)
    requires a + 4 <= |mem|
    ensures var v := LoadValue(mem, a, LoadCode(w)); v.Some? && LoadMeans(w, mem, a, v.value)
  {
    LoadedBytes(mem, a, mem[a], (mem[a] as int) + 0x100 * (mem[a + 1] as int));
    ReadLittle(mem, a);
  }

  lemma {:induction false} ReadLittle(mem: seq<Byte>, a: nat)
    requires a + 4 <= |mem|
    ensures Read32(mem, a) == Little(mem, a)
  {
    assert LoadBytes(mem, a + 3, 1) == mem[a + 3];
    assert LoadBytes(mem, a + 2, 2) == (mem[a + 2] as int) + 0x100 * LoadBytes(mem, a + 3, 1);
    assert LoadBytes(mem, a + 1, 3) == (mem[a + 1] as int) + 0x100 * LoadBytes(mem, a + 2, 2);
  }

  lemma {:induction false} StoredFew(mem: seq<Byte>, a: nat, x: Word)
    requires a + 4 <= |mem|
    ensures Stored(1, mem, a, x, StoreBytes(mem, a, 1, x)) && Stored(2, mem, a, x, StoreBytes(mem, a, 2, x))
  {
    var one := mem[a := x % 0x100];
    assert StoreBytes(mem, a, 1, x) == one;
    assert StoreBytes(mem, a, 2, x) == one[a + 1 := x / 0x100 % 0x100];
  }

  lemma {:induction false} StoredWord(mem: seq<Byte>, a: nat, x: Word)
    requires a + 4 <= |mem|
    ensures Stored(4, mem, a, x, StoreBytes(mem, a, 4, x))
  {
    var one := mem[a := x % 0x100];
    var two := one[a + 1 := x / 0x100 % 0x100];
    var three := two[a + 2 := x / 0x1_0000 % 0x100];
    var four := three[a + 3 := x / 0x100_0000];
    assert x / 0x100 / 0x100 == x / 0x1_0000 && x / 0x1_0000 / 0x100 == x / 0x100_0000 && x / 0x100_0000 < 0x100;
    assert StoreBytes(three, a + 3, 1, x / 0x100_0000) == four;
    assert StoreBytes(two, a + 2, 2, x / 0x1_0000) == four;
    assert StoreBytes(one, a + 1, 3, x / 0x100) == four;
  }

  lemma {:induction false} StoredMeans(w: StoreWidth, mem: seq<Byte>, a: nat, x: Word)
    requires a + 4 <= |mem|
    ensures StoreCode(w) <= 2 && Stored(Size(w), mem, a, x, StoreBytes(mem, a, StoreSize(StoreCode(w)), x))
  {
    StoredFew(mem, a, x);
    StoredWord(mem, a, x);
  }

  /** A step that goes on: the register and the pc, and what the instruction left of RAM and the rest. */
  ghost predicate RunsOn(m: Machine, ir: Word, mid: Csrs, rd: nat, v: Word, m': Machine)
    requires Sound(m)
  {
    && Executed(m, ir, m'.mem, mid, Continue(rd, v, m.csr.pc)) && rd < 32 && Written(m.regs, rd, v, m'.regs)
    && m'.offset == m.offset && m'.csr == mid.(pc := m'.csr.pc, cyclel := m'.csr.cyclel, cycleh := m'.csr.cycleh)
    && Next(m, m')
  }

  lemma {:induction false} GoesOn(m: Machine, ir: Word, mid: Csrs, o: Outcome, how: Ending, m': Machine)
    requires Sound(m) && o.Continue? && o.pc == m.csr.pc && m'.offset == m.offset
    requires Executed(m, ir, m'.mem, mid, o) && Finished(m, o, mid, m'.regs, m'.csr, how)
    ensures RunsOn(m, ir, mid, o.rd, o.rval, m')
  {
    NextPc(m.csr.pc);
  }

  /** A load from RAM, in terms of its operands. */
  ghost predicate LoadEffect(m: Machine, w: LoadWidth, rd: nat, a: Word, imm: Word, m': Machine)
    requires Sound(m) && rd < 32
  {
    var place := Wrap(Wrap((a as int) + imm) - m.offset);
    place + 4 <= |m.mem| ==> Next(m, m') && exists v: Word :: Gets(m, rd, v, m') && LoadMeans(w, m.mem, place, v)
  }

  lemma {:induction false} LoadedFromRam(m: Machine, ir: Word, w: LoadWidth, a: Word, imm: Word, place: Word) returns (v: Word)
    requires Sound(m) && Funct3(ir) == LoadCode(w) && m.regs[Rs1(ir)] == a && Extend12(Imm12(ir)) == imm
    requires place == Wrap(Wrap((a as int) + imm) - m.offset) && place + 4 <= |m.mem|
    ensures Loaded(m.regs, m.offset, m.mem, m.csr, ir, m.csr.pc) == Continue(Rd(ir), v, m.csr.pc) && LoadMeans(w, m.mem, place, v)
  {
    LoadedMeans(w, m.mem, place);
    v := LoadValue(m.mem, place, LoadCode(w)).value;
  }

  lemma {:induction false} RunsLoad(m: Machine, ir: Word, m': Machine, w: LoadWidth, rd: nat, a: Word, imm: Word)
    requires Sound(m) && Runs(m, ir, m') && Opcode(ir) == 0x03 && Funct3(ir) == LoadCode(w) && Rd(ir) == rd
    requires m.regs[Rs1(ir)] == a && Extend12(Imm12(ir)) == imm
    ensures LoadEffect(m, w, rd, a, imm, m')
  {
    var o, mid, how :| Executed(m, ir, m'.mem, mid, o) && Finished(m, o, mid, m'.regs, m'.csr, how) && m'.offset == m.offset;
    var place := Wrap(Wrap((a as int) + imm) - m.offset);
    if place + 4 <= |m.mem| {
      var v := LoadedFromRam(m, ir, w, a, imm, place);
      GoesOn(m, ir, mid, o, how, m');
      assert Gets(m, rd, v, m');
    }
  }

  lemma {:induction false} LoadAt(i: Instr, m: Machine, m': Machine, imm: Word, address: int, place: nat)
    requires i.Load? && Legal(i) && Sound(m) && LoadEffect(m, i.load, i.rd, m.regs[i.rs1], imm, m')
    requires Congruent(imm, i.offset) && address == m.regs[i.rs1] + i.offset && At(m, address, place)
    ensures Next(m, m') && LoadDone(i, m, place, m')
  {
    PlaceFound(m.regs[i.rs1], imm, i.offset, m.offset, place);
  }

  lemma {:induction false} LoadsAll(i: Instr, m: Machine, m': Machine, imm: Word, address: int)
    requires i.Load? && Legal(i) && Sound(m) && LoadEffect(m, i.load, i.rd, m.regs[i.rs1], imm, m')
    requires Congruent(imm, i.offset) && address == m.regs[i.rs1] + i.offset
    ensures LoadsFrom(i, m, address, m')
  {
    forall place: nat | At(m, address, place) ensures Next(m, m') && LoadDone(i, m, place, m') {
      LoadAt(i, m, m', imm, address, place);
    }
  }

  lemma {:induction false} LoadObeys(i: Instr, ir: Word, m: Machine, m': Machine)
    requires i.Load? && Legal(i) && Sound(m) && ir == Encode(i) && Runs(m, ir, m')
    ensures Obeys(i, m, m')
  {
    var imm := Extend12(Twelve(i.offset));
    FieldsI(ir, Twelve(i.offset), i.rs1, LoadCode(i.load), i.rd, 0x03);
    RunsLoad(m, ir, m', i.load, i.rd, m.regs[i.rs1], imm);
    Extended(i.offset);
    LoadsAll(i, m, m', imm, m.regs[i.rs1] + i.offset);
  }

  /** A store to RAM, in terms of its operands. */
  ghost predicate StoreEffect(m: Machine, w: StoreWidth, a: Word, x: Word, imm: Word, m': Machine)
    requires Sound(m)
  {
    var place := Wrap(Wrap((a as int) + imm) - m.offset);
    place + 4 <= |m.mem| ==>
      && Next(m, m') && Stored(Size(w), m.mem, place, x, m'.mem)
      && m'.regs == m.regs && m'.offset == m.offset && OnlyPc(m.csr, m'.csr)
  }

  lemma {:induction false} StoredToRam(m: Machine, ir: Word, w: StoreWidth, a: Word, x: Word, imm: Word, place: Word,
                                       mem': seq<Byte>, csr': Csrs, o: Outcome)
    requires Sound(m) && Funct3(ir) == StoreCode(w) && m.regs[Rs1(ir)] == a && m.regs[Rs2(ir)] == x && StoreOffset(ir) == imm
    requires place == Wrap(Wrap((a as int) + imm) - m.offset) && place + 4 <= |m.mem|
    requires StoreDone(m.regs, m.offset, m.mem, m.csr, ir, m.csr.pc, mem', csr', o)
    ensures o == Continue(0, 0, m.csr.pc) && csr' == m.csr && Stored(Size(w), m.mem, place, x, mem')
  {
    StoredMeans(w, m.mem, place, x);
  }

  lemma {:induction false} RunsStore(m: Machine, ir: Word, m': Machine, w: StoreWidth, a: Word, x: Word, imm: Word)
    requires Sound(m) && Runs(m, ir, m') && Opcode(ir) == 0x23 && Funct3(ir) == StoreCode(w)
    requires m.regs[Rs1(ir)] == a && m.regs[Rs2(ir)] == x && StoreOffset(ir) == imm
    ensures StoreEffect(m, w, a, x, imm, m')
  {
    var o, mid, how :| Executed(m, ir, m'.mem, mid, o) && Finished(m, o, mid, m'.regs, m'.csr, how) && m'.offset == m.offset;
    var place := Wrap(Wrap((a as int) + imm) - m.offset);
    if place + 4 <= |m.mem| {
      StoredToRam(m, ir, w, a, x, imm, place, m'.mem, mid, o);
      GoesOn(m, ir, mid, o, how, m');
    }
  }

  lemma {:induction false} StoreAt(i: Instr, m: Machine, m': Machine, imm: Word, address: int, place: nat)
    requires i.Store? && Legal(i) && Sound(m) && StoreEffect(m, i.store, m.regs[i.rs1], m.regs[i.rs2], imm, m')
    requires Congruent(imm, i.offset) && address == m.regs[i.rs1] + i.offset && At(m, address, place)
    ensures Next(m, m') && StoreDoneAt(i, m, place, m')
  {
    PlaceFound(m.regs[i.rs1], imm, i.offset, m.offset, place);
  }

  lemma {:induction false} StoresAll(i: Instr, m: Machine, m': Machine, imm: Word, address: int)
    requires i.Store? && Legal(i) && Sound(m) && StoreEffect(m, i.store, m.regs[i.rs1], m.regs[i.rs2], imm, m')
    requires Congruent(imm, i.offset) && address == m.regs[i.rs1] + i.offset
    ensures StoresTo(i, m, address, m')
  {
    forall place: nat | At(m, address, place) ensures Next(m, m') && StoreDoneAt(i, m, place, m') {
      StoreAt(i, m, m', imm, address, place);
    }
  }

  lemma {:induction false} StoreEncoded(m: Machine, ir: Word, m': Machine, w: StoreWidth, rs1: nat, rs2: nat, u: nat)
    requires Sound(m) && Runs(m, ir, m') && u < 0x1000 && rs1 < 32 && rs2 < 32
    requires ir == Format(u / 32, rs2, rs1, StoreCode(w), u % 32, 0x23)
    ensures StoreEffect(m, w, m.regs[rs1], m.regs[rs2], Extend12(u), m')
  {
    StoreReadBack(ir, u, rs2, rs1, StoreCode(w));
    RunsStore(m, ir, m', w, m.regs[rs1], m.regs[rs2], Extend12(u));
  }

  lemma {:induction false} StoreRuns(i: Instr, ir: Word, m: Machine, m': Machine, u: nat, address: int)
    requires i.Store? && Legal(i) && Sound(m) && Runs(m, ir, m') && u == Twelve(i.offset) && address == m.regs[i.rs1] + i.offset
    requires ir == Format(u / 32, i.rs2, i.rs1, StoreCode(i.store), u % 32, 0x23)
    ensures StoresTo(i, m, address, m')
  {
    StoreEncoded(m, ir, m', i.store, i.rs1, i.rs2, u);
    Extended(i.offset);
    StoresAll(i, m, m', Extend12(u), address);
  }

  lemma {:induction false} StoreObeys(i: Instr, ir: Word, m: Machine, m': Machine)
    requires i.Store? && Legal(i) && Sound(m) && ir == Encode(i) && Runs(m, ir, m')
    ensures Obeys(i, m, m')
  {
    StoreRuns(i, ir, m, m', Twelve(i.offset), m.regs[i.rs1] + i.offset);
  }

  lemma {:induction false} AtomicMeans(op: AmoOp, was: Word, b: Word)
    ensures var w := Atomic(AmoCode(op), was, b); w.Some? && AmoMeans(op, was, b, w.value)
  {
    match op
    case AmoAdd => WrapCongruent((b as int) + was);
    case AmoXor => XorBits(b, was); assert Words.Xor(Bits(b), Bits(was)) == Words.Xor(Bits(was), Bits(b));
    case AmoOr => OrBits(b, was); assert Words.Or(Bits(b), Bits(was)) == Words.Or(Bits(was), Bits(b));
    case AmoAnd => AndBits(b, was); assert Words.And(Bits(b), Bits(was)) == Words.And(Bits(was), Bits(b));
    case _ =>
  }

  lemma {:induction false} RunsAmo(m: Machine, ir: Word, m': Machine, op: AmoOp, place: nat) returns (was: Word, w: Word)
    requires Sound(m) && Runs(m, ir, m') && Opcode(ir) == 0x2f && ir / 0x800_0000 == AmoCode(op) && place + 4 <= |m.mem|
    requires AtomicPlace(m.regs, m.offset, ir) == place
    ensures Next(m, m') && was == Little(m.mem, place) && AmoMeans(op, was, m.regs[Rs2(ir)], w)
    ensures Written(m.regs, Rd(ir), was, m'.regs) && Stored(4, m.mem, place, w, m'.mem)
    ensures m'.offset == m.offset && OnlyPc(m.csr, m'.csr)
  {
    var o, mid, how :| Executed(m, ir, m'.mem, mid, o) && Finished(m, o, mid, m'.regs, m'.csr, how) && m'.offset == m.offset;
    was := Read32(m.mem, place);
    ReadLittle(m.mem, place);
    AtomicMeans(op, was, m.regs[Rs2(ir)]);
    w := Atomic(AmoCode(op), was, m.regs[Rs2(ir)]).value;
    StoredWord(m.mem, place, w);
    assert o == Continue(Rd(ir), was, m.csr.pc) && m'.mem == Write32(m.mem, place, w) && mid == m.csr;
    GoesOn(m, ir, mid, o, how, m');
  }

  lemma {:induction false} AmoPlace(m: Machine, base: Word, place: nat)
    requires Sound(m) && At(m, base, place)
    ensures Wrap(base - m.offset) == place
  {
    WrapCongruent((base as int) - m.offset);
    CongruentSum(place + (m.offset as int), base, m.offset, m.offset);
    CongruentChain(Wrap((base as int) - m.offset), (base as int) - m.offset, place);
    SameWord(Wrap((base as int) - m.offset), place);
  }

  lemma {:induction false} AmoAt(i: Instr, m: Machine, m': Machine, ir: Word, place: nat)
    requires i.Amo? && Legal(i) && Sound(m) && Runs(m, ir, m') && Opcode(ir) == 0x2f && ir / 0x800_0000 == AmoCode(i.amo)
    requires Rd(ir) == i.rd && Rs1(ir) == i.rs1 && Rs2(ir) == i.rs2 && At(m, m.regs[i.rs1], place)
    ensures Next(m, m') && AmoDone(i, m, place, m')
  {
    AmoPlace(m, m.regs[i.rs1], place);
    var was, w := RunsAmo(m, ir, m', i.amo, place);
  }

  lemma {:induction false} AmoObeys(i: Instr, ir: Word, m: Machine, m': Machine)
    requires i.Amo? && Legal(i) && Sound(m) && ir == Encode(i) && Runs(m, ir, m')
    ensures Obeys(i, m, m')
  {
    var f7 := AmoCode(i.amo) * 4;
    Fields(ir, f7, i.rs2, i.rs1, 2, i.rd, 0x2f);
    HighFields(ir, f7);
    forall place: nat | At(m, m.regs[i.rs1], place) ensures Next(m, m') && AmoDone(i, m, place, m') {
      AmoAt(i, m, m', ir, place);
    }
    assert UpdatesAt(i, m, m.regs[i.rs1], m');
  }

  // ----- control registers -----

  lemma {:induction false} ReadShows(c: Csrs, r: Control)
    ensures Shows(c, r, ReadCsr(c, Number(r), ThisCycle(c)))
  {
    WrapCongruent(1 + (c.cyclel as int));
  }

  lemma {:induction false} WriteSets(c: Csrs, r: Control, w: Word)
    ensures if ReadOnly(r) then WriteCsr(c, Number(r), w) == c else ControlSet(c, r, w, WriteCsr(c, Number(r), w))
  {
    if !ReadOnly(r) {
      WriteKeeps(c, Number(r), w);
    }
  }

  lemma {:induction false} WrittenMeans(op: CsrOp, s: Source, was: Word, x: Word, imm: nat)
    requires imm < 32 && (s.Immediate? ==> x == imm)
    ensures CsrMeans(op, was, x, CsrValue(CsrCode(op, s), was, x, imm))
  {
    match op
    case Rw =>
    case Rs => OrBits(was, x);
    case Rc => NotBits(x); AndBits(was, BitNot(x));
  }

  lemma {:induction false} CsrValueIs(op: CsrOp, s: Source, was: Word, a: Word, x: Word, imm: nat)
    requires imm < 32 && x == if s.Register? then a else imm
    ensures CsrMeans(op, was, x, CsrValue(CsrCode(op, s), was, a, imm))
  {
    WrittenMeans(op, s, was, x, imm);
  }

  lemma {:induction false} SystemCsr(regs: seq<Word>, csr: Csrs, ir: Word, pc: Word, cycle: Word, csr': Csrs, o: Outcome,
                                     was: Word, w: Word)
    requires |regs| == 32 && SystemDone(regs, csr, ir, pc, cycle, csr', o) && Funct3(ir) % 4 != 0
    requires was == ReadCsr(csr, Imm12(ir), cycle) && w == CsrValue(Funct3(ir), was, regs[Rs1(ir)], Rs1(ir))
    ensures o == Continue(Rd(ir), was, pc) && csr' == WriteCsr(csr, Imm12(ir), w)
  {
  }

  lemma {:induction false} RunsCsr(m: Machine, ir: Word, m': Machine, op: CsrOp, s: Source, r: Control, x: Word)
    returns (was: Word, w: Word)
    requires Sound(m) && Runs(m, ir, m') && Opcode(ir) == 0x73 && Funct3(ir) == CsrCode(op, s) && Imm12(ir) == Number(r)
    requires x == if s.Register? then m.regs[Rs1(ir)] else Rs1(ir)
    ensures Next(m, m') && Shows(m.csr, r, was) && CsrMeans(op, was, x, w)
    ensures Written(m.regs, Rd(ir), was, m'.regs) && m'.mem == m.mem && m'.offset == m.offset
    ensures if ReadOnly(r) then OnlyPc(m.csr, m'.csr) else ControlSet(m.csr, r, w, m'.csr)
  {
    var o, mid, how :| Executed(m, ir, m'.mem, mid, o) && Finished(m, o, mid, m'.regs, m'.csr, how) && m'.offset == m.offset;
    var a, imm := m.regs[Rs1(ir)], Rs1(ir);
    was := ReadCsr(m.csr, Number(r), ThisCycle(m.csr));
    w := CsrValue(CsrCode(op, s), was, a, imm);
    CsrValueIs(op, s, was, a, x, imm);
    SystemCsr(m.regs, m.csr, ir, m.csr.pc, ThisCycle(m.csr), mid, o, was, w);
    GoesOn(m, ir, mid, o, how, m');
    ReadShows(m.csr, r);
    CsrSet(m.csr, r, w, mid, m'.csr);
  }

  lemma {:induction false} CsrSet(c: Csrs, r: Control, w: Word, mid: Csrs, d: Csrs)
    requires mid == WriteCsr(c, Number(r), w) && d == mid.(pc := d.pc, cyclel := d.cyclel, cycleh := d.cycleh)
    ensures if ReadOnly(r) then OnlyPc(c, d) else ControlSet(c, r, w, d)
  {
    WriteSets(c, r, w);
    SetBeside(c, r, w, mid, d);
  }

  /** The pc and the cycle counter are not among the control registers that are named. */
  lemma {:induction false} SetBeside(c: Csrs, r: Control, w: Word, mid: Csrs, d: Csrs)
    requires d == mid.(pc := d.pc, cyclel := d.cyclel, cycleh := d.cycleh)
    requires !ReadOnly(r) ==> ControlSet(c, r, w, mid)
    ensures !ReadOnly(r) ==> ControlSet(c, r, w, d)
  {
  }

  lemma {:induction false} CsrObeys(i: Instr, ir: Word, m: Machine, m': Machine)
    requires i.Csr? && Legal(i) && Sound(m) && ir == Encode(i) && Runs(m, ir, m')
    ensures Obeys(i, m, m')
  {
    var s := i.source;
    FieldsI(ir, Number(i.control), if s.Register? then s.no else s.value, CsrCode(i.csrOp, s), i.rd, 0x73);
    var was, w := RunsCsr(m, ir, m', i.csrOp, s, i.control, SourceValue(m, s));
  }

  // ----- every instruction -----

  lemma {:induction false} RunObeys(i: Instr, ir: Word, m: Machine, m': Machine)
    requires Legal(i) && Sound(m) && ir == Encode(i) && Runs(m, ir, m')
    ensures Obeys(i, m, m')
  {
    match i
    case Lui(_, _) => UpperObeys(i, ir, m, m');
    case Auipc(_, _) => UpperObeys(i, ir, m, m');
    case Jal(_, _) => JalObeys(i, ir, m, m');
    case Jalr(_, _, _) => JalrObeys(i, ir, m, m');
    case Branch(_, _, _, _) => BranchObeys(i, ir, m, m');
    case Load(_, _, _, _) => LoadObeys(i, ir, m, m');
    case Store(_, _, _, _) => StoreObeys(i, ir, m, m');
    case OpImm(_, _, _, _) => OpImmObeys(i, ir, m, m');
    case Op(_, _, _, _) => OpObeys(i, ir, m, m');
    case Csr(_, _, _, _) => CsrObeys(i, ir, m, m');
    case Amo(_, _, _, _) => AmoObeys(i, ir, m, m');
  }

  /** A step at whose pc an instruction stands does what the manual says of it. */
  lemma {:induction false} StepObeys(i: Instr, m: Machine, r: Record, m': Machine)
    requires Stepped(m, r, m') && Legal(i) && Instruction(Ticked(m, r)) == Some(Encode(i))
    ensures Obeys(i, Ticked(m, r), m')
  {
    RunObeys(i, Encode(i), Ticked(m, r), m');
  }

  /** Whatever instruction stands at the pc, the step has done what the manual says of it. */
  ghost predicate Lawful(m: Machine, r: Record, m': Machine)
    requires Sound(m)
  {
    forall i :: Legal(i) && Instruction(Ticked(m, r)) == Some(Encode(i)) ==> Obeys(i, Ticked(m, r), m')
  }

  lemma {:induction false} StepLawful(m: Machine, r: Record, m': Machine)
    requires Stepped(m, r, m')
    ensures Lawful(m, r, m')
  {
    forall i | Legal(i) && Instruction(Ticked(m, r)) == Some(Encode(i)) ensures Obeys(i, Ticked(m, r), m') {
      StepObeys(i, m, r, m');
    }
  }
}
