/**
 What the computing instructions of RV32IMA mean (chapters 2, 13 and 14 of the RISC-V Unprivileged ISA):
 sums and products modulo 2^32, shifts and logic bit by bit, comparisons as orders.
 */
module Rv32Alu {
  import opened Powers
  import opened BitStream
  import opened Rv32Words
  import Words

  // ----- bits of a word -----

  ghost function Bits(x: Word): (bits: seq<Bit>)
    ensures |bits| == 32
  {
    BitsOf(x, 32)
  }

  ghost function Copies(b: Bit, n: nat): (bits: seq<Bit>)
    ensures |bits| == n && forall i :: 0 <= i < n ==> bits[i] == b
  {
    seq(n, _ => b)
  }

  lemma {:induction false} LowBits(x: nat)
    ensures BitsOf(x % 0x1_0000_0000, 32) == BitsOf(x, 32)
  {
    Pow32();
    BitsOfShifted(x / 0x1_0000_0000, x % 0x1_0000_0000, 32, 0);
  }

  lemma {:induction false} Pow31()
    ensures Pow2(31) == 0x8000_0000
  {
    Pow32();
    assert Pow2(32) == 2 * Pow2(31);
  }

  /** A word without its lowest bit, and b in front. */
  lemma {:induction false} HalfWord(w: Word, b: Bit)
    ensures Bits(w / 2 + b * 0x8000_0000) == [b] + Bits(w)[..31]
  {
    Pow31();
    BitsOfShifted(b, w / 2, 31, 1);
    assert BitsOf(b, 1) == [b];
  }

  lemma {:induction false} TopBit(w: Word, b: Bit)
    requires b == if w >= 0x8000_0000 then 1 else 0
    ensures Bits(w) == [b] + BitsOf(w, 31)
  {
    Pow31();
    BitsOfShifted(b, w - b * 0x8000_0000, 31, 1);
    BitsOfShifted(b, w - b * 0x8000_0000, 31, 0);
    assert BitsOf(b, 1) == [b];
  }

  lemma {:induction false} WithoutTop(w: Word)
    ensures Bits(w)[1..] == BitsOf(w, 31)
  {
    TopBit(w, if w >= 0x8000_0000 then 1 else 0);
  }

  lemma {:induction false} DoubleWord(w: Word, x: Word)
    requires x == 2 * w % 0x1_0000_0000
    ensures Bits(x) == Bits(w)[1..] + [0]
  {
    LowBits(2 * w);
    WithoutTop(w);
    LastBit(w, 0, 32);
  }

  lemma {:induction false} SignBit(a: Word)
    ensures Bits(a)[0] == if a >= 0x8000_0000 then 1 else 0
  {
    TopBit(a, if a >= 0x8000_0000 then 1 else 0);
  }

  ghost function Combined(f: (Bit, Bit) -> Bit, a: seq<Bit>, b: seq<Bit>): (c: seq<Bit>)
    requires |a| == |b|
    ensures |c| == |a| && forall i :: 0 <= i < |a| ==> c[i] == f(a[i], b[i])
  {
    seq(|a|, i requires 0 <= i < |a| => f(a[i], b[i]))
  }

  lemma {:induction false} CombinedBits(f: (Bit, Bit) -> Bit, a: nat, b: nat, w: nat)
    ensures BitsOf(Bitwise(f, a, b, w), w) == Combined(f, BitsOf(a, w), BitsOf(b, w))
  {
    if w > 0 {
      CombinedBits(f, a / 2, b / 2, w - 1);
      var r := Bitwise(f, a, b, w);
      assert r / 2 == Bitwise(f, a / 2, b / 2, w - 1) && r % 2 == f(a % 2, b % 2);
    }
  }

  lemma {:induction false} AndBits(a: Word, b: Word)
    ensures Bits(BitAnd(a, b)) == Words.And(Bits(a), Bits(b))
  {
    CombinedBits((x, y) => if x == 1 then y else 0, a, b, 32);
  }

  lemma {:induction false} OrBits(a: Word, b: Word)
    ensures Bits(BitOr(a, b)) == Words.Or(Bits(a), Bits(b))
  {
    CombinedBits((x, y) => if x == 1 then 1 else y, a, b, 32);
  }

  lemma {:induction false} XorBits(a: Word, b: Word)
    ensures Bits(BitXor(a, b)) == Words.Xor(Bits(a), Bits(b))
  {
    CombinedBits((x, y) => if x == y then 0 else 1, a, b, 32);
  }

  lemma {:induction false} InvertedBits(a: nat, w: nat)
    requires a < Pow2(w)
    ensures BitsOf(Pow2(w) - 1 - a, w) == Words.Invert(BitsOf(a, w))
  {
    if w > 0 {
      var r := Pow2(w) - 1 - a;
      assert r / 2 == Pow2(w - 1) - 1 - a / 2 && r % 2 == 1 - a % 2;
      InvertedBits(a / 2, w - 1);
    }
  }

  lemma {:induction false} NotBits(a: Word)
    ensures Bits(BitNot(a)) == Words.Invert(Bits(a))
  {
    Pow32();
    InvertedBits(a, 32);
  }

  // ----- sums and shifts -----

  /** x and y differ by a multiple of 2^32. */
  ghost predicate Congruent(x: int, y: int) { (x - y) % 0x1_0000_0000 == 0 }

  lemma {:induction false} WrapCongruent(x: int)
    ensures Congruent(Wrap(x), x)
  {
    assert Wrap(x) - x == TWO_32 * -(x / TWO_32);
  }

  /** The number in two's complement. */
  lemma {:induction false} SignedIs(x: Word)
    ensures -0x8000_0000 <= Signed(x) < 0x8000_0000 && Congruent(Signed(x), x)
  {
  }

  lemma {:induction false} DoubledWrap(y: int)
    ensures Wrap(2 * y) == 2 * Wrap(y) % 0x1_0000_0000
  {
    WrapShift(2 * Wrap(y), 2 * (y / TWO_32));
  }

  /** Doubled s times. */
  ghost function Doubled(a: Word, s: nat): (w: Word) { if s == 0 then a else Wrap(2 * Doubled(a, s - 1)) }

  /** Halved s times, rounding down. */
  ghost function Halved(x: int, s: nat): (y: int)
    decreases s
  {
    if s == 0 then x else Halved(x / 2, s - 1)
  }

  lemma {:induction false} DoubledIs(a: Word, s: nat)
    ensures Doubled(a, s) == Wrap(a * Pow2(s))
  {
    if s > 0 {
      DoubledIs(a, s - 1);
      DoubledProduct(a, Pow2(s - 1));
      DoubledWrap(a * Pow2(s - 1));
    }
  }

  lemma {:induction false} HalvedIs(x: int, s: nat)
    ensures Halved(x, s) == x / Pow2(s)
    decreases s
  {
    if s > 0 {
      HalvedIs(x / 2, s - 1);
      HalvedQuotient(x, Pow2(s - 1));
    }
  }

  lemma {:induction false} DoubledBits(a: Word, s: nat)
    requires s <= 32
    ensures Bits(Doubled(a, s)) == Bits(a)[s..] + Copies(0, s)
    decreases s
  {
    if s > 0 {
      DoubledBits(a, s - 1);
      DoubleWord(Doubled(a, s - 1), Doubled(a, s));
      DroppedFirst(Bits(a), s - 1);
    }
  }

  lemma {:induction false} DroppedFirst(bits: seq<Bit>, s: nat)
    requires s < |bits|
    ensures (bits[s..] + Copies(0, s))[1..] + [0] == bits[s + 1..] + Copies(0, s + 1)
  {
  }

  lemma {:induction false} KeptFront(bits: seq<Bit>, b: Bit, s: nat)
    requires |bits| == 32 && 0 < s <= 32
    ensures Copies(b, s - 1) + ([b] + bits[..31])[..32 - (s - 1)] == Copies(b, s) + bits[..32 - s]
  {
  }

  lemma {:induction false} HalvedQuotient(x: int, p: int)
    requires p > 0
    ensures x / (2 * p) == x / 2 / p
  {
    var q := x / 2 / p;
    var r := x / 2 - q * p;
    assert 0 <= r < p;
    DivMod(x, q, 2 * r + x % 2, 2 * p);
  }

  lemma {:induction false} HalfWrap(x: int, b: Bit)
    requires -0x1_0000_0000 <= x < 0x1_0000_0000 && b == if x < 0 then 1 else 0
    ensures Wrap(x / 2) == Wrap(x) / 2 + b * 0x8000_0000
  {
  }

  /** A shift to the right fills up with the sign. */
  lemma {:induction false} HalvedBits(x: int, s: nat, b: Bit)
    requires -0x1_0000_0000 <= x < 0x1_0000_0000 && s <= 32 && b == if x < 0 then 1 else 0
    ensures Bits(Wrap(Halved(x, s))) == Copies(b, s) + Bits(Wrap(x))[..32 - s]
    decreases s
  {
    if s > 0 {
      HalvedBits(x / 2, s - 1, b);
      HalfWord(Wrap(x), b);
      HalfWrap(x, b);
      KeptFront(Bits(Wrap(x)), b, s);
    }
  }

  lemma {:induction false} ShiftedLeft(a: Word, s: nat)
    requires s < 32
    ensures Bits(Wrap(a * Pow2(s))) == Bits(a)[s..] + Copies(0, s)
  {
    DoubledIs(a, s);
    DoubledBits(a, s);
  }

  lemma {:induction false} ShiftedDown(x: int, s: nat, b: Bit, w: Word)
    requires s < 32 && -0x1_0000_0000 <= x < 0x1_0000_0000 && b == (if x < 0 then 1 else 0) && w == Wrap(x)
    ensures Bits(Wrap(x / Pow2(s))) == Copies(b, s) + Bits(w)[..32 - s]
  {
    HalvedIs(x, s);
    HalvedBits(x, s, b);
  }

  lemma {:induction false} WrapWord(a: Word)
    ensures Wrap(a) == a
  {
  }

  lemma {:induction false} ShiftedRight(a: Word, s: nat)
    requires s < 32
    ensures Bits(Wrap(a / Pow2(s))) == Copies(0, s) + Bits(a)[..32 - s]
  {
    WrapWord(a);
    ShiftedDown(a, s, 0, a);
  }

  lemma {:induction false} ShiftedSigned(a: Word, s: nat)
    requires s < 32
    ensures Bits(Wrap(Signed(a) / Pow2(s))) == Copies(Bits(a)[0], s) + Bits(a)[..32 - s]
  {
    SignBit(a);
    WrapSigned(a);
    ShiftedDown(Signed(a), s, Bits(a)[0], a);
  }

  // ----- the instructions -----

  datatype Alu =
    | Add | Sub | Sll | Slt | Sltu | Xor | Srl | Sra | Or | And
    | Mul | Mulh | Mulhsu | Mulhu | Div | Divu | Rem | Remu

  /** x is q times y and a rest that is smaller than y and has the sign of x. */
  ghost predicate Divides(x: int, y: int, q: int, rest: int)
  {
    x == q * y + rest && Abs(rest) < Abs(y) && (x >= 0 ==> rest >= 0) && (x <= 0 ==> rest <= 0)
  }

  /** The divisions that have no quotient, or one that does not fit. */
  ghost predicate Overflows(x: int, y: int) { x == -0x8000_0000 && y == -1 }

  /** v is what the instruction makes of a and b. */
  ghost predicate Means(op: Alu, a: Word, b: Word, v: Word)
  {
    var s := b % 32;
    match op
    case Add => Congruent(v, a + b)
    case Sub => Congruent(v + b, a)
    case Sll => Bits(v) == Bits(a)[s..] + Copies(0, s)
    case Slt => v == if Signed(a) < Signed(b) then 1 else 0
    case Sltu => v == if a < b then 1 else 0
    case Xor => Bits(v) == Words.Xor(Bits(a), Bits(b))
    case Srl => Bits(v) == Copies(0, s) + Bits(a)[..32 - s]
    case Sra => Bits(v) == Copies(Bits(a)[0], s) + Bits(a)[..32 - s]
    case Or => Bits(v) == Words.Or(Bits(a), Bits(b))
    case And => Bits(v) == Words.And(Bits(a), Bits(b))
    case Mul => Congruent(v, a * b)
    case Mulh => Signed(v) == Signed(a) * Signed(b) / 0x1_0000_0000
    case Mulhsu => Signed(v) == Signed(a) * b / 0x1_0000_0000
    case Mulhu => v == a * b / 0x1_0000_0000
    case Div =>
      if b == 0 then Signed(v) == -1
      else if Overflows(Signed(a), Signed(b)) then v == a
      else exists rest :: Divides(Signed(a), Signed(b), Signed(v), rest)
    case Divu => if b == 0 then v == 0xffff_ffff else exists rest :: Divides(a, b, v, rest)
    case Rem =>
      if b == 0 then v == a
      else if Overflows(Signed(a), Signed(b)) then v == 0
      else exists q :: Divides(Signed(a), Signed(b), q, Signed(v))
    case Remu => if b == 0 then v == a else exists q :: Divides(a, b, q, v)
  }

  /** funct3, and the bits 5 and 0 of funct7. */
  function Code(op: Alu): (c: (nat, nat))
    ensures c.0 < 8 && (c.1 == 0 || c.1 == 1 || c.1 == 32)
  {
    match op
    case Add => (0, 0)  case Sub => (0, 32) case Sll => (1, 0)   case Slt => (2, 0)  case Sltu => (3, 0)
    case Xor => (4, 0)  case Srl => (5, 0)  case Sra => (5, 32)  case Or => (6, 0)   case And => (7, 0)
    case Mul => (0, 1)  case Mulh => (1, 1) case Mulhsu => (2, 1) case Mulhu => (3, 1)
    case Div => (4, 1)  case Divu => (5, 1) case Rem => (6, 1)   case Remu => (7, 1)
  }

  function Compute(op: Alu, isReg: bool, a: Word, b: Word): (v: Word)
  {
    var c := Code(op);
    if c.1 == 1 then Multiply(c.0, a, b) else Arithmetic(c.0, isReg, c.1 == 32, a, b)
  }

  ghost predicate Basic(op: Alu) { Code(op).1 != 1 }

  lemma {:induction false} LogicMeans(op: Alu, isReg: bool, a: Word, b: Word)
    requires op.Xor? || op.Or? || op.And?
    ensures Means(op, a, b, Compute(op, isReg, a, b))
  {
    match op
    case Xor => XorBits(a, b);
    case Or => OrBits(a, b);
    case And => AndBits(a, b);
  }

  lemma {:induction false} ShiftMeans(op: Alu, isReg: bool, a: Word, b: Word)
    requires op.Sll? || op.Srl? || op.Sra?
    ensures Means(op, a, b, Compute(op, isReg, a, b))
  {
    match op
    case Sll => ShiftedLeft(a, b % 32);
    case Srl => ShiftedRight(a, b % 32);
    case Sra => ShiftedSigned(a, b % 32);
  }

  lemma {:induction false} SumMeans(a: Word, b: Word)
    ensures Congruent(Wrap(a + b), a + b) && Congruent(Wrap(a - b) + b, a)
  {
    WrapCongruent(a + b);
    WrapCongruent(a - b);
  }

  lemma {:induction false} BasicMeans(op: Alu, isReg: bool, a: Word, b: Word)
    requires Basic(op) && (op.Sub? ==> isReg)
    ensures Means(op, a, b, Compute(op, isReg, a, b))
  {
    if op.Add? || op.Sub? {
      SumMeans(a, b);
    } else if op.Sll? || op.Srl? || op.Sra? {
      ShiftMeans(op, isReg, a, b);
    } else if !op.Slt? && !op.Sltu? {
      LogicMeans(op, isReg, a, b);
    }
  }

  lemma {:induction false} ProductMeans(op: Alu, isReg: bool, a: Word, b: Word)
    requires op.Mul? || op.Mulh? || op.Mulhsu? || op.Mulhu?
    ensures Means(op, a, b, Compute(op, isReg, a, b))
  {
    match op
    case Mul => WrapCongruent(a * b);
    case Mulh =>
      ProductLaw(a, b);
      DivMod(Signed(a) * Signed(b), Signed(Multiply(1, a, b)), Multiply(0, a, b), 0x1_0000_0000);
    case Mulhsu =>
      MixedProductLaw(a, b);
      DivMod(Signed(a) * b, Signed(Multiply(2, a, b)), Multiply(0, a, b), 0x1_0000_0000);
    case Mulhu =>
      UnsignedProductLaw(a, b);
      DivMod(a * b, Multiply(3, a, b), Multiply(0, a, b), 0x1_0000_0000);
  }

  lemma {:induction false} QuotientDivides(x: int, y: int)
    requires y != 0
    ensures Divides(x, y, Quotient(x, y), Remainder(x, y))
  {
    RemainderIs(x, y);
  }

  lemma {:induction false} SignedDivides(a: Word, b: Word)
    requires b != 0 && !Overflows(Signed(a), Signed(b))
    ensures Divides(Signed(a), Signed(b), Signed(Multiply(4, a, b)), Signed(Multiply(6, a, b)))
  {
    var x, y := Signed(a), Signed(b);
    QuotientDivides(x, y);
    SignedDivision(x, y);
    SignedWrap(Quotient(x, y));
    SignedWrap(Remainder(x, y));
  }

  lemma {:induction false} UnsignedDivides(a: Word, b: Word)
    requires b != 0
    ensures Divides(a, b, Multiply(5, a, b), Multiply(7, a, b))
  {
    QuotientBound(a, b);
  }

  lemma {:induction false} DivisionMeans(op: Alu, isReg: bool, a: Word, b: Word)
    requires op.Div? || op.Divu? || op.Rem? || op.Remu?
    ensures Means(op, a, b, Compute(op, isReg, a, b))
  {
    if b != 0 {
      UnsignedDivides(a, b);
      if !Overflows(Signed(a), Signed(b)) {
        SignedDivides(a, b);
      }
    }
  }

  /** Every computing instruction means what the manual says. */
  lemma {:induction false} ComputeMeans(op: Alu, isReg: bool, a: Word, b: Word)
    requires op.Sub? ==> isReg
    ensures Means(op, a, b, Compute(op, isReg, a, b))
  {
    if Basic(op) {
      BasicMeans(op, isReg, a, b);
    } else if op.Div? || op.Divu? || op.Rem? || op.Remu? {
      DivisionMeans(op, isReg, a, b);
    } else {
      ProductMeans(op, isReg, a, b);
    }
  }
}
