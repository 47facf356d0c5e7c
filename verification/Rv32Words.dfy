/**
 Words, instruction fields, arithmetic and memory bytes of a RISC-V processor
 (course1/mini-rv32ima/mini-rv32ima.h).

 Shifts and masks that cut a field out of a word are written as divisions and remainders.
 */
module Rv32Words {
  import opened Powers
  import opened BitStream
  import opened Wrappers

  // ----- words -----

  const TWO_31 := 0x8000_0000
  const TWO_32 := 0x1_0000_0000
  const TWO_64 := 0x1_0000_0000_0000_0000

  type Word = x: int | 0 <= x < TWO_32

  function Wrap(x: int): Word { x % TWO_32 }

  function Signed(x: Word): int { if x >= TWO_31 then x - TWO_32 else x }

  /** The bits of a and b, combined by f; w bits. */
  function Bitwise(f: (Bit, Bit) -> Bit, a: nat, b: nat, w: nat): (r: nat)
    ensures r < Pow2(w)
  {
    if w == 0 then 0 else 2 * Bitwise(f, a / 2, b / 2, w - 1) + f(a % 2, b % 2)
  }

  lemma Pow32()
    ensures Pow2(32) == TWO_32
  {
    assert Pow2(4) == 16;
    Pow2Add(4, 4);
    Pow2Add(8, 8);
    Pow2Add(16, 16);
  }

  function BitAnd(a: Word, b: Word): Word { Pow32(); Bitwise((x, y) => if x == 1 then y else 0, a, b, 32) }

  function BitOr(a: Word, b: Word): Word { Pow32(); Bitwise((x, y) => if x == 1 then 1 else y, a, b, 32) }

  function BitXor(a: Word, b: Word): Word { Pow32(); Bitwise((x, y) => if x == y then 0 else 1, a, b, 32) }

  function BitNot(a: Word): Word { TWO_32 - 1 - a }

  /** Division that truncates toward zero, and its remainder. */
  function Quotient(a: int, b: int): int
    requires b != 0
  {
    var q := (if a < 0 then -a else a) / (if b < 0 then -b else b);
    if (a < 0) == (b < 0) then q else -q
  }

  function Remainder(a: int, b: int): int
    requires b != 0
  {
    a - b * Quotient(a, b)
  }

  // ----- fields of an instruction -----

  function Opcode(ir: Word): nat { ir % 0x80 }

  function Rd(ir: Word): (r: nat) ensures r < 32 { ir / 0x80 % 32 }

  function Funct3(ir: Word): nat { ir / 0x1000 % 8 }

  function Rs1(ir: Word): (r: nat) ensures r < 32 { ir / 0x8000 % 32 }

  function Rs2(ir: Word): (r: nat) ensures r < 32 { ir / 0x10_0000 % 32 }

  function Imm12(ir: Word): (r: nat) ensures r < 0x1000 { ir / 0x10_0000 }

  function Extend12(imm: nat): Word
    requires imm < 0x1000
  {
    if imm >= 0x800 then TWO_32 - 0x1000 + imm else imm
  }

  function JalOffset(ir: Word): Word
  {
    var r := ir / TWO_31 * 0x10_0000 + ir / 0x20_0000 % 1024 * 2 + ir / 0x10_0000 % 2 * 2048 + ir / 0x1000 % 256 * 0x1000;
    if r >= 0x10_0000 then TWO_32 - 0x20_0000 + r else r
  }

  function BranchOffset(ir: Word): Word
  {
    var r := ir / 0x100 % 16 * 2 + ir / 0x200_0000 % 64 * 32 + ir / 0x80 % 2 * 2048 + ir / TWO_31 * 4096;
    if r >= 0x1000 then TWO_32 - 0x2000 + r else r
  }

  function StoreOffset(ir: Word): Word { Extend12(ir / 0x80 % 32 + ir / 0x200_0000 * 32) }

  lemma {:induction false} DivMod(n: int, q: int, r: int, d: int)
    requires d > 0 && n == q * d + r && 0 <= r < d
    ensures n / d == q && n % d == r
  {
    var k := q - n / d;
    assert d * k == n % d - r;
    assert k >= 1 ==> d * k >= d;
    assert k <= -1 ==> d * k <= -d;
  }

  /** The J, B and S formats of section 2.3 of the RISC-V Unprivileged ISA: sign bit, and the other bits
      of the offset where they stand in the instruction. */
  lemma {:induction false} JalDecodes(ir: Word, sign: nat, bits10to1: nat, bit11: nat, bits19to12: nat, low: nat)
    requires sign < 2 && bits10to1 < 1024 && bit11 < 2 && bits19to12 < 256 && low < 0x1000
    requires ir == sign * TWO_31 + bits10to1 * 0x20_0000 + bit11 * 0x10_0000 + bits19to12 * 0x1000 + low
    ensures Signed(JalOffset(ir)) == bits19to12 * 0x1000 + bit11 * 0x800 + bits10to1 * 2 - sign * 0x10_0000
  {
    var a, b := sign * 0x400 + bits10to1, (sign * 0x400 + bits10to1) * 2 + bit11;
    DivMod(ir, b * 0x100 + bits19to12, low, 0x1000);
    DivMod(b * 0x100 + bits19to12, b, bits19to12, 0x100);
    DivMod(ir, b, bits19to12 * 0x1000 + low, 0x10_0000);
    DivMod(b, a, bit11, 2);
    DivMod(ir, a, bit11 * 0x10_0000 + bits19to12 * 0x1000 + low, 0x20_0000);
    DivMod(a, sign, bits10to1, 0x400);
    DivMod(ir, sign, ir - sign * TWO_31, TWO_31);
  }

  lemma {:induction false} BranchDecodes(ir: Word, sign: nat, bits10to5: nat, mid: nat, bits4to1: nat, bit11: nat, low: nat)
    requires sign < 2 && bits10to5 < 64 && mid < 0x2000 && bits4to1 < 16 && bit11 < 2 && low < 0x80
    requires ir == sign * TWO_31 + bits10to5 * 0x200_0000 + mid * 0x1000 + bits4to1 * 0x100 + bit11 * 0x80 + low
    ensures Signed(BranchOffset(ir)) == bit11 * 0x800 + bits10to5 * 32 + bits4to1 * 2 - sign * 0x1000
  {
    var a := sign * 64 + bits10to5;
    var b := a * 0x2000 + mid;
    DivMod(ir, (b * 16 + bits4to1) * 2 + bit11, low, 0x80);
    DivMod((b * 16 + bits4to1) * 2 + bit11, b * 16 + bits4to1, bit11, 2);
    DivMod(ir, b * 16 + bits4to1, bit11 * 0x80 + low, 0x100);
    DivMod(b * 16 + bits4to1, b, bits4to1, 16);
    DivMod(ir, a, ir - a * 0x200_0000, 0x200_0000);
    DivMod(a, sign, bits10to5, 64);
    DivMod(ir, sign, ir - sign * TWO_31, TWO_31);
  }

  lemma {:induction false} StoreDecodes(ir: Word, sign: nat, bits10to5: nat, mid: nat, bits4to0: nat, low: nat)
    requires sign < 2 && bits10to5 < 64 && mid < 0x2000 && bits4to0 < 32 && low < 0x80
    requires ir == sign * TWO_31 + bits10to5 * 0x200_0000 + mid * 0x1000 + bits4to0 * 0x80 + low
    ensures Signed(StoreOffset(ir)) == bits10to5 * 32 + bits4to0 - sign * 0x800
  {
    assert ir / 0x80 == sign * 0x100_0000 + bits10to5 * 0x4_0000 + mid * 32 + bits4to0;
    assert ir / 0x200_0000 == sign * 64 + bits10to5;
  }

  // ----- arithmetic -----

  /** The M extension. */
  function Multiply(op: nat, a: Word, b: Word): (r: Word)
    requires op < 8
  {
    match op
    case 0 => Wrap(a * b)
    case 1 => Wrap(Signed(a) * Signed(b) / TWO_32)
    case 2 => Wrap(Signed(a) * b % TWO_64 / TWO_32)
    case 3 => Wrap(a * b / TWO_32)
    case 4 => if b == 0 then TWO_32 - 1
              else if Signed(a) == -TWO_31 && Signed(b) == -1 then a
              else Wrap(Quotient(Signed(a), Signed(b)))
    case 5 => if b == 0 then TWO_32 - 1 else Wrap(a / b)
    case 6 => if b == 0 then a
              else if Signed(a) == -TWO_31 && Signed(b) == -1 then 0
              else Wrap(Remainder(Signed(a), Signed(b)))
    case 7 => if b == 0 then a else Wrap(a % b)
  }

  function Arithmetic(op: nat, isReg: bool, alternative: bool, a: Word, b: Word): (r: Word)
    requires op < 8
  {
    match op
    case 0 => if isReg && alternative then Wrap(a - b) else Wrap(a + b)
    case 1 => Wrap(a * Pow2(b % 32))
    case 2 => if Signed(a) < Signed(b) then 1 else 0
    case 3 => if a < b then 1 else 0
    case 4 => BitXor(a, b)
    case 5 => if alternative then Wrap(Signed(a) / Pow2(b % 32)) else Wrap(a / Pow2(b % 32))
    case 6 => BitOr(a, b)
    case 7 => BitAnd(a, b)
  }

  predicate Taken(op: nat, a: Word, b: Word)
  {
    match op
    case 0 => a == b
    case 1 => a != b
    case 4 => Signed(a) < Signed(b)
    case 5 => Signed(a) >= Signed(b)
    case 6 => a < b
    case 7 => a >= b
    case _ => false
  }

  /** What an atomic operation stores; None for one that is not supported. */
  function Atomic(op: nat, was: Word, b: Word): (r: Option<Word>)
  {
    match op
    case 0 => Some(Wrap(b + was))
    case 1 => Some(b)
    case 4 => Some(BitXor(b, was))
    case 8 => Some(BitOr(b, was))
    case 12 => Some(BitAnd(b, was))
    case 16 => Some(if Signed(b) < Signed(was) then b else was)
    case 20 => Some(if Signed(b) > Signed(was) then b else was)
    case 24 => Some(if b < was then b else was)
    case 28 => Some(if b > was then b else was)
    case _ => None
  }

  // ----- memory -----

  /** n bytes, the lowest first. */
  function LoadBytes(mem: seq<Byte>, a: nat, n: nat): (v: nat)
    requires a + n <= |mem|
    decreases n
  {
    if n == 0 then 0 else (mem[a] as int) + 0x100 * LoadBytes(mem, a + 1, n - 1)
  }

  function StoreBytes(mem: seq<Byte>, a: nat, n: nat, v: nat): (mem': seq<Byte>)
    requires a + n <= |mem|
    ensures |mem'| == |mem|
    decreases n
  {
    if n == 0 then mem else StoreBytes(mem[a := v % 0x100], a + 1, n - 1, v / 0x100)
  }

  function Read32(mem: seq<Byte>, a: nat): (w: Word)
    requires a + 4 <= |mem|
  {
    Wrap(LoadBytes(mem, a, 4))
  }

  function Write32(mem: seq<Byte>, a: nat, w: Word): (mem': seq<Byte>)
    requires a + 4 <= |mem|
  {
    StoreBytes(mem, a, 4, w)
  }

  lemma {:induction false} StoreKeeps(mem: seq<Byte>, a: nat, n: nat, v: nat, i: nat)
    requires a + n <= |mem| && i < |mem| && !(a <= i < a + n)
    ensures StoreBytes(mem, a, n, v)[i] == mem[i]
    decreases n
  {
    if n > 0 {
      StoreKeeps(mem[a := v % 0x100], a + 1, n - 1, v / 0x100, i);
    }
  }

  /** Loading what was stored. */
  lemma {:induction false} LoadStored(mem: seq<Byte>, a: nat, n: nat, v: nat)
    requires a + n <= |mem| && v < Pow2(8 * n)
    ensures LoadBytes(StoreBytes(mem, a, n, v), a, n) == v
    decreases n
  {
    if n > 0 {
      Pow2Add(8, 8 * (n - 1));
      assert v / 0x100 < Pow2(8 * (n - 1));
      var mem1 := mem[a := v % 0x100];
      LoadStored(mem1, a + 1, n - 1, v / 0x100);
      StoreKeeps(mem1, a + 1, n - 1, v / 0x100, a);
    }
  }

  lemma {:induction false} SignedWrap(x: int)
    requires -TWO_31 <= x < TWO_31
    ensures Signed(Wrap(x)) == x
  {
  }

  lemma {:induction false} WrapSigned(a: Word)
    ensures Wrap(Signed(a)) == a
  {
  }

  function Abs(x: int): nat { if x < 0 then -x else x }

  /** A quotient is no larger than the dividend, and at most half of it unless the divisor is 1 or -1. */
  lemma {:induction false} QuotientBound(x: nat, y: nat)
    requires y >= 1
    ensures 0 <= x / y <= x && (y >= 2 ==> 2 * (x / y) <= x) && x == y * (x / y) + x % y
  {
    var k := x / y;
    assert y * k <= x;
    if y >= 2 {
      assert y * k == 2 * k + (y - 2) * k;
    }
  }

  /** The remainder has the sign of the dividend and is smaller than the divisor. */
  lemma {:induction false} RemainderIs(a: int, b: int)
    requires b != 0
    ensures Remainder(a, b) == if a < 0 then -(Abs(a) % Abs(b)) else Abs(a) % Abs(b)
  {
    var x: int, y: int := Abs(a), Abs(b);
    var k := x / y;
    assert x == y * k + x % y;
    assert b * Quotient(a, b) == if a < 0 then -(y * k) else y * k;
  }

  lemma {:induction false} SignedDivision(s: int, t: int)
    requires -TWO_31 <= s < TWO_31 && -TWO_31 <= t < TWO_31 && t != 0 && !(s == -TWO_31 && t == -1)
    ensures -TWO_31 <= Quotient(s, t) < TWO_31 && -TWO_31 <= Remainder(s, t) < TWO_31
  {
    QuotientBound(Abs(s), Abs(t));
    RemainderIs(s, t);
  }

  /** The M extension: quotient and remainder make up the dividend, also for a divisor of 0 and for the
      one overflow. */
  lemma {:induction false} DivisionLaw(a: Word, b: Word)
    ensures Wrap(Signed(b) * Signed(Multiply(4, a, b)) + Signed(Multiply(6, a, b))) == a
  {
    var s, t := Signed(a), Signed(b);
    WrapSigned(a);
    if b != 0 && !(s == -TWO_31 && t == -1) {
      SignedDivision(s, t);
      SignedWrap(Quotient(s, t));
      SignedWrap(Remainder(s, t));
    }
  }

  lemma {:induction false} UnsignedDivisionLaw(a: Word, b: Word)
    ensures Wrap(b * Multiply(5, a, b) + Multiply(7, a, b)) == a
    ensures b != 0 ==> Multiply(7, a, b) < b
  {
    if b == 0 {
      assert Multiply(7, a, b) == a && b * Multiply(5, a, b) == 0;
    } else {
      var q: int, r: int := (a as int) / b, (a as int) % b;
      QuotientBound(a, b);
      assert Multiply(5, a, b) == q && Multiply(7, a, b) == r;
      assert b * q + r == a;
    }
  }

  lemma {:induction false} WrapShift(x: int, k: int)
    ensures Wrap(x + TWO_32 * k) == Wrap(x)
  {
  }

  /** The place of an address in RAM, and back. */
  lemma {:induction false} PlaceWraps(base: Word, offset: Word, start: Word)
    ensures var address := Wrap((base as int) + offset);
            var place := Wrap((base as int) + offset - start);
            place == Wrap((address as int) - start) && address == Wrap((place as int) + start)
  {
    var x := (base as int) + offset;
    WrapShift(x % TWO_32 - start, x / TWO_32);
    WrapShift(x - start - (x - start) / TWO_32 * TWO_32 + start, (x - start) / TWO_32);
  }

  lemma {:induction false} ProductBound(x: nat, y: nat, m: nat)
    requires x <= m && y <= m
    ensures 0 <= x * y <= m * m
  {
    assert x * y <= m * y && m * y <= m * m;
  }

  lemma {:induction false} SignedProduct(a: Word, b: Word)
    ensures var p := Signed(a) * Signed(b); Wrap(a * b) == Wrap(p) && -TWO_31 <= p / TWO_32 < TWO_31
  {
    var s, t := Signed(a), Signed(b);
    var i, j := if a >= TWO_31 then 1 else 0, if b >= TWO_31 then 1 else 0;
    assert (a as int) * b == s * t + TWO_32 * (i * t + j * s + TWO_32 * i * j);
    WrapShift(s * t, i * t + j * s + TWO_32 * i * j);
    ProductBound(Abs(s), Abs(t), TWO_31);
    assert Abs(s * t) == Abs(s) * Abs(t);
  }

  /** The M extension: the upper and the lower half make up the product. */
  lemma {:induction false} ProductLaw(a: Word, b: Word)
    ensures TWO_32 * Signed(Multiply(1, a, b)) + Multiply(0, a, b) == Signed(a) * Signed(b)
  {
    var p := Signed(a) * Signed(b);
    SignedProduct(a, b);
    SignedWrap(p / TWO_32);
  }

  lemma {:induction false} HighHalf(p: int, h: int, l: int)
    requires p == TWO_32 * h + l && 0 <= l < TWO_32 && -TWO_31 <= h < TWO_31
    ensures Wrap(p % TWO_64 / TWO_32) == Wrap(h) && Wrap(p) == l
  {
    var k := if h < 0 then 1 else 0;
    assert p % TWO_64 == TWO_32 * (h + TWO_32 * k) + l;
    WrapShift(h, k);
    WrapShift(l, h);
  }

  lemma {:induction false} MixedHigh(s: int, b: Word)
    requires -TWO_31 <= s < TWO_31
    ensures -TWO_31 <= s * b / TWO_32 < TWO_31
  {
    FactorBound(-TWO_31, s, b);
    FactorBound(s, TWO_31 - 1, b);
  }

  lemma {:induction false} FactorBound(x: int, y: int, b: int)
    requires x <= y && 0 <= b
    ensures x * b <= y * b
  {
    assert (y - x) * b >= 0;
  }

  lemma {:induction false} MixedProduct(a: Word, b: Word)
    ensures Wrap((a as int) * b) == Wrap(Signed(a) * b)
  {
    var i: int := if a >= TWO_31 then 1 else 0;
    assert (a as int) * b == Signed(a) * b + TWO_32 * (i * b);
    WrapShift(Signed(a) * b, i * b);
  }

  lemma {:induction false} MixedProductLaw(a: Word, b: Word)
    ensures TWO_32 * Signed(Multiply(2, a, b)) + Multiply(0, a, b) == Signed(a) * b
  {
    var p := Signed(a) * b;
    MixedHigh(Signed(a), b);
    MixedProduct(a, b);
    HighHalf(p, p / TWO_32, p % TWO_32);
    SignedWrap(p / TWO_32);
  }

  lemma {:induction false} UnsignedProductLaw(a: Word, b: Word)
    ensures TWO_32 * (Multiply(3, a, b) as int) + Multiply(0, a, b) == (a as int) * b
  {
    ProductBound(a, b, TWO_32 - 1);
    var p := (a as int) * b;
    assert p / TWO_32 < TWO_32;
  }

  /** SB, SH and SW. */
  function StoreSize(op: nat): (n: nat)
    requires op <= 2
    ensures n <= 4
  {
    match op
    case 0 => 1
    case 1 => 2
    case 2 => 4
  }

  /** LB, LH, LW, LBU and LHU. */
  function LoadValue(mem: seq<Byte>, a: nat, op: nat): (r: Option<Word>)
    requires a + 4 <= |mem|
  {
    match op
    case 0 => var v := LoadBytes(mem, a, 1); Some(Wrap(if v >= 0x80 then v - 0x100 else v))
    case 1 => var v := LoadBytes(mem, a, 2); Some(Wrap(if v >= 0x8000 then v - 0x10000 else v))
    case 2 => Some(Read32(mem, a))
    case 4 => Some(Wrap(LoadBytes(mem, a, 1)))
    case 5 => Some(Wrap(LoadBytes(mem, a, 2)))
    case _ => None
  }

  /** Loads, byte by byte: the sign is that of the highest bit loaded. */
  lemma {:induction false} LoadedBytes(mem: seq<Byte>, a: nat, low: int, half: int)
    requires a + 4 <= |mem| && low == mem[a] && half == (mem[a] as int) + 0x100 * (mem[a + 1] as int)
    ensures LoadValue(mem, a, 0) == Some(if low >= 0x80 then TWO_32 - 0x100 + low else low)
    ensures LoadValue(mem, a, 1) == Some(if half >= 0x8000 then TWO_32 - 0x10000 + half else half)
    ensures LoadValue(mem, a, 4) == Some(low) && LoadValue(mem, a, 5) == Some(half)
  {
    assert LoadBytes(mem, a, 1) == low && LoadBytes(mem, a + 1, 1) == mem[a + 1];
    assert LoadBytes(mem, a, 2) == half;
  }
}
