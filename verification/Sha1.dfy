/**
 SHA-1 (toys/sha1sum.c), against sections 5.1.1, 5.3.1 and 6.1.2 of FIPS 180-4.

 The program keeps a schedule of 16 words in place of 80, rotates pointers to the five working
 variables instead of moving them, and takes its input in pieces of any size.
 */
module Sha1 {
  import opened Powers
  import opened Sequences
  import opened BitStream
  import opened Words

  /** A 32-bit word is the sequence of its bits, most significant first. */
  type Word = w: seq<Bit> | |w| == 32 witness Zeros(32)

  // ----- the standard -----

  function Number(v: nat): Word { BitsOf(v, 32) }

  /** Addition modulo 2^k. */
  function Sum(x: seq<Bit>, y: seq<Bit>, k: nat): (w: seq<Bit>)
    ensures |w| == k
  {
    BitsOf(Value(x) + Value(y), k)
  }

  function Plus(x: Word, y: Word): Word { Sum(x, y, 32) }

  function Rol(x: Word, n: nat): Word
    requires n <= 32
  {
    x[n..] + x[..n]
  }

  function Ch(x: Word, y: Word, z: Word): Word { Xor(And(x, y), And(Invert(x), z)) }
  function Maj(x: Word, y: Word, z: Word): Word { Xor(Xor(And(x, y), And(x, z)), And(y, z)) }
  function Parity(x: Word, y: Word, z: Word): Word { Xor(Xor(x, y), z) }

  function F(t: nat, x: Word, y: Word, z: Word): Word
  {
    if t < 20 then Ch(x, y, z) else if 40 <= t < 60 then Maj(x, y, z) else Parity(x, y, z)
  }

  function K(t: nat): Word
  {
    Number(if t < 20 then 0x5A827999 else if t < 40 then 0x6ED9EBA1 else if t < 60 then 0x8F1BBCDC else 0xCA62C1D6)
  }

  /** The message schedule of 80 words. */
  function W(m: seq<Word>, t: nat): Word
    requires |m| == 16
  {
    if t < 16 then m[t]
    else Rol(Xor(Xor(Xor(W(m, t - 3), W(m, t - 8)), W(m, t - 14)), W(m, t - 16)), 1)
  }

  /** The five working variables. */
  datatype Vars = Vars(a: Word, b: Word, c: Word, d: Word, e: Word)

  /** One step: T becomes a, the others move on, and b is rotated. */
  function Step(v: Vars, t: nat, w: Word): Vars
  {
    var T := Plus(Plus(Plus(Plus(Rol(v.a, 5), F(t, v.b, v.c, v.d)), v.e), K(t)), w);
    Vars(T, v.a, Rol(v.b, 30), v.c, v.d)
  }

  function Steps(v: Vars, m: seq<Word>, t: nat): Vars
    requires |m| == 16
  {
    if t == 0 then v else Step(Steps(v, m, t - 1), t - 1, W(m, t - 1))
  }

  /** 80 steps, five for each of the 16 words. */
  function AllSteps(h: Vars, m: seq<Word>): Vars
    requires |m| == 16
  {
    Steps(h, m, 5 * |m|)
  }

  function Compress(h: Vars, m: seq<Word>): Vars
    requires |m| == 16
  {
    var v := AllSteps(h, m);
    Vars(Plus(v.a, h.a), Plus(v.b, h.b), Plus(v.c, h.c), Plus(v.d, h.d), Plus(v.e, h.e))
  }

  const H0 := Vars(Number(0x67452301), Number(0xEFCDAB89), Number(0x98BADCFE), Number(0x10325476), Number(0xC3D2E1F0))

  function BigEndian(p: Byte, q: Byte, r: Byte, s: Byte): Word
  {
    BitsOf(p, 8) + BitsOf(q, 8) + BitsOf(r, 8) + BitsOf(s, 8)
  }

  function BlockWords(b: seq<Byte>): (m: seq<Word>)
    requires |b| == 64
    ensures |m| == 16
  {
    seq(16, i requires 0 <= i < 16 => BigEndian(b[4 * i], b[4 * i + 1], b[4 * i + 2], b[4 * i + 3]))
  }

  /** The whole blocks at the front of bytes, one after the other. */
  function HashBlocks(h: Vars, bytes: seq<Byte>): Vars
    decreases |bytes|
  {
    if |bytes| < 64 then h else HashBlocks(Compress(h, BlockWords(bytes[..64])), bytes[64..])
  }

  function ZeroBytes(n: nat): (z: seq<Byte>)
    ensures |z| == n
  {
    seq(n, _ => 0)
  }

  /** How many zero bytes are needed to reach 56 modulo 64. */
  function PadZeros(n: nat): (z: nat)
    ensures z < 64 && (n + 1 + z) % 64 == 56
  {
    (55 - n) % 64
  }

  /** A number as eight bytes, most significant first; higher bits are lost. */
  function EightBytes(v: nat): (b: seq<Byte>)
    ensures |b| == 8
  {
    seq(8, i requires 0 <= i < 8 => Shr(v, 8 * (7 - i)) % 256)
  }

  function Padding(n: nat): (p: seq<Byte>)
  {
    [0x80] + ZeroBytes(PadZeros(n)) + EightBytes(8 * n)
  }

  /** Byte k of a word. */
  function ByteOf(w: Word, k: nat): Byte
    requires k < 4
  {
    ValueBound(w[8 * k..8 * k + 8]);
    assert Pow2(8) == 256;
    Value(w[8 * k..8 * k + 8])
  }

  /** The lowest byte of a word shifted to the right. */
  function Shifted(w: Word, n: nat): Byte
    requires n <= 24
  {
    ValueBound(w[24 - n..32 - n]);
    assert Pow2(8) == 256;
    Value(w[24 - n..32 - n])
  }

  lemma {:induction false} ShiftedIsByte(w: Word, k: nat)
    requires k < 4
    ensures Shifted(w, (3 - k) * 8) == ByteOf(w, k)
  {
  }

  function DigestBytes(v: Vars): (d: seq<Byte>)
  {
    seq(20, i requires 0 <= i < 20 => ByteOf([v.a, v.b, v.c, v.d, v.e][i / 4], i % 4))
  }

  /** The message, padded and taken through all its blocks. */
  function Digest(message: seq<Byte>): (d: seq<Byte>)
  {
    DigestBytes(HashBlocks(H0, message + Padding(|message|)))
  }

  // ----- the forms in which the program computes -----

  function Work(i: nat, x: Word, y: Word, z: Word): Word
  {
    var yz := Xor(y, z);
    if i == 0 then Xor(And(yz, x), z)
    else if i == 2 then Or(And(Or(x, y), z), And(x, y))
    else Xor(yz, x)
  }

  lemma {:induction false} WorkIsF(i: nat, t: nat, x: Word, y: Word, z: Word)
    requires i < 4 && 20 * i <= t < 20 * i + 20
    ensures Work(i, x, y, z) == F(t, x, y, z)
  {
  }

  lemma {:induction false} LowOfSum(u: nat, v: nat, k: nat)
    ensures BitsOf(Low(u, k) + v, k) == BitsOf(u + v, k)
  {
    if k > 0 {
      LowOfSum(u / 2, (u % 2 + v) / 2, k - 1);
    }
  }

  lemma {:induction false} BitsOfSum(u: nat, v: nat, k: nat)
    ensures BitsOf(Value(BitsOf(u, k)) + v, k) == BitsOf(u + v, k)
  {
    ValueOfBits(u, k);
    LowOfSum(u, v, k);
  }

  lemma {:induction false} SumOfThree(x: seq<Bit>, y: seq<Bit>, z: seq<Bit>, n: nat, k: nat)
    requires n == Value(x) + Value(y) + Value(z)
    ensures Sum(Sum(x, y, k), z, k) == BitsOf(n, k)
  {
    BitsOfSum(Value(x) + Value(y), Value(z), k);
  }

  lemma {:induction false} SumAssociates(x: seq<Bit>, y: seq<Bit>, z: seq<Bit>, k: nat)
    ensures Sum(Sum(x, y, k), z, k) == Sum(x, Sum(y, z, k), k)
  {
    var n := Value(x) + Value(y) + Value(z);
    SumOfThree(x, y, z, n, k);
    SumOfThree(y, z, x, n, k);
    SumCommutes(x, Sum(y, z, k), k);
  }

  lemma {:induction false} SumCommutes(x: seq<Bit>, y: seq<Bit>, k: nat)
    ensures Sum(x, y, k) == Sum(y, x, k)
  {
  }

  /** *rot[4] += work + rol(*rot[0], 5) + rconsts[i], where work includes the schedule word. */
  lemma {:induction false} SumIsT(a: seq<Bit>, f: seq<Bit>, e: seq<Bit>, c: seq<Bit>, w: seq<Bit>, k: nat)
    ensures Sum(e, Sum(Sum(Sum(f, w, k), a, k), c, k), k) == Sum(Sum(Sum(Sum(a, f, k), e, k), c, k), w, k)
  {
    var af, wc := Sum(a, f, k), Sum(w, c, k);
    calc {
      Sum(e, Sum(Sum(Sum(f, w, k), a, k), c, k), k);
      { SumCommutes(Sum(f, w, k), a, k); SumAssociates(a, f, w, k); }
      Sum(e, Sum(Sum(af, w, k), c, k), k);
      { SumAssociates(af, w, c, k); SumAssociates(e, af, wc, k); }
      Sum(Sum(e, af, k), wc, k);
      { SumCommutes(e, af, k); SumCommutes(w, c, k); SumAssociates(Sum(af, e, k), c, w, k); }
      Sum(Sum(Sum(af, e, k), c, k), w, k);
    }
  }

  function LittleEndian(p: Byte, q: Byte, r: Byte, s: Byte): Word
  {
    BitsOf(s, 8) + BitsOf(r, 8) + BitsOf(q, 8) + BitsOf(p, 8)
  }

  const HIGH: Word := Invert(Zeros(8)) + Zeros(8) + Invert(Zeros(8)) + Zeros(8)  // 0xFF00FF00
  const LOW: Word := Zeros(8) + Invert(Zeros(8)) + Zeros(8) + Invert(Zeros(8))   // 0x00FF00FF

  /** blk0: reverses the bytes of a word. */
  function Swap(x: Word): Word { Or(And(Rol(x, 24), HIGH), And(Rol(x, 8), LOW)) }

  lemma {:induction false} SwapIsBigEndian(p: Byte, q: Byte, r: Byte, s: Byte)
    ensures Swap(LittleEndian(p, q, r, s)) == BigEndian(p, q, r, s)
  {
    var x := LittleEndian(p, q, r, s);
    var P, Q, R, S := BitsOf(p, 8), BitsOf(q, 8), BitsOf(r, 8), BitsOf(s, 8);
    assert Rol(x, 24) == P + S + R + Q;
    assert Rol(x, 8) == R + Q + P + S;
  }

  // ----- the schedule in 16 words -----

  /** Before step t the block holds the last 16 words of the schedule, and, until 16 have been
      made, the words of the buffer that are still to be swapped. */
  ghost predicate Window(block: seq<Word>, raw: seq<Word>, m: seq<Word>, t: nat)
  {
    && |block| == 16 && |raw| == 16 && |m| == 16
    && (forall s :: t <= s < 16 ==> block[s] == raw[s])
    && (forall s {:trigger W(m, s)} :: 0 <= s < t && t - 16 <= s ==> block[s % 16] == W(m, s))
  }

  lemma {:induction false} WindowNext(block: seq<Word>, raw: seq<Word>, m: seq<Word>, t: nat)
    requires Window(block, raw, m, t)
    ensures Window(block[t % 16 := W(m, t)], raw, m, t + 1)
  {
    var next := block[t % 16 := W(m, t)];
    forall s {:trigger W(m, s)} | 0 <= s < t + 1 && t + 1 - 16 <= s ensures next[s % 16] == W(m, s) {
      if s < t {
        assert s % 16 != t % 16;
      }
    }
  }

  ghost predicate Swapped(raw: seq<Word>, m: seq<Word>)
  {
    |raw| == 16 && |m| == 16 && forall s :: 0 <= s < 16 ==> m[s] == Swap(raw[s])
  }

  lemma {:induction false} ScheduleWord(block: seq<Word>, raw: seq<Word>, m: seq<Word>, t: nat)
    requires Window(block, raw, m, t) && Swapped(raw, m)
    ensures W(m, t) == if t < 16 then Swap(block[t])
                       else Rol(Xor(Xor(Xor(block[(t + 13) % 16], block[(t + 8) % 16]), block[(t + 2) % 16]), block[t % 16]), 1)
  {
    if t >= 16 {
      var a, b, c, d := W(m, t - 3), W(m, t - 8), W(m, t - 14), W(m, t - 16);
      assert a == block[(t + 13) % 16] && b == block[(t + 8) % 16] && c == block[(t + 2) % 16] && d == block[t % 16];
      assert W(m, t) == Rol(Xor(Xor(Xor(a, b), c), d), 1);
    }
  }

  /** blk0 and blk: makes word t of the schedule in place. */
  method Expand(block: array<Word>, t: nat, ghost raw: seq<Word>, ghost m: seq<Word>) returns (w: Word)
    requires block.Length == 16 && Window(block[..], raw, m, t) && Swapped(raw, m)
    modifies block
    ensures w == W(m, t) && Window(block[..], raw, m, t + 1)
  {
    ghost var before := block[..];
    ScheduleWord(before, raw, m, t);
    if t < 16 {
      w := Swap(block[t]);
    } else {
      w := Rol(Xor(Xor(Xor(block[(t + 13) % 16], block[(t + 8) % 16]), block[(t + 2) % 16]), block[t % 16]), 1);
    }
    block[t % 16] := w;
    assert block[..] == before[t % 16 := w];
    WindowNext(before, raw, m, t);
  }

  // ----- sha1_transform -----

  /** The pointers after t rotations. */
  ghost predicate Rotated(rot: seq<nat>, t: nat)
  {
    |rot| == 5 && forall k :: 0 <= k < 5 ==> rot[k] == (k + 4 * t) % 5
  }

  /** state[] as the working variables that rot[] points to. */
  ghost function Seen(state: seq<Word>, rot: seq<nat>): Vars
    requires |state| == 5 && |rot| == 5 && forall k :: 0 <= k < 5 ==> rot[k] < 5
  {
    Vars(state[rot[0]], state[rot[1]], state[rot[2]], state[rot[3]], state[rot[4]])
  }

  /** Rotates the pointers by one for the next step. */
  method Rotate(rot: array<nat>, ghost t: nat)
    requires Rotated(rot[..], t)
    modifies rot
    ensures Rotated(rot[..], t + 1)
    ensures rot[..] == [old(rot[4]), old(rot[0]), old(rot[1]), old(rot[2]), old(rot[3])]
  {
    ghost var before := rot[..];
    assert rot.Length == 5;
    var temp := rot[4];
    var k := 4;
    while k > 0
      invariant 0 <= k <= 4
      invariant forall j :: 0 <= j <= k ==> rot[j] == before[j]
      invariant forall j :: k < j < 5 ==> rot[j] == before[j - 1]
    {
      rot[k] := rot[k - 1];
      k := k - 1;
    }
    rot[0] := temp;
    forall j | 0 <= j < 5 ensures rot[..][j] == (j + 4 * (t + 1)) % 5 {
      assert rot[..][j] == before[(j + 4) % 5];
    }
  }

  ghost predicate Distinct(rot: seq<nat>)
  {
    && |rot| == 5 && (forall k :: 0 <= k < 5 ==> rot[k] < 5)
    && forall j, k :: 0 <= j < k < 5 ==> rot[j] != rot[k]
  }

  lemma {:induction false} RotatedDistinct(rot: seq<nat>, t: nat)
    requires Rotated(rot, t)
    ensures Distinct(rot)
  {
    forall j, k | 0 <= j < k < 5 ensures rot[j] != rot[k] {
      assert (k + 4 * t) - (j + 4 * t) == k - j;
    }
  }

  /** The sum that the program adds to the last variable is T. */
  lemma {:induction false} SumIsStep(v: Vars, i: nat, t: nat, w: Word, k: Word)
    requires i < 4 && 20 * i <= t < 20 * i + 20 && k == Number([0x5A827999, 0x6ED9EBA1, 0x8F1BBCDC, 0xCA62C1D6][i])
    ensures Plus(v.e, Plus(Plus(Plus(Work(i, v.b, v.c, v.d), w), Rol(v.a, 5)), k)) == Step(v, t, w).a
  {
    WorkIsF(i, t, v.b, v.c, v.d);
    SumIsT(Rol(v.a, 5), Work(i, v.b, v.c, v.d), v.e, k, w, 32);
  }

  /** Two assignments and a rotation of the pointers move every variable on. */
  lemma {:induction false} MovedVars(state: seq<Word>, r: seq<nat>, sum: Word)
    requires |state| == 5 && Distinct(r)
    ensures var v := Seen(state, r);
            Seen(state[r[4] := sum][r[1] := Rol(state[r[1]], 30)], [r[4], r[0], r[1], r[2], r[3]])
            == Vars(sum, v.a, Rol(v.b, 30), v.c, v.d)
  {
  }

  /** The two assignments of a step, through the pointers. */
  method UpdateVars(state: array<Word>, rot: array<nat>, i: nat, t: nat, w: Word)
    requires state.Length == 5 && Distinct(rot[..]) && i < 4 && 20 * i <= t < 20 * i + 20
    modifies state
    ensures var r, v := rot[..], old(Seen(state[..], rot[..]));
            Seen(state[..], [r[4], r[0], r[1], r[2], r[3]]) == Step(v, t, w)
  {
    ghost var r: seq<nat>, before: seq<Word> := rot[..], state[..];
    assert rot[0] == r[0] && rot[1] == r[1] && rot[2] == r[2] && rot[3] == r[3] && rot[4] == r[4];
    var f: Word := Work(i, state[rot[1]], state[rot[2]], state[rot[3]]);
    var k := Number([0x5A827999, 0x6ED9EBA1, 0x8F1BBCDC, 0xCA62C1D6][i]);
    var sum: Word := Plus(state[rot[4]], Plus(Plus(Plus(f, w), Rol(state[rot[0]], 5)), k));
    state[rot[4]] := sum;
    state[rot[1]] := Rol(state[rot[1]], 30);
    SumIsStep(Seen(before, r), i, t, w, k);
    MovedVars(before, r, sum);
    assert state[..] == before[r[4] := sum][r[1] := Rol(before[r[1]], 30)];
  }

  /** One of the 80 steps, on the variables where they are. */
  method OneStep(state: array<Word>, block: array<Word>, rot: array<nat>, i: nat, t: nat,
                 ghost raw: seq<Word>, ghost m: seq<Word>)
    requires state.Length == 5 && block.Length == 16 && state != block
    requires i < 4 && 20 * i <= t < 20 * i + 20 && Rotated(rot[..], t)
    requires Window(block[..], raw, m, t) && Swapped(raw, m)
    modifies state, block, rot
    ensures Rotated(rot[..], t + 1) && Window(block[..], raw, m, t + 1)
    ensures Seen(state[..], rot[..]) == Step(old(Seen(state[..], rot[..])), t, W(m, t))
  {
    RotatedDistinct(rot[..], t);
    var w := Expand(block, t, raw, m);
    UpdateVars(state, rot, i, t, w);
    ghost var r := rot[..];
    Rotate(rot, t);
    assert rot[..] == [r[4], r[0], r[1], r[2], r[3]];
  }

  function AsVars(state: seq<Word>): Vars
    requires |state| == 5
  {
    Vars(state[0], state[1], state[2], state[3], state[4])
  }

  function RawWords(b: seq<Byte>): (raw: seq<Word>)
    requires |b| == 64
    ensures |raw| == 16
  {
    seq(16, i requires 0 <= i < 16 => LittleEndian(b[4 * i], b[4 * i + 1], b[4 * i + 2], b[4 * i + 3]))
  }

  lemma {:induction false} BlockIsSwapped(b: seq<Byte>)
    requires |b| == 64
    ensures Swapped(RawWords(b), BlockWords(b))
  {
    forall s | 0 <= s < 16 ensures BlockWords(b)[s] == Swap(RawWords(b)[s]) {
      SwapIsBigEndian(b[4 * s], b[4 * s + 1], b[4 * s + 2], b[4 * s + 3]);
    }
  }

  /** t steps have been made from v on. */
  ghost predicate Progress(state: seq<Word>, rot: seq<nat>, block: seq<Word>, raw: seq<Word>, m: seq<Word>, v: Vars, t: nat)
  {
    && |state| == 5 && Rotated(rot, t) && Window(block, raw, m, t)
    && Seen(state, rot) == Steps(v, m, t)
  }

  /** The inner loop of sha1_transform. */
  method TwentySteps(state: array<Word>, block: array<Word>, rot: array<nat>, i: nat, start: nat,
                     ghost raw: seq<Word>, ghost m: seq<Word>, ghost v: Vars)
    requires state.Length == 5 && block.Length == 16 && state != block && i < 4 && start == 20 * i
    requires Progress(state[..], rot[..], block[..], raw, m, v, start)
    requires Swapped(raw, m)
    modifies state, block, rot
    ensures Progress(state[..], rot[..], block[..], raw, m, v, start + 20)
  {
    var count := start;
    for j := 0 to 20
      invariant count == start + j && Progress(state[..], rot[..], block[..], raw, m, v, count)
    {
      OneStep(state, block, rot, i, count, raw, m);
      count := count + 1;
    }
  }

  lemma {:induction false} BackHome(rot: seq<nat>)
    requires Rotated(rot, 80)
    ensures forall k :: 0 <= k < 5 ==> rot[k] == k
  {
  }

  lemma {:induction false} RoundsStart(state: seq<Word>, rot: seq<nat>, raw: seq<Word>, m: seq<Word>)
    requires |state| == 5 && rot == [0, 1, 2, 3, 4] && |raw| == 16 && |m| == 16
    ensures Progress(state, rot, raw, raw, m, AsVars(state), 0)
  {
  }

  lemma {:induction false} RoundsDone(state: seq<Word>, rot: seq<nat>, block: seq<Word>, raw: seq<Word>, m: seq<Word>, v: Vars, t: nat)
    requires Progress(state, rot, block, raw, m, v, t) && t == 5 * |m|
    ensures AsVars(state) == AllSteps(v, m)
  {
    BackHome(rot);
  }

  /** The rounds of sha1_transform: 80 steps leave the pointers where they started. The words the
      buffer is overlaid with are a separate array here; what the steps leave in them is not read
      again. */
  method Rounds(state: array<Word>, buffer: array<Byte>)
    requires state.Length == 5 && buffer.Length == 64
    modifies state
    ensures AsVars(state[..]) == AllSteps(old(AsVars(state[..])), BlockWords(buffer[..]))
  {
    ghost var v := AsVars(state[..]);
    var raw := RawWords(buffer[..]);
    ghost var m := BlockWords(buffer[..]);
    BlockIsSwapped(buffer[..]);
    var block := new Word[16](i requires 0 <= i < 16 => raw[i]);
    var rot := new nat[5](i => i);
    assert block[..] == raw && rot[..] == [0, 1, 2, 3, 4];
    RoundsStart(state[..], rot[..], raw, m);
    for i := 0 to 4
      invariant Progress(state[..], rot[..], block[..], raw, m, v, 20 * i)
    {
      TwentySteps(state, block, rot, i, 20 * i, raw, m, v);
    }
    RoundsDone(state[..], rot[..], block[..], raw, m, v, 5 * |m|);
  }

  /** sha1_transform: the block in the buffer, on top of the state. */
  method Transform(state: array<Word>, oldstate: array<Word>, buffer: array<Byte>)
    requires state.Length == 5 && oldstate.Length == 5 && buffer.Length == 64 && state != oldstate
    modifies state, oldstate
    ensures AsVars(state[..]) == Compress(old(AsVars(state[..])), BlockWords(buffer[..]))
  {
    ghost var h := AsVars(state[..]);
    for i := 0 to 5
      invariant forall k :: 0 <= k < i ==> oldstate[k] == state[k]
      invariant state[..] == old(state[..])
    {
      oldstate[i] := state[i];
    }
    assert AsVars(oldstate[..]) == h;
    Rounds(state, buffer);
    AddState(state, oldstate);
  }

  /** Adds the previous values. */
  method AddState(state: array<Word>, oldstate: array<Word>)
    requires state.Length == 5 && oldstate.Length == 5 && state != oldstate
    modifies state
    ensures forall k :: 0 <= k < 5 ==> state[k] == Plus(old(state[k]), oldstate[k])
  {
    for i := 0 to 5
      invariant forall k :: 0 <= k < i ==> state[k] == Plus(old(state[k]), oldstate[k])
      invariant forall k :: i <= k < 5 ==> state[k] == old(state[k])
    {
      state[i] := Plus(state[i], oldstate[i]);
    }
  }

  // ----- blocks of a message -----

  lemma WholeBlocks(n: nat)
    ensures (n + 64) % 64 == n % 64
  {
  }

  lemma {:induction false} HashAppend(h: Vars, a: seq<Byte>, b: seq<Byte>)
    requires |a| % 64 == 0 && |b| == 64
    ensures |a + b| % 64 == 0 && HashBlocks(h, a + b) == Compress(HashBlocks(h, a), BlockWords(b))
    decreases |a|
  {
    WholeBlocks(|a|);
    if a == [] {
      assert a + b == b && b[..64] == b && b[64..] == [];
      assert HashBlocks(Compress(h, BlockWords(b)), []) == Compress(h, BlockWords(b));
    } else {
      var next := Compress(h, BlockWords(a[..64]));
      WholeBlocks(|a| - 64);
      HashAppend(next, a[64..], b);
      CutFirst(a, b, 64);
    }
  }

  lemma {:induction false} HashedNext(done: seq<Byte>, block: seq<Byte>, h: Vars, next: Vars)
    requires |done| % 64 == 0 && |block| == 64 && h == HashBlocks(H0, done) && next == Compress(h, BlockWords(block))
    ensures |done + block| % 64 == 0 && next == HashBlocks(H0, done + block)
  {
    HashAppend(H0, done, block);
  }

  /** The loop that writes the length. */
  method LengthBytes(bits: nat) returns (length: seq<Byte>)
    ensures length == EightBytes(bits)
  {
    length := [];
    for i := 0 to 8
      invariant length == EightBytes(bits)[..i]
    {
      length := length + [Shr(bits, 8 * (7 - i)) % 256];
    }
  }

  /** memcpy */
  method CopyInto(dst: array<Byte>, at: nat, src: seq<Byte>)
    requires at + |src| <= dst.Length
    modifies dst
    ensures dst[..at + |src|] == old(dst[..at]) + src
  {
    forall i | 0 <= i < |src| {
      dst[at + i] := src[i];
    }
  }

  /** struct sha1, with the bytes it has hashed and the bytes it keeps. */
  class Context {
    const state: array<Word>
    const oldstate: array<Word>
    const buffer: array<Byte>
    var count: nat
    ghost var done: seq<Byte>
    ghost var rest: seq<Byte>

    ghost predicate Allocated()
    {
      && state.Length == 5 && oldstate.Length == 5 && buffer.Length == 64
      && state != oldstate && buffer as object != state && buffer as object != oldstate
    }

    /** The state is the hash of whole blocks. */
    ghost predicate Hashed()
      reads this, state
    {
      Allocated() && |done| % 64 == 0 && AsVars(state[..]) == HashBlocks(H0, done)
    }

    /** All bytes given so far. */
    ghost function Message(): seq<Byte>
      reads this
    {
      done + rest
    }

    /** The buffer begins with what is left over from the whole blocks. */
    ghost predicate Valid()
      reads this, state, buffer
    {
      Hashed() && |rest| < 64 && buffer[..|rest|] == rest && count == |Message()|
    }

    constructor ()
      ensures Valid() && Message() == [] && fresh(state) && fresh(oldstate) && fresh(buffer)
    {
      var h: seq<Word> := [Number(0x67452301), Number(0xEFCDAB89), Number(0x98BADCFE), Number(0x10325476), Number(0xC3D2E1F0)];
      state := new Word[5](i requires 0 <= i < 5 => h[i]);
      oldstate := new Word[5](_ => Zeros(32));
      buffer := new Byte[64](_ => 0);
      count, done, rest := 0, [], [];
      new;
      assert AsVars(state[..]) == AsVars(h) == H0;
    }

    /** A full buffer is hashed. */
    method HashBuffer(ghost block: seq<Byte>)
      requires Hashed() && |block| == 64 && buffer[..] == block
      modifies `done, state, oldstate
      ensures Hashed() && done == old(done) + block
    {
      ghost var h := AsVars(state[..]);
      Transform(state, oldstate, buffer);
      HashedNext(done, block, h, AsVars(state[..]));
      done := done + block;
    }

    /** The copy that makes the buffer full. */
    method LoadBuffer(ghost kept: seq<Byte>, part: seq<Byte>)
      requires Allocated() && |kept| + |part| == 64 && buffer[..|kept|] == kept
      modifies buffer
      ensures buffer[..] == kept + part
    {
      CopyInto(buffer, 64 - |part|, part);
      assert buffer[..64] == buffer[..];
    }

    /** The loop over the whole blocks inside the data. */
    method HashInside(data: seq<Byte>, start: nat, ghost before: seq<Byte>) returns (i: nat)
      requires Hashed() && start <= |data| && done == before + data[..start]
      modifies `done, state, oldstate, buffer
      ensures Hashed() && start <= i <= |data| < i + 64 && done == before + data[..i]
    {
      i := start;
      while i + 63 < |data|
        invariant Hashed() && start <= i <= |data| && done == before + data[..i]
      {
        var block := data[i..i + 64];
        LoadBuffer([], block);
        HashBuffer(block);
        SliceJoin(before, data, i, i + 64);
        i := i + 64;
      }
    }

    /** The block begun before is completed and hashed. */
    method FinishBlock(part: seq<Byte>)
      requires Hashed() && |rest| + |part| == 64 && buffer[..|rest|] == rest
      modifies `done, state, oldstate, buffer
      ensures Hashed() && done == old(Message()) + part
    {
      LoadBuffer(rest, part);
      Regroup(done, rest, part);
      HashBuffer(rest + part);
    }

    /** The first branch of sha1_update: completes the block begun before, and goes on with whole
        blocks. */
    method HashThrough(j: nat, data: seq<Byte>) returns (i: nat)
      requires Hashed() && j == |rest| < 64 && j + |data| > 63 && buffer[..j] == rest
      modifies `done, `rest, state, oldstate, buffer
      ensures Hashed() && rest == [] && i <= |data| < i + 64 && done == old(Message()) + data[..i]
    {
      ghost var before := Message();
      i := 64 - j;
      FinishBlock(data[..i]);
      i := HashInside(data, i, before);
      rest := [];
    }

    /** sha1_update: any amount of data, added to the message. */
    method Update(data: seq<Byte>)
      requires Valid()
      modifies this, state, oldstate, buffer
      ensures Valid() && Message() == old(Message()) + data
    {
      ghost var before := Message();
      var j, i := count % 64, 0;
      RestLength(done, rest);
      count := count + |data|;
      if j + |data| > 63 {
        i := HashThrough(j, data);
        j := 0;
      }
      AddsRest(before, data, i, done, rest);
      CopyInto(buffer, j, data[i..]);
      rest := rest + data[i..];
    }

    /** The padding loop of sha1_final: a one bit, and zeros up to 56 bytes into a block. */
    method Pad()
      requires Valid()
      modifies this, state, oldstate, buffer
      ensures Valid() && |rest| == 56
      ensures Message() == Padded(old(Message()), PadZeros(|old(Message())|))
    {
      ghost var m, z := Message(), 0;
      PaddedNext(m, 0);
      Update([0x80]);
      while count % 64 != 56
        invariant Valid() && Short(|m|, z) && Message() == Padded(m, z) && count == |m| + 1 + z
        decreases 64 - z
      {
        StillShort(|m|, z, count);
        PaddedNext(m, z);
        Update([0]);
        z := z + 1;
      }
      LastZero(|m|, z, count);
      RestLength(done, rest);
    }

    /** The last block: the length goes straight into the buffer. */
    method HashLength(bits: nat)
      requires Valid() && |rest| == 56
      modifies `done, state, oldstate, buffer
      ensures Hashed() && done == old(Message()) + EightBytes(bits)
    {
      var length := LengthBytes(bits);
      FinishBlock(length);
    }

    /** The bytes of the state, each word from the top down. */
    method WriteDigest() returns (digest: seq<Byte>)
      requires Allocated()
      ensures digest == DigestBytes(AsVars(state[..]))
    {
      digest := [];
      for i := 0 to 20
        invariant |digest| == i && forall k :: 0 <= k < i ==> digest[k] == DigestBytes(AsVars(state[..]))[k]
      {
        var b := Shifted(state[i / 4], (3 - i % 4) * 8);
        ShiftedIsByte(state[i / 4], i % 4);
        digest := digest + [b];
      }
    }

    /** sha1_final: the digest of the whole message. */
    method Final() returns (digest: seq<Byte>)
      requires Valid()
      modifies this, state, oldstate, buffer
      ensures digest == Digest(old(Message()))
    {
      ghost var m := Message();
      var bits := 8 * count;
      Pad();
      HashLength(bits);
      PaddedAll(m);
      digest := WriteDigest();
    }
  }

  /** The message, the one bit and z zero bytes. */
  function Padded(m: seq<Byte>, z: nat): seq<Byte> { m + ([0x80] + ZeroBytes(z)) }

  lemma {:induction false} PaddedNext(m: seq<Byte>, z: nat)
    ensures Padded(m, z) + [0] == Padded(m, z + 1) && |Padded(m, z)| == |m| + 1 + z
    ensures Padded(m, 0) == m + [0x80]
  {
    assert ZeroBytes(z) + [0] == ZeroBytes(z + 1);
    assert [0x80] + ZeroBytes(0) == [0x80];
  }

  lemma {:induction false} PaddedAll(m: seq<Byte>)
    ensures Padded(m, PadZeros(|m|)) + EightBytes(8 * |m|) == m + Padding(|m|)
  {
    var z, e := [0x80] + ZeroBytes(PadZeros(|m|)), EightBytes(8 * |m|);
    assert (m + z) + e == m + (z + e);
  }

  /** No more zeros than needed. */
  ghost predicate Short(n: nat, z: nat) { z <= PadZeros(n) && z < 64 }

  lemma {:induction false} StillShort(n: nat, z: nat, count: nat)
    requires Short(n, z) && count == n + 1 + z && count % 64 != 56
    ensures Short(n, z + 1)
  {
    LastZero(n, z, count);
  }

  lemma {:induction false} LastZero(n: nat, z: nat, count: nat)
    requires Short(n, z) && count == n + 1 + z
    ensures count % 64 == 56 <==> z == PadZeros(n)
  {
  }

  /** Whole blocks do not count in what is left over. */
  lemma RestLength(done: seq<Byte>, rest: seq<Byte>)
    requires |done| % 64 == 0 && |rest| < 64
    ensures |done + rest| % 64 == |rest|
  {
  }

  /** With what is left of the data, all of it has been added. */
  lemma {:induction false} AddsRest(before: seq<Byte>, data: seq<Byte>, i: nat, done: seq<Byte>, rest: seq<Byte>)
    requires i <= |data| && done + rest == before + data[..i]
    ensures done + (rest + data[i..]) == before + data
  {
    assert data == data[..i] + data[i..];
    Regroup(done, rest, data[i..]);
  }

  // ----- the standard, bit by bit -----

  lemma {:induction false} BytesConcat(s: seq<Byte>, t: seq<Byte>)
    ensures BytesBits(s + t) == BytesBits(s) + BytesBits(t)
  {
    if s == [] {
      assert s + t == t;
    } else {
      assert (s + t)[1..] == s[1..] + t;
      BytesConcat(s[1..], t);
      Regroup(BitsOf(s[0], 8), BytesBits(s[1..]), BytesBits(t));
    }
  }

  lemma {:induction false} BytesLength(s: seq<Byte>)
    ensures |BytesBits(s)| == 8 * |s|
  {
    if s != [] {
      BytesLength(s[1..]);
    }
  }

  lemma {:induction false} OneByte(b: Byte)
    ensures BytesBits([b]) == BitsOf(b, 8)
  {
    assert [b][1..] == [];
  }

  lemma {:induction false} ValueBits(bits: seq<Bit>)
    ensures BitsOf(Value(bits), |bits|) == bits
  {
    if bits != [] {
      ValueBits(bits[..|bits| - 1]);
    }
  }

  /** The bytes of a word are its bits. */
  lemma {:induction false} WordBytes(w: Word)
    ensures BytesBits([ByteOf(w, 0), ByteOf(w, 1), ByteOf(w, 2), ByteOf(w, 3)]) == w
  {
    var p, q, r, s := w[0..8], w[8..16], w[16..24], w[24..32];
    ValueBits(p);
    ValueBits(q);
    ValueBits(r);
    ValueBits(s);
    FourBytes(ByteOf(w, 0), ByteOf(w, 1), ByteOf(w, 2), ByteOf(w, 3));
    assert w == p + q + r + s;
  }

  lemma {:induction false} FourBytes(p: Byte, q: Byte, r: Byte, s: Byte)
    ensures BytesBits([p, q, r, s]) == BitsOf(p, 8) + BitsOf(q, 8) + BitsOf(r, 8) + BitsOf(s, 8)
  {
    assert [p, q, r, s] == [p] + [q] + [r] + [s];
    BytesConcat([p] + [q] + [r], [s]);
    BytesConcat([p] + [q], [r]);
    BytesConcat([p], [q]);
    OneByte(p);
    OneByte(q);
    OneByte(r);
    OneByte(s);
  }

  function FourOf(w: Word): (b: seq<Byte>) { [ByteOf(w, 0), ByteOf(w, 1), ByteOf(w, 2), ByteOf(w, 3)] }

  /** The digest is the five words, one after the other. */
  lemma {:induction false} DigestBits(v: Vars)
    ensures BytesBits(DigestBytes(v)) == v.a + v.b + v.c + v.d + v.e
  {
    var a, b, c, d, e := FourOf(v.a), FourOf(v.b), FourOf(v.c), FourOf(v.d), FourOf(v.e);
    assert DigestBytes(v) == a + b + c + d + e;
    BytesConcat(a + b + c + d, e);
    BytesConcat(a + b + c, d);
    BytesConcat(a + b, c);
    BytesConcat(a, b);
    WordBytes(v.a);
    WordBytes(v.b);
    WordBytes(v.c);
    WordBytes(v.d);
    WordBytes(v.e);
  }

  /** The last k of the eight bytes are the lowest bits of the number. */
  lemma {:induction false} LastBytes(n: nat, k: nat)
    requires k <= 8
    ensures BytesBits(EightBytes(n)[8 - k..]) == BitsOf(n, 8 * k)
  {
    if k > 0 {
      LastBytes(n, k - 1);
      var rest, b := EightBytes(n)[8 - k..], Shr(n, 8 * (k - 1)) % 256;
      assert rest[0] == b && rest[1..] == EightBytes(n)[8 - (k - 1)..];
      BitsSplit(n, 8, 8 * (k - 1));
      LowByte(Shr(n, 8 * (k - 1)));
    }
  }

  lemma {:induction false} LowByte(v: nat)
    ensures BitsOf(v % 256, 8) == BitsOf(v, 8)
  {
    assert Pow2(8) == 256;
    BitsOfShifted(v / 256, v % 256, 8, 0);
  }

  lemma {:induction false} LengthBits(n: nat)
    ensures BytesBits(EightBytes(n)) == BitsOf(n, 64)
  {
    LastBytes(n, 8);
    assert EightBytes(n)[0..] == EightBytes(n);
  }

  lemma {:induction false} ZeroBits(n: nat)
    ensures BytesBits(ZeroBytes(n)) == Zeros(8 * n)
  {
    if n > 0 {
      ZeroBits(n - 1);
      assert ZeroBytes(n)[0] == 0 && ZeroBytes(n)[1..] == ZeroBytes(n - 1);
      ZeroByte(8);
    }
  }

  lemma {:induction false} ZeroByte(w: nat)
    ensures BitsOf(0, w) == Zeros(w)
  {
    if w > 0 {
      ZeroByte(w - 1);
    }
  }

  /** Section 5.1.1: a one, the fewest zeros that leave room for the length, and the length in 64 bits. */
  ghost predicate IsPadding(l: nat, bits: seq<Bit>)
  {
    exists k: nat :: k < 512 && (l + 1 + k) % 512 == 448 && bits == [1] + Zeros(k) + BitsOf(l, 64)
  }

  lemma {:induction false} PaddingBits(n: nat)
    ensures IsPadding(8 * n, BytesBits(Padding(n)))
  {
    var z := PadZeros(n);
    var k := 7 + 8 * z;
    OneAndZeros(z);
    LengthBits(8 * n);
    BytesConcat([0x80] + ZeroBytes(z), EightBytes(8 * n));
    PadCongruent(n, z, k);
  }

  lemma {:induction false} OneAndZeros(z: nat)
    ensures BytesBits([0x80] + ZeroBytes(z)) == [1] + Zeros(7 + 8 * z)
  {
    BytesConcat([0x80], ZeroBytes(z));
    OneByte(0x80);
    ZeroBits(z);
    TopBit(0x80);
    ZerosJoin(7, 8 * z);
  }

  lemma ZerosJoin(a: nat, b: nat)
    ensures [1] + Zeros(a) + Zeros(b) == [1] + Zeros(a + b)
  {
  }

  lemma {:induction false} TopBit(b: Byte)
    requires b == 0x80
    ensures BitsOf(b, 8) == [1] + Zeros(7)
  {
    assert Pow2(7) == 128 && Pow2(0) == 1;
    BitsOfShifted(1, 0, 7, 1);
    ZeroByte(7);
    assert BitsOf(1, 1) == [1];
  }

  lemma PadCongruent(n: nat, z: nat, k: nat)
    requires z < 64 && (n + 1 + z) % 64 == 56 && k == 7 + 8 * z
    ensures k < 512 && (8 * n + 1 + k) % 512 == 448
  {
    var q := (n + 1 + z) / 64;
    assert 8 * n + 1 + k == 512 * q + 448;
  }

  /** Section 5.2.1: a block of 512 bits is sixteen words of 32. */
  function WordsOf(bits: seq<Bit>): (m: seq<Word>)
    requires |bits| == 512
    ensures |m| == 16
  {
    seq(16, i requires 0 <= i < 16 => bits[32 * i..32 * i + 32])
  }

  lemma {:induction false} BitsAt(b: seq<Byte>, i: nat)
    requires i < |b|
    ensures 8 * i + 8 <= |BytesBits(b)| && BytesBits(b)[8 * i..8 * i + 8] == BitsOf(b[i], 8)
  {
    BytesLength(b);
    assert b == b[..i] + ([b[i]] + b[i + 1..]);
    BytesConcat(b[..i], [b[i]] + b[i + 1..]);
    BytesConcat([b[i]], b[i + 1..]);
    OneByte(b[i]);
    BytesLength(b[..i]);
  }

  lemma {:induction false} BlockBits(b: seq<Byte>)
    requires |b| == 64
    ensures |BytesBits(b)| == 512 && WordsOf(BytesBits(b)) == BlockWords(b)
  {
    BytesLength(b);
    var bits := BytesBits(b);
    forall i | 0 <= i < 16 ensures WordsOf(bits)[i] == BlockWords(b)[i] {
      BitsAt(b, 4 * i);
      BitsAt(b, 4 * i + 1);
      BitsAt(b, 4 * i + 2);
      BitsAt(b, 4 * i + 3);
      FourSlices(bits, 32 * i);
    }
  }

  lemma FourSlices(bits: seq<Bit>, a: nat)
    requires a + 32 <= |bits|
    ensures bits[a..a + 32] == bits[a..a + 8] + bits[a + 8..a + 16] + bits[a + 16..a + 24] + bits[a + 24..a + 32]
  {
  }

  function HashBits(h: Vars, bits: seq<Bit>): Vars
    decreases |bits|
  {
    if |bits| < 512 then h else HashBits(Compress(h, WordsOf(bits[..512])), bits[512..])
  }

  lemma {:induction false} HashIsBits(h: Vars, bytes: seq<Byte>)
    ensures HashBlocks(h, bytes) == HashBits(h, BytesBits(bytes))
    decreases |bytes|
  {
    BytesLength(bytes);
    if |bytes| >= 64 {
      var first, rest := bytes[..64], bytes[64..];
      assert bytes == first + rest;
      BytesConcat(first, rest);
      BlockBits(first);
      var bits := BytesBits(bytes);
      assert bits[..512] == BytesBits(first) && bits[512..] == BytesBits(rest);
      HashIsBits(Compress(h, BlockWords(first)), rest);
    }
  }

  /** What the program computes is the hash of the standard: of the bits of the message, padded, as the bits
      of the five words. */
  lemma {:induction false} DigestIsStandard(message: seq<Byte>)
    ensures exists padding ::
              && IsPadding(|BytesBits(message)|, padding)
              && var v := HashBits(H0, BytesBits(message) + padding);
                 BytesBits(Digest(message)) == v.a + v.b + v.c + v.d + v.e
  {
    var padding := BytesBits(Padding(|message|));
    BytesLength(message);
    PaddingBits(|message|);
    BytesConcat(message, Padding(|message|));
    HashIsBits(H0, message + Padding(|message|));
    DigestBits(HashBlocks(H0, message + Padding(|message|)));
    assert IsPadding(|BytesBits(message)|, padding);
  }
}
