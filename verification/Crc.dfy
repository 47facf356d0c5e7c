/**
 CRC-32 in both bit orders: the lookup table, the table-driven step, and the cksum utility
 (crc_init in lib/lib.c, toys/cksum.c).

 A 32-bit word is the sequence of its bits, most significant first. The specification divides
 the message by the generator polynomial, one bit at a time.
 */
module Crc {
  import opened Powers
  import opened BitStream
  import opened Sequences
  import opened Words

  // ----- words -----

  function Reverse(a: seq<Bit>): (w: seq<Bit>)
    ensures |w| == |a| && forall i :: 0 <= i < |a| ==> w[i] == a[|a| - 1 - i]
  {
    seq(|a|, i requires 0 <= i < |a| => a[|a| - 1 - i])
  }

  /** 0x04c11db7, and the same bits from the other end, 0xedb88320. */
  const POLY: seq<Bit> := [0,0,0,0,0,1,0,0, 1,1,0,0,0,0,0,1, 0,0,0,1,1,1,0,1, 1,0,1,1,0,1,1,1]
  const POLY_LE: seq<Bit> := [1,1,1,0,1,1,0,1, 1,0,1,1,1,0,0,0, 1,0,0,0,0,0,1,1, 0,0,1,0,0,0,0,0]

  lemma {:induction false} PolyReversed()
    ensures Reverse(POLY) == POLY_LE
  {
  }

  // ----- division by the generator -----

  /** One step of long division by x^32 + POLY: the next bit of the dividend meets the top bit of
      the remainder. */
  function Feed(r: seq<Bit>, bit: Bit): (r': seq<Bit>)
    requires |r| == 32
    ensures |r'| == 32
  {
    var shifted := r[1..] + [0];
    if Add(r[0], bit) == 1 then Xor(shifted, POLY) else shifted
  }

  function FeedAll(r: seq<Bit>, bits: seq<Bit>): (r': seq<Bit>)
    requires |r| == 32
    ensures |r'| == 32
    decreases |bits|
  {
    if bits == [] then r else FeedAll(Feed(r, bits[0]), bits[1..])
  }

  lemma {:induction false} FeedConcat(r: seq<Bit>, a: seq<Bit>, b: seq<Bit>)
    requires |r| == 32
    ensures FeedAll(r, a + b) == FeedAll(FeedAll(r, a), b)
    decreases |a|
  {
    if a == [] {
      assert a + b == b;
    } else {
      assert (a + b)[1..] == a[1..] + b;
      FeedConcat(Feed(r, a[0]), a[1..], b);
    }
  }

  /** q times the generator, by Horner's rule. */
  function Times(q: seq<Bit>): (w: seq<Bit>)
    ensures |w| == |q| + 32
  {
    if q == [] then Zeros(32) else
    var n := |q| - 1;
    var w := Times(q[..n]) + [0];
    if q[n] == 1 then Xor(w, Zeros(n) + [1] + POLY) else w
  }

  /** The quotient digits met on the way. */
  function Quotient(r: seq<Bit>, bits: seq<Bit>): (q: seq<Bit>)
    requires |r| == 32
    ensures |q| == |bits|
  {
    if bits == [] then [] else
    var n := |bits| - 1;
    Quotient(r, bits[..n]) + [Add(FeedAll(r, bits[..n])[0], bits[n])]
  }

  lemma {:induction false} FeedLast(r: seq<Bit>, bits: seq<Bit>)
    requires |r| == 32 && bits != []
    ensures FeedAll(r, bits) == Feed(FeedAll(r, bits[..|bits| - 1]), bits[|bits| - 1])
  {
    var n := |bits| - 1;
    assert bits == bits[..n] + [bits[n]];
    FeedConcat(r, bits[..n], [bits[n]]);
    var s := FeedAll(r, bits[..n]);
    assert [bits[n]][1..] == [];
    assert FeedAll(s, [bits[n]]) == FeedAll(Feed(s, bits[n]), []);
  }

  /** Dividend = quotient * generator + remainder: the remainder of the message followed by 32
      zeros, with the starting value added at its front. */
  lemma {:induction false} Division(r: seq<Bit>, bits: seq<Bit>)
    requires |r| == 32
    ensures Xor(r + Zeros(|bits|), bits + Zeros(32)) ==
            Xor(Times(Quotient(r, bits)), Zeros(|bits|) + FeedAll(r, bits))
    decreases |bits|
  {
    if bits == [] {
      assert Xor(r + Zeros(0), [] + Zeros(32)) == r;
      assert Xor(Times([]), Zeros(0) + r) == r;
    } else {
      DivisionStep(r, bits);
    }
  }

  /** The known equation, read at position i. */
  lemma {:induction false} EquationAt(r: seq<Bit>, front: seq<Bit>, t: seq<Bit>, s: seq<Bit>, i: nat)
    requires |r| == 32 && |s| == 32 && |t| == |front| + 32 && i < |front| + 32
    requires Xor(r + Zeros(|front|), front + Zeros(32)) == Xor(t, Zeros(|front|) + s)
    ensures var n := |front|;
            Add((r + Zeros(n + 1))[i], if i < n then front[i] else 0) == Add(t[i], if i < n then 0 else s[i - n])
  {
    var n := |front|;
    var a := Xor(r + Zeros(n), front + Zeros(32));
    assert a[i] == Add(t[i], (Zeros(n) + s)[i]);
    assert (r + Zeros(n + 1))[i] == (r + Zeros(n))[i];
  }

  /** One more bit, for any polynomial p: position i of both sides. */
  ghost predicate StepHolds(p: seq<Bit>, r: seq<Bit>, front: seq<Bit>, bit: Bit, t: seq<Bit>, s: seq<Bit>, i: nat)
    requires |p| == 32 && |r| == 32 && |s| == 32 && |t| == |front| + 32 && i < |front| + 33
  {
    var n, k, shifted := |front|, Add(s[0], bit), s[1..] + [0];
    var w := if k == 1 then Xor(t + [0], Zeros(n) + [1] + p) else t + [0];
    var s' := if k == 1 then Xor(shifted, p) else shifted;
    Xor(r + Zeros(n + 1), (front + [bit]) + Zeros(32))[i] == Xor(w, Zeros(n + 1) + s')[i]
  }

  /** Before the bit, the generator is not met. */
  lemma {:induction false} StepBefore(p: seq<Bit>, r: seq<Bit>, front: seq<Bit>, bit: Bit, t: seq<Bit>, s: seq<Bit>, i: nat)
    requires |p| == 32 && |r| == 32 && |s| == 32 && |t| == |front| + 32 && i < |front|
    requires Add((r + Zeros(|front| + 1))[i], front[i]) == Add(t[i], 0)
    ensures StepHolds(p, r, front, bit, t, s, i)
  {
    var n := |front|;
    assert ((front + [bit]) + Zeros(32))[i] == front[i] && (t + [0])[i] == t[i];
    assert (Zeros(n) + [1] + p)[i] == 0;
  }

  lemma {:induction false} StepAtBit(p: seq<Bit>, r: seq<Bit>, front: seq<Bit>, bit: Bit, t: seq<Bit>, s: seq<Bit>)
    requires |p| == 32 && |r| == 32 && |s| == 32 && |t| == |front| + 32
    requires Add((r + Zeros(|front| + 1))[|front|], 0) == Add(t[|front|], s[0])
    ensures StepHolds(p, r, front, bit, t, s, |front|)
  {
    var n := |front|;
    assert ((front + [bit]) + Zeros(32))[n] == bit && (t + [0])[n] == t[n];
    assert (Zeros(n) + [1] + p)[n] == 1;
  }

  /** After it, the generator is added on both sides. */
  lemma {:induction false} StepAfter(p: seq<Bit>, r: seq<Bit>, front: seq<Bit>, bit: Bit, t: seq<Bit>, s: seq<Bit>, i: nat)
    requires |p| == 32 && |r| == 32 && |s| == 32 && |t| == |front| + 32 && |front| < i < |front| + 33
    requires i < |front| + 32 ==> Add((r + Zeros(|front| + 1))[i], 0) == Add(t[i], s[i - |front|])
    ensures StepHolds(p, r, front, bit, t, s, i)
  {
    var n := |front|;
    assert ((front + [bit]) + Zeros(32))[i] == 0;
    assert (Zeros(n) + [1] + p)[i] == p[i - n - 1];
    assert (s[1..] + [0])[i - n - 1] == if i < n + 32 then s[i - n] else 0;
    assert (t + [0])[i] == if i < n + 32 then t[i] else 0;
  }

  lemma {:induction false} StepAt(p: seq<Bit>, r: seq<Bit>, front: seq<Bit>, bit: Bit, t: seq<Bit>, s: seq<Bit>, i: nat)
    requires |p| == 32 && |r| == 32 && |s| == 32 && |t| == |front| + 32 && i < |front| + 33
    requires i < |front| + 32 ==>
      Add((r + Zeros(|front| + 1))[i], if i < |front| then front[i] else 0)
      == Add(t[i], if i < |front| then 0 else s[i - |front|])
    ensures StepHolds(p, r, front, bit, t, s, i)
  {
    if i < |front| {
      StepBefore(p, r, front, bit, t, s, i);
    } else if i == |front| {
      StepAtBit(p, r, front, bit, t, s);
    } else {
      StepAfter(p, r, front, bit, t, s, i);
    }
  }

  lemma {:induction false} DivisionStep(r: seq<Bit>, bits: seq<Bit>)
    requires |r| == 32 && bits != []
    ensures Xor(r + Zeros(|bits|), bits + Zeros(32)) ==
            Xor(Times(Quotient(r, bits)), Zeros(|bits|) + FeedAll(r, bits))
    decreases |bits|, 0
  {
    var n := |bits| - 1;
    var front, bit := bits[..n], bits[n];
    Division(r, front);
    FeedLast(r, bits);
    var s, q := FeedAll(r, front), Quotient(r, bits);
    assert q[..n] == Quotient(r, front) && q[n] == Add(s[0], bit);
    assert bits == front + [bit];
    StepEverywhere(r, front, bit, Times(q[..n]), s);
  }

  lemma {:induction false} StepEverywhere(r: seq<Bit>, front: seq<Bit>, bit: Bit, t: seq<Bit>, s: seq<Bit>)
    requires |r| == 32 && |s| == 32 && |t| == |front| + 32
    requires Xor(r + Zeros(|front|), front + Zeros(32)) == Xor(t, Zeros(|front|) + s)
    ensures var n := |front|;
            var w := if Add(s[0], bit) == 1 then Xor(t + [0], Zeros(n) + [1] + POLY) else t + [0];
            Xor(r + Zeros(n + 1), (front + [bit]) + Zeros(32)) == Xor(w, Zeros(n + 1) + Feed(s, bit))
  {
    var n := |front|;
    var w := if Add(s[0], bit) == 1 then Xor(t + [0], Zeros(n) + [1] + POLY) else t + [0];
    var b, x := Xor(r + Zeros(n + 1), (front + [bit]) + Zeros(32)), Xor(w, Zeros(n + 1) + Feed(s, bit));
    forall i | 0 <= i < n + 33 ensures b[i] == x[i] {
      if i < n + 32 { EquationAt(r, front, t, s, i); }
      StepAt(POLY, r, front, bit, t, s, i);
    }
  }

  // ----- linearity -----

  lemma {:induction false} FeedLinear(r: seq<Bit>, s: seq<Bit>, x: Bit, y: Bit)
    requires |r| == 32 && |s| == 32
    ensures Feed(Xor(r, s), Add(x, y)) == Xor(Feed(r, x), Feed(s, y))
  {
    var a, b := Feed(Xor(r, s), Add(x, y)), Xor(Feed(r, x), Feed(s, y));
    forall i | 0 <= i < 32 ensures a[i] == b[i] { }
  }

  lemma {:induction false} FeedAllLinear(r: seq<Bit>, s: seq<Bit>, a: seq<Bit>, b: seq<Bit>)
    requires |r| == 32 && |s| == 32 && |a| == |b|
    ensures FeedAll(Xor(r, s), Xor(a, b)) == Xor(FeedAll(r, a), FeedAll(s, b))
    decreases |a|
  {
    if a != [] {
      assert Xor(a, b)[1..] == Xor(a[1..], b[1..]);
      FeedLinear(r, s, a[0], b[0]);
      FeedAllLinear(Feed(r, a[0]), Feed(s, b[0]), a[1..], b[1..]);
    }
  }

  /** Zeros in front are shifted out without meeting the generator. */
  lemma {:induction false} ShiftOut(k: nat, x: seq<Bit>)
    requires k + |x| == 32
    ensures FeedAll(Zeros(k) + x, Zeros(k)) == x + Zeros(k)
    decreases k
  {
    if k == 0 {
      assert Zeros(0) + x == x == x + Zeros(0);
    } else {
      assert Feed(Zeros(k) + x, 0) == Zeros(k - 1) + (x + [0]);
      assert Zeros(k)[1..] == Zeros(k - 1);
      ShiftOut(k - 1, x + [0]);
      assert x + [0] + Zeros(k - 1) == x + Zeros(k);
    }
  }

  /** Bits at the top of the register cancel against the same bits of the message. */
  lemma {:induction false} Cancels(b: seq<Bit>)
    requires |b| <= 32
    ensures FeedAll(b + Zeros(32 - |b|), b) == Zeros(32)
    decreases |b|
  {
    if b == [] {
      assert b + Zeros(32) == Zeros(32);
    } else {
      assert Feed(b + Zeros(32 - |b|), b[0]) == b[1..] + Zeros(33 - |b|);
      Cancels(b[1..]);
    }
  }

  // ----- the table-driven step -----

  /** What crc_init puts into entry i: eight shifts of i << 24. */
  function TableEntry(i: seq<Bit>): (w: seq<Bit>)
    requires |i| == 8
    ensures |w| == 32
  {
    FeedAll(i + Zeros(24), Zeros(8))
  }

  /** cksum_be: (crc << 8) ^ table[(crc >> 24) ^ c] */
  function StepBe(crc: seq<Bit>, c: seq<Bit>): (w: seq<Bit>)
    requires |crc| == 32 && |c| == 8
    ensures |w| == 32
  {
    Xor(crc[8..] + Zeros(8), TableEntry(Xor(crc[..8], c)))
  }

  /** Bits of the message may be added to the top of the register in advance. */
  lemma {:induction false} AddTwice(hi: seq<Bit>, c: seq<Bit>)
    requires |hi| == 8 && |c| == 8
    ensures Xor(Xor(hi, c) + Zeros(24), c + Zeros(24)) == hi + Zeros(24) && Xor(Zeros(8), c) == c
  {
    assert Xor(Xor(hi, c), c) == hi;
  }

  lemma {:induction false} AddInAdvance(hi: seq<Bit>, c: seq<Bit>)
    requires |hi| == 8 && |c| == 8
    ensures FeedAll(hi + Zeros(24), c) == FeedAll(Xor(hi, c) + Zeros(24), Zeros(8))
  {
    var x := Xor(hi, c);
    AddTwice(hi, c);
    FeedAllLinear(x + Zeros(24), c + Zeros(24), Zeros(8), c);
    Cancels(c);
    AddNothing(FeedAll(x + Zeros(24), Zeros(8)));
  }

  lemma {:induction false} AddNothing(w: seq<Bit>)
    requires |w| == 32
    ensures Xor(w, Zeros(32)) == w
  {
  }

  /** One table step divides by the eight bits of the byte, most significant bit first. */
  lemma {:induction false} StepBeDivides(crc: seq<Bit>, c: seq<Bit>)
    requires |crc| == 32 && |c| == 8
    ensures StepBe(crc, c) == FeedAll(crc, c)
  {
    var hi, lo, z := crc[..8], crc[8..], Zeros(8);
    calc {
      FeedAll(crc, c);
      { assert Xor(z + lo, hi + Zeros(24)) == crc; assert Xor(z, c) == c; }
      FeedAll(Xor(z + lo, hi + Zeros(24)), Xor(z, c));
      { FeedAllLinear(z + lo, hi + Zeros(24), z, c); }
      Xor(FeedAll(z + lo, z), FeedAll(hi + Zeros(24), c));
      { ShiftOut(8, lo); AddInAdvance(hi, c); }
      Xor(lo + z, TableEntry(Xor(hi, c)));
    }
  }

  // ----- the other bit order -----

  /** c & 1 ? (c >> 1) ^ 0xedb88320 : c >> 1 */
  function ShiftLe(c: seq<Bit>): (w: seq<Bit>)
    requires |c| == 32
    ensures |w| == 32
  {
    var shifted := [0] + c[..31];
    if c[31] == 1 then Xor(shifted, POLY_LE) else shifted
  }

  function ShiftsLe(c: seq<Bit>, n: nat): (w: seq<Bit>)
    requires |c| == 32
    ensures |w| == 32
    decreases n
  {
    if n == 0 then c else ShiftsLe(ShiftLe(c), n - 1)
  }

  function TableEntryLe(i: seq<Bit>): (w: seq<Bit>)
    requires |i| == 8
    ensures |w| == 32
  {
    ShiftsLe(Zeros(24) + i, 8)
  }

  /** cksum_le: table[(crc ^ c) & 0xff] ^ (crc >> 8) */
  function StepLe(crc: seq<Bit>, c: seq<Bit>): (w: seq<Bit>)
    requires |crc| == 32 && |c| == 8
    ensures |w| == 32
  {
    Xor(TableEntryLe(Xor(crc[24..], c)), Zeros(8) + crc[..24])
  }

  lemma {:induction false} ShiftLeMirrors(c: seq<Bit>)
    requires |c| == 32
    ensures ShiftLe(c) == Reverse(Feed(Reverse(c), 0))
  {
    PolyReversed();
    var a, b := ShiftLe(c), Reverse(Feed(Reverse(c), 0));
    forall i | 0 <= i < 32 ensures a[i] == b[i] { }
  }

  lemma {:induction false} ReverseTwice(c: seq<Bit>)
    ensures Reverse(Reverse(c)) == c
  {
  }

  lemma ZerosTail(n: nat)
    requires n > 0
    ensures Zeros(n)[1..] == Zeros(n - 1)
  {
  }

  lemma {:induction false} ShiftsLeMirror(c: seq<Bit>, n: nat)
    requires |c| == 32
    ensures ShiftsLe(c, n) == Reverse(FeedAll(Reverse(c), Zeros(n)))
    decreases n
  {
    if n == 0 {
      ReverseTwice(c);
    } else {
      var s := Feed(Reverse(c), 0);
      assert Reverse(ShiftLe(c)) == s by {
        ShiftLeMirrors(c);
        ReverseTwice(s);
      }
      assert FeedAll(Reverse(c), Zeros(n)) == FeedAll(s, Zeros(n - 1)) by { ZerosTail(n); }
      ShiftsLeMirror(ShiftLe(c), n - 1);
    }
  }

  lemma {:induction false} EntryMirrors(i: seq<Bit>)
    requires |i| == 8
    ensures Reverse(TableEntryLe(i)) == TableEntry(Reverse(i))
  {
    assert Reverse(Zeros(24) + i) == Reverse(i) + Zeros(24);
    ShiftsLeMirror(Zeros(24) + i, 8);
    ReverseTwice(TableEntry(Reverse(i)));
  }

  lemma {:induction false} XorMirrors(a: seq<Bit>, b: seq<Bit>)
    requires |a| == |b|
    ensures Reverse(Xor(a, b)) == Xor(Reverse(a), Reverse(b))
  {
  }

  lemma {:induction false} XorCommutes(a: seq<Bit>, b: seq<Bit>)
    requires |a| == |b|
    ensures Xor(a, b) == Xor(b, a)
  {
  }

  lemma {:induction false} ReverseParts(w: seq<Bit>, n: nat)
    requires n <= |w|
    ensures var k := |w| - n;
            && Reverse(w[n..]) == Reverse(w)[..k]
            && Reverse(Zeros(k) + w[..n]) == Reverse(w)[k..] + Zeros(k)
  {
  }

  /** The little-endian step is the same division, of the bits of the byte from the least
      significant one on, with the register mirrored. */
  lemma {:induction false} StepLeDivides(crc: seq<Bit>, c: seq<Bit>)
    requires |crc| == 32 && |c| == 8
    ensures Reverse(StepLe(crc, c)) == FeedAll(Reverse(crc), Reverse(c))
  {
    var r, d := Reverse(crc), Reverse(c);
    var i := Xor(crc[24..], c);
    calc {
      Reverse(StepLe(crc, c));
      { XorMirrors(TableEntryLe(i), Zeros(8) + crc[..24]); }
      Xor(Reverse(TableEntryLe(i)), Reverse(Zeros(8) + crc[..24]));
      { EntryMirrors(i); ReverseParts(crc, 24); }
      Xor(TableEntry(Reverse(i)), r[8..] + Zeros(8));
      { XorMirrors(crc[24..], c); ReverseParts(crc, 24); }
      Xor(TableEntry(Xor(r[..8], d)), r[8..] + Zeros(8));
      { XorCommutes(TableEntry(Xor(r[..8], d)), r[8..] + Zeros(8)); }
      StepBe(r, d);
      { StepBeDivides(r, d); }
      FeedAll(r, d);
    }
  }

  // ----- crc_init and cksum -----

  lemma {:induction false} BitsOfValue(bits: seq<Bit>)
    ensures BitsOf(Value(bits), |bits|) == bits
  {
    if bits != [] {
      BitsOfValue(bits[..|bits| - 1]);
    }
  }

  lemma {:induction false} FeedZero(c: seq<Bit>, j: nat)
    requires |c| == 32 && j > 0
    ensures FeedAll(c, Zeros(j)) == FeedAll(Feed(c, 0), Zeros(j - 1))
  {
    assert Zeros(j)[1..] == Zeros(j - 1);
  }

  function Entry(littleEndian: bool, i: nat): (w: seq<Bit>)
    ensures |w| == 32
  {
    if littleEndian then TableEntryLe(BitsOf(i, 8)) else TableEntry(BitsOf(i, 8))
  }

  ghost predicate IsTable(table: seq<seq<Bit>>, littleEndian: bool)
  {
    |table| == 256 && forall i :: 0 <= i < 256 ==> table[i] == Entry(littleEndian, i)
  }

  /** The first n entries are in place. */
  ghost predicate Filled(table: seq<seq<Bit>>, littleEndian: bool, n: nat)
  {
    n <= |table| == 256 && forall i :: 0 <= i < n ==> table[i] == Entry(littleEndian, i)
  }

  lemma FilledNext(table: seq<seq<Bit>>, littleEndian: bool, n: nat)
    requires Filled(table, littleEndian, n) && n < 256
    ensures Filled(table[n := Entry(littleEndian, n)], littleEndian, n + 1)
  {
  }

  /** The inner loop of crc_init. */
  method ComputeEntry(i: nat, littleEndian: bool) returns (c: seq<Bit>)
    ensures c == Entry(littleEndian, i)
  {
    c := if littleEndian then Zeros(24) + BitsOf(i, 8) else BitsOf(i, 8) + Zeros(24);
    var j := 8;
    while j > 0
      invariant |c| == 32
      invariant littleEndian ==> ShiftsLe(c, j) == Entry(littleEndian, i)
      invariant !littleEndian ==> FeedAll(c, Zeros(j)) == Entry(littleEndian, i)
    {
      FeedZero(c, j);
      c := if littleEndian then ShiftLe(c) else Feed(c, 0);
      j := j - 1;
    }
  }

  /** crc_init. */
  method CrcInit(crcTable: array<seq<Bit>>, littleEndian: bool)
    requires crcTable.Length == 256
    modifies crcTable
    ensures IsTable(crcTable[..], littleEndian)
  {
    for i := 0 to 256
      invariant Filled(crcTable[..], littleEndian, i)
    {
      ghost var before := crcTable[..];
      var c := ComputeEntry(i, littleEndian);
      crcTable[i] := c;
      FilledNext(before, littleEndian, i);
      assert crcTable[..] == before[i := c];
    }
  }

  /** cksum_be or cksum_le, on a table made by crc_init. */
  method Cksum(crcTable: array<seq<Bit>>, littleEndian: bool, crc: seq<Bit>, c: Byte) returns (r: seq<Bit>)
    requires IsTable(crcTable[..], littleEndian) && |crc| == 32
    ensures |r| == 32 && Register(littleEndian, r) == FeedAll(Register(littleEndian, crc), ByteBits(littleEndian, c))
  {
    var b := BitsOf(c, 8);
    if littleEndian {
      var i := Xor(crc[24..], b);
      BitsOfValue(i);
      ValueBound(i);
      assert crcTable[..][Value(i)] == TableEntryLe(i);
      r := Xor(crcTable[Value(i)], Zeros(8) + crc[..24]);
      StepLeDivides(crc, b);
    } else {
      var i := Xor(crc[..8], b);
      BitsOfValue(i);
      ValueBound(i);
      assert crcTable[..][Value(i)] == TableEntry(i);
      r := Xor(crc[8..] + Zeros(8), crcTable[Value(i)]);
      StepBeDivides(crc, b);
    }
  }

  /** The remainder a register stands for, and the order in which the bits of a byte are divided. */
  function Register(littleEndian: bool, crc: seq<Bit>): (r: seq<Bit>)
    ensures |r| == |crc|
  {
    if littleEndian then Reverse(crc) else crc
  }

  function ByteBits(littleEndian: bool, c: Byte): (bits: seq<Bit>)
    ensures |bits| == 8
  {
    if littleEndian then Reverse(BitsOf(c, 8)) else BitsOf(c, 8)
  }

  function MessageBits(littleEndian: bool, s: seq<Byte>): (bits: seq<Bit>)
    decreases |s|
  {
    if s == [] then [] else MessageBits(littleEndian, s[..|s| - 1]) + ByteBits(littleEndian, s[|s| - 1])
  }

  lemma {:induction false} MessageBitsLast(littleEndian: bool, s: seq<Byte>, c: Byte)
    ensures MessageBits(littleEndian, s + [c]) == MessageBits(littleEndian, s) + ByteBits(littleEndian, c)
  {
    assert (s + [c])[..|s|] == s;
  }

  /** The octets of the length, least significant first, none for an empty message. */
  function LengthOctets(n: nat): (s: seq<Byte>)
  {
    if n == 0 then [] else [n % 256] + LengthOctets(n / 256)
  }

  /** The number written by the octets, the lowest first. */
  ghost function OctetsValue(s: seq<Byte>): (n: nat) { if s == [] then 0 else s[0] + 256 * OctetsValue(s[1..]) }

  /** The octets of a length write it, with none too many. */
  lemma {:induction false} OctetsOfLength(n: nat)
    ensures var s := LengthOctets(n); OctetsValue(s) == n && (s != [] ==> s[|s| - 1] != 0)
  {
    if n > 0 {
      OctetsOfLength(n / 256);
      var s := LengthOctets(n);
      assert s[1..] == LengthOctets(n / 256);
    }
  }

  function Flatten(chunks: seq<seq<Byte>>): (s: seq<Byte>)
    decreases |chunks|
  {
    if chunks == [] then [] else Flatten(chunks[..|chunks| - 1]) + chunks[|chunks| - 1]
  }

  /** The part of do_cksum that runs over one buffer of data. */
  method CksumData(crcTable: array<seq<Bit>>, littleEndian: bool, crc: seq<Bit>, data: seq<Byte>,
                   ghost start: seq<Bit>, ghost before: seq<Byte>)
    returns (r: seq<Bit>)
    requires IsTable(crcTable[..], littleEndian) && |crc| == 32 && |start| == 32
    requires Register(littleEndian, crc) == FeedAll(start, MessageBits(littleEndian, before))
    ensures |r| == 32 && Register(littleEndian, r) == FeedAll(start, MessageBits(littleEndian, before + data))
  {
    r := crc;
    assert before + data[..0] == before;
    for i := 0 to |data|
      invariant |r| == 32
      invariant Register(littleEndian, r) == FeedAll(start, MessageBits(littleEndian, before + data[..i]))
    {
      MessageBitsLast(littleEndian, before + data[..i], data[i]);
      TakeOneMore(before, data, i);
      FeedConcat(start, MessageBits(littleEndian, before + data[..i]), ByteBits(littleEndian, data[i]));
      r := Cksum(crcTable, littleEndian, r, data[i]);
    }
    assert before + data[..|data|] == before + data;
  }

  lemma {:induction false} NextOctet(done: seq<Byte>, n: nat)
    requires n > 0
    ensures done + LengthOctets(n) == (done + [n % 256]) + LengthOctets(n / 256)
  {
  }

  /** Appends the octets of the length, as long as there are any. */
  method CksumLength(crcTable: array<seq<Bit>>, littleEndian: bool, crc: seq<Bit>, length: nat,
                     ghost start: seq<Bit>, ghost data: seq<Byte>)
    returns (r: seq<Bit>)
    requires IsTable(crcTable[..], littleEndian) && |crc| == 32 && |start| == 32
    requires Register(littleEndian, crc) == FeedAll(start, MessageBits(littleEndian, data))
    ensures |r| == 32
    ensures Register(littleEndian, r) == FeedAll(start, MessageBits(littleEndian, data + LengthOctets(length)))
  {
    r := crc;
    var llen := length;
    ghost var done: seq<Byte> := data;
    ghost var all := data + LengthOctets(length);
    while llen > 0
      invariant |r| == 32 && done + LengthOctets(llen) == all
      invariant Register(littleEndian, r) == FeedAll(start, MessageBits(littleEndian, done))
    {
      var octet: Byte := llen % 256;
      r := CksumData(crcTable, littleEndian, r, [octet], start, done);
      NextOctet(done, llen);
      done := done + [octet];
      llen := llen / 256;
    }
    assert done + [] == done;
  }

  /** The loop over the reads. */
  method CksumReads(crcTable: array<seq<Bit>>, littleEndian: bool, start: seq<Bit>, buffers: seq<seq<Byte>>)
    returns (crc: seq<Bit>, llen: nat)
    requires IsTable(crcTable[..], littleEndian) && |start| == 32
    ensures |crc| == 32 && llen == |Flatten(buffers)|
    ensures Register(littleEndian, crc) ==
            FeedAll(Register(littleEndian, start), MessageBits(littleEndian, Flatten(buffers)))
  {
    crc, llen := start, 0;
    for k := 0 to |buffers|
      invariant |crc| == 32 && llen == |Flatten(buffers[..k])|
      invariant Register(littleEndian, crc) ==
                FeedAll(Register(littleEndian, start), MessageBits(littleEndian, Flatten(buffers[..k])))
    {
      assert buffers[..k + 1][..k] == buffers[..k];
      llen := llen + |buffers[k]|;
      crc := CksumData(crcTable, littleEndian, crc, buffers[k], Register(littleEndian, start), Flatten(buffers[..k]));
    }
    assert buffers[..|buffers|] == buffers;
  }

  /** do_cksum: the remainder of the whole message, however it was cut into reads, followed by the
      octets of its length unless -N is given; -P starts from all ones, and the result is inverted
      unless -I is given. */
  method DoCksum(crcTable: array<seq<Bit>>, littleEndian: bool, preInvert: bool, noLength: bool, noPostInvert: bool,
                 buffers: seq<seq<Byte>>)
    returns (crc: seq<Bit>, llen2: nat)
    requires IsTable(crcTable[..], littleEndian)
    ensures llen2 == |Flatten(buffers)|
    ensures var start := if preInvert then Invert(Zeros(32)) else Zeros(32);
            var data := Flatten(buffers);
            var rest := FeedAll(start, MessageBits(littleEndian, if noLength then data else data + LengthOctets(|data|)));
            Register(littleEndian, crc) == if noPostInvert then rest else Invert(rest)
  {
    var start := if preInvert then Invert(Zeros(32)) else Zeros(32);
    assert Register(littleEndian, start) == start;
    crc, llen2 := CksumReads(crcTable, littleEndian, start, buffers);
    if !noLength {
      crc := CksumLength(crcTable, littleEndian, crc, llen2, start, Flatten(buffers));
    }
    if !noPostInvert {
      InvertMirrors(crc);
      crc := Invert(crc);
    }
  }

  lemma {:induction false} InvertMirrors(w: seq<Bit>)
    ensures Reverse(Invert(w)) == Invert(Reverse(w))
  {
  }
}
