/**
 Bits of the compressed input, most significant first, and the reader that hands them out
 from a 32-bit register (get_bits, lib/bunzip.c).

 Shifts and masks of the register are written as Shl, Shr and Low.
 */
module BitStream {
  import opened Powers

  type Bit = b: int | 0 <= b <= 1

  /** v >> k */
  function Shr(v: nat, k: nat): nat { if k == 0 then v else Shr(v / 2, k - 1) }

  /** v & ((1 << k) - 1) */
  function Low(v: nat, k: nat): nat { if k == 0 then 0 else 2 * Low(v / 2, k - 1) + v % 2 }

  /** v << k in 32 bits */
  function Shl(v: nat, k: nat): nat { Low(v * Pow2(k), 32) }

  /** The number written by the bits. */
  function Value(bits: seq<Bit>): (v: nat)
  {
    if bits == [] then 0 else 2 * Value(bits[..|bits| - 1]) + bits[|bits| - 1]
  }

  /** The lowest w bits of v. */
  function BitsOf(v: nat, w: nat): (bits: seq<Bit>)
    ensures |bits| == w
  {
    if w == 0 then [] else BitsOf(v / 2, w - 1) + [v % 2]
  }

  lemma {:induction false} ValueOfBits(v: nat, w: nat)
    ensures Value(BitsOf(v, w)) == Low(v, w)
  {
    if w > 0 {
      ValueOfBits(v / 2, w - 1);
      assert BitsOf(v, w)[..w - 1] == BitsOf(v / 2, w - 1);
    }
  }

  lemma {:induction false} ValueConcat(a: seq<Bit>, b: seq<Bit>)
    ensures Value(a + b) == Value(a) * Pow2(|b|) + Value(b)
  {
    if b == [] {
      assert a + b == a;
    } else {
      var c := b[..|b| - 1];
      assert (a + b)[..|a + b| - 1] == a + c;
      ValueConcat(a, c);
      DoubledProduct(Value(a), Pow2(|c|));
    }
  }

  lemma {:induction false} ValueBound(bits: seq<Bit>)
    ensures Value(bits) < Pow2(|bits|)
  {
    if bits != [] {
      ValueBound(bits[..|bits| - 1]);
    }
  }

  lemma {:induction false} LowOfSmall(v: nat, w: nat)
    requires v < Pow2(w)
    ensures Low(v, w) == v
  {
    if w > 0 {
      LowOfSmall(v / 2, w - 1);
    }
  }

  /** A number below 2^w is read back from its w bits. */
  lemma {:induction false} BitsRoundTrip(v: nat, w: nat)
    requires v < Pow2(w)
    ensures Value(BitsOf(v, w)) == v
  {
    ValueOfBits(v, w);
    LowOfSmall(v, w);
  }

  lemma {:induction false} BitsSplit(v: nat, a: nat, b: nat)
    ensures BitsOf(v, a + b) == BitsOf(Shr(v, b), a) + BitsOf(v, b)
  {
    if b > 0 {
      BitsSplit(v / 2, a, b - 1);
    }
  }

  /** Bits pushed out at the top of the register do not matter. */
  lemma {:induction false} BitsOfLow(v: nat, k: nat, w: nat)
    requires w <= k
    ensures BitsOf(Low(v, k), w) == BitsOf(v, w)
  {
    if w > 0 {
      BitsOfLow(v / 2, k - 1, w - 1);
    }
  }

  /** Shifting a byte into the register. */
  lemma {:induction false} BitsOfShifted(v: nat, x: nat, k: nat, c: nat)
    requires x < Pow2(k)
    ensures BitsOf(v * Pow2(k) + x, c + k) == BitsOf(v, c) + BitsOf(x, k)
  {
    if k > 0 {
      var w := v * Pow2(k - 1);
      DoubledProduct(v, Pow2(k - 1));
      BitsOfShifted(v, x / 2, k - 1, c);
      LastBit(w, x, c + k);
      assert BitsOf(v, c) + BitsOf(x, k) == (BitsOf(v, c) + BitsOf(x / 2, k - 1)) + [x % 2];
    }
  }

  lemma DoubledProduct(v: nat, p: nat)
    ensures v * (2 * p) == 2 * (v * p)
  {
  }

  lemma {:induction false} LastBit(w: nat, x: nat, n: nat)
    requires n > 0
    ensures BitsOf(2 * w + x, n) == BitsOf(w + x / 2, n - 1) + [x % 2]
  {
    assert (2 * w + x) / 2 == w + x / 2 && (2 * w + x) % 2 == x % 2;
  }

  // ----- bytes and chunks of input -----

  type Byte = b: int | 0 <= b < 256

  function BytesBits(s: seq<Byte>): (bits: seq<Bit>)
  {
    if s == [] then [] else BitsOf(s[0], 8) + BytesBits(s[1..])
  }

  /** What successive reads deliver; a read of nothing is the end of the input. */
  function ChunksBits(input: seq<seq<Byte>>): (bits: seq<Bit>)
  {
    if input == [] || input[0] == [] then [] else BytesBits(input[0]) + ChunksBits(input[1..])
  }

  /** The input side of struct bunzip_data. */
  class BitReader {
    var input: seq<seq<Byte>>   // the results of the reads still to come
    var inbuf: seq<Byte>        // the result of the last read
    var inbufPos: nat
    var inbufBits: nat
    var inbufBitCount: nat

    ghost predicate Valid()
      reads this
    {
      inbufPos <= |inbuf| && inbufBitCount <= 31
    }

    /** Every bit not yet handed out. */
    ghost function Remaining(): (bits: seq<Bit>)
      reads this
      requires inbufPos <= |inbuf|
    {
      BitsOf(inbufBits, inbufBitCount) + (BytesBits(inbuf[inbufPos..]) + ChunksBits(input))
    }

    constructor (chunks: seq<seq<Byte>>)
      ensures Valid() && Remaining() == ChunksBits(chunks)
    {
      input, inbuf, inbufPos, inbufBits, inbufBitCount := chunks, [], 0, 0, 0;
    }

    /** Ensures there is a byte in the buffer, reading more input if need be. */
    method Refill() returns (ok: bool)
      requires Valid()
      modifies this`input, this`inbuf, this`inbufPos
      ensures Valid() && Remaining() == old(Remaining())
      ensures ok ==> inbufPos < |inbuf|
      ensures !ok ==> Remaining() == BitsOf(inbufBits, inbufBitCount)
    {
      ok := true;
      if inbufPos == |inbuf| {
        if input == [] || input[0] == [] {
          return false;
        }
        assert BytesBits(inbuf[inbufPos..]) == [];
        inbuf, input, inbufPos := input[0], input[1..], 0;
        assert inbuf[0..] == inbuf;
      }
    }

    /** Moves one byte from the buffer into the register. */
    method GrabByte()
      requires Valid() && inbufBitCount < 24 && inbufPos < |inbuf|
      modifies this`inbufPos, this`inbufBits, this`inbufBitCount
      ensures Valid() && Remaining() == old(Remaining())
      ensures inbufBitCount == old(inbufBitCount) + 8
    {
      var x := inbuf[inbufPos];
      ghost var v, c, tail := inbufBits, inbufBitCount, inbuf[inbufPos..];
      assert tail[1..] == inbuf[inbufPos + 1..];
      inbufBits := Low(inbufBits * 256 + x, 32);
      inbufPos := inbufPos + 1;
      inbufBitCount := inbufBitCount + 8;
      assert BitsOf(inbufBits, c + 8) == BitsOf(v, c) + BitsOf(x, 8) by {
        assert Pow2(8) == 256;
        BitsOfLow(v * 256 + x, 32, c + 8);
        BitsOfShifted(v, x, 8, c);
      }
    }
  
    /** Empties the register into the upper part of the result. */
    method DumpBits(wanted: nat) returns (bits: nat)
      requires Valid() && inbufBitCount < wanted <= 32
      modifies this`inbufBitCount
      ensures Valid() && inbufBitCount == 0
      ensures |old(Remaining())| >= old(inbufBitCount)
      ensures Remaining() == old(Remaining())[old(inbufBitCount)..]
      ensures bits == Value(old(Remaining())[..old(inbufBitCount)]) * Pow2(wanted - old(inbufBitCount))
    {
      ghost var pending := BitsOf(inbufBits, inbufBitCount);
      ghost var all := Remaining();
      assert all[..inbufBitCount] == pending;
      var high := Low(inbufBits, inbufBitCount);
      bits := Shl(high, wanted - inbufBitCount);
      assert bits == high * Pow2(wanted - inbufBitCount) && high == Value(pending) by {
        ValueOfBits(inbufBits, inbufBitCount);
        ValueBound(pending);
        ShiftFits(high, inbufBitCount, wanted - inbufBitCount, 32);
      }
      inbufBitCount := 0;
    }

    /** Takes bits that are in the register already; they stay there, above those still pending. */
    method TakeBits(w: nat) returns (v: nat)
      requires Valid() && w <= inbufBitCount
      modifies this`inbufBitCount
      ensures Valid() && inbufBitCount == old(inbufBitCount) - w
      ensures |old(Remaining())| >= w && v == Value(old(Remaining())[..w])
      ensures Remaining() == old(Remaining())[w..]
      ensures BitsOf(inbufBits, inbufBitCount + w) == old(Remaining())[..w] + BitsOf(inbufBits, inbufBitCount)
    {
      ghost var all := Remaining();
      inbufBitCount := inbufBitCount - w;
      v := Low(Shr(inbufBits, inbufBitCount), w);
      BitsSplit(inbufBits, w, inbufBitCount);
      ValueOfBits(Shr(inbufBits, inbufBitCount), w);
      assert all[..w] == BitsOf(Shr(inbufBits, inbufBitCount), w);
    }

    /** The loop of get_bits: fills the register until it holds all bits still wanted. A wide
        read empties the register once on the way, so that never more than 31 bits are held. */
    method FillBits(w: nat) returns (ok: bool, bits: nat, wanted: nat)
      requires Valid() && 1 <= w <= 32
      modifies this
      ensures Valid()
      ensures ok <==> |old(Remaining())| >= w
      ensures ok ==>
                && 1 <= wanted <= w && wanted <= inbufBitCount && (w <= 24 ==> wanted == w)
                && Remaining() == old(Remaining())[w - wanted..]
                && bits == Value(old(Remaining())[..w - wanted]) * Pow2(wanted)
    {
      ghost var all := Remaining();
      ghost var done := 0;
      bits, wanted := 0, w;
      while inbufBitCount < wanted
        invariant Valid() && wanted == w - done && 0 <= done < w && done <= |all|
        invariant done > 0 ==> wanted <= 8 && 25 <= w
        invariant Remaining() == all[done..]
        invariant bits == Value(all[..done]) * Pow2(wanted)
        decreases wanted - inbufBitCount
      {
        ok := Refill();
        if !ok {
          return;
        }
        if inbufBitCount >= 24 {
          var held := inbufBitCount;
          assert done == 0 && Remaining() == all;
          bits := DumpBits(wanted);
          wanted, done := wanted - held, held;
        }
        GrabByte();
      }
      ok := true;
      assert |Remaining()| >= inbufBitCount;
    }

    /** get_bits: the next w bits as a number. The two parts of the result share no bit, so that
        their bitwise or is their sum. */
    method GetBits(w: nat) returns (ok: bool, r: nat)
      requires Valid() && 1 <= w <= 32
      modifies this
      ensures Valid()
      ensures ok <==> |old(Remaining())| >= w
      ensures ok ==> r == Value(old(Remaining())[..w]) && Remaining() == old(Remaining())[w..]
      ensures ok && w <= 24 ==>
                && inbufBitCount + w <= 31
                && BitsOf(inbufBits, inbufBitCount + w) == old(Remaining())[..w] + BitsOf(inbufBits, inbufBitCount)
    {
      var bits, wanted;
      ok, bits, wanted := FillBits(w);
      r := 0;
      if ok {
        var low := TakeBits(wanted);
        TwoParts(old(Remaining()), w - wanted, wanted);
        r := bits + low;
      }
    }

    /** get_bits for a single bit, which is usually in the register already. */
    method NextBit() returns (ok: bool, bit: Bit)
      requires Valid()
      modifies this
      ensures Valid()
      ensures ok <==> old(Remaining()) != []
      ensures ok ==> bit == old(Remaining())[0] && Remaining() == old(Remaining())[1..]
    {
      ghost var all := Remaining();
      var v;
      if inbufBitCount > 0 {
        v := TakeBits(1);
        ok := true;
      } else {
        ok, v := GetBits(1);
      }
      bit := 0;
      if ok {
        assert all[..1] == [all[0]] && [all[0]][..0] == [];
        bit := v;
      }
    }

    /** Hands back the last of the bits just read: inbufBitCount++. */
    method UnreadBit(ghost bit: Bit)
      requires Valid() && inbufBitCount < 31
      requires BitsOf(inbufBits, inbufBitCount + 1) == [bit] + BitsOf(inbufBits, inbufBitCount)
      modifies this`inbufBitCount
      ensures Valid() && Remaining() == [bit] + old(Remaining())
    {
      inbufBitCount := inbufBitCount + 1;
    }
  }

  lemma {:induction false} TwoParts(all: seq<Bit>, a: nat, b: nat)
    requires a + b <= |all|
    ensures Value(all[..a + b]) == Value(all[..a]) * Pow2(b) + Value(all[a..][..b])
    ensures all[a..][b..] == all[a + b..]
    ensures a == 0 ==> all[a..][..b] == all[..b]
  {
    assert all[..a + b] == all[..a] + all[a..][..b];
    ValueConcat(all[..a], all[a..][..b]);
  }

  /** Nothing is shifted out of a word that is wide enough. */
  lemma {:induction false} ShiftFits(v: nat, a: nat, b: nat, width: nat)
    requires v < Pow2(a) && a + b <= width
    ensures Low(v * Pow2(b), width) == v * Pow2(b)
  {
    Pow2Add(a, b);
    Pow2Grows(a + b, width);
    MulLess(v, Pow2(a), Pow2(b));
    LowOfSmall(v * Pow2(b), width);
  }
}
