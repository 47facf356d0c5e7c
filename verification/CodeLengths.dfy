/**
 The code lengths in the header of a bzip2 block, each written as steps up or down from the one
 before (read_block_header, lib/bunzip.c). Two bits are read at a time; when the first one ends
 the steps, the second is handed back.
 */
module CodeLengths {
  import opened Powers
  import opened BitStream
  import opened Huffman

  datatype ReadLen = Length(hh: int, rest: seq<Bit>) | Wrong(status: Status)

  predicate InRange(hh: int) { 1 <= hh <= MAX_HUFCODE_BITS }

  function ReadLength(hh: int, bits: seq<Bit>): (r: ReadLen)
    ensures r.Length? ==> InRange(r.hh) && |r.rest| < |bits|
    ensures r.Wrong? ==> r.status != Good
    decreases |bits|
  {
    if !InRange(hh) then Wrong(DataError)
    else if |bits| < 2 then Wrong(UnexpectedEof)
    else if bits[0] == 0 then Length(hh, bits[1..])
    else ReadLength(hh + (if bits[1] == 0 then 1 else -1), bits[2..])
  }

  datatype ReadLens = AllLengths(ls: seq<int>, rest: seq<Bit>) | AllWrong(status: Status)

  function ReadLengths(n: nat, hh: int, bits: seq<Bit>): (r: ReadLens)
    ensures r.AllLengths? ==> |r.ls| == n && forall i :: 0 <= i < n ==> InRange(r.ls[i])
    ensures r.AllWrong? ==> r.status != Good
    decreases n
  {
    if n == 0 then AllLengths([], bits) else
    match ReadLength(hh, bits)
    case Wrong(s) => AllWrong(s)
    case Length(h, rest) =>
      match ReadLengths(n - 1, h, rest)
      case AllWrong(s) => AllWrong(s)
      case AllLengths(ls, t) => AllLengths([h] + ls, t)
  }

  /** The table of one code: its first length in five bits, then the steps. */
  function ReadTable(n: nat, bits: seq<Bit>): (r: ReadLens)
    ensures r.AllWrong? ==> r.status != Good
  {
    if |bits| < 5 then AllWrong(UnexpectedEof) else ReadLengths(n, Value(bits[..5]), bits[5..])
  }

  // ----- the encoder -----

  function Steps(h: int, t: int): (bits: seq<Bit>)
    decreases if h < t then t - h else h - t
  {
    if h < t then [1, 0] + Steps(h + 1, t)
    else if h > t then [1, 1] + Steps(h - 1, t)
    else [0]
  }

  function EncodeLengths(h: int, ls: seq<int>): (bits: seq<Bit>)
    decreases |ls|
  {
    if ls == [] then [] else Steps(h, ls[0]) + EncodeLengths(ls[0], ls[1..])
  }

  function EncodeTable(ls: seq<int>): (bits: seq<Bit>)
    requires ls != [] && ls[0] >= 0
  {
    BitsOf(ls[0], 5) + EncodeLengths(ls[0], ls)
  }

  lemma {:induction false} ReadSteps(h: int, t: int, tail: seq<Bit>)
    requires InRange(h) && InRange(t) && tail != []
    ensures ReadLength(h, Steps(h, t) + tail) == Length(t, tail)
    decreases if h < t then t - h else h - t
  {
    var bits := Steps(h, t) + tail;
    if h == t {
      assert bits[1..] == tail;
    } else {
      var h' := if h < t then h + 1 else h - 1;
      assert bits[2..] == Steps(h', t) + tail;
      ReadSteps(h', t, tail);
    }
  }

  lemma {:induction false} ReadEncodedLengths(h: int, ls: seq<int>, tail: seq<Bit>)
    requires InRange(h) && tail != [] && forall i :: 0 <= i < |ls| ==> InRange(ls[i])
    ensures ReadLengths(|ls|, h, EncodeLengths(h, ls) + tail) == AllLengths(ls, tail)
    decreases |ls|
  {
    if ls == [] {
      assert EncodeLengths(h, ls) + tail == tail;
    } else {
      var rest := EncodeLengths(ls[0], ls[1..]) + tail;
      assert EncodeLengths(h, ls) + tail == Steps(h, ls[0]) + rest;
      ReadSteps(h, ls[0], rest);
      ReadEncodedLengths(ls[0], ls[1..], tail);
      assert ls == [ls[0]] + ls[1..];
    }
  }

  /** For every vector of lengths, what was written is read back, and everything after it is left
      in place; one more bit must follow, because two are read at a time. */
  lemma {:induction false} ReadEncodedTable(ls: seq<int>, tail: seq<Bit>)
    requires Lengths(ls) && tail != []
    ensures ReadTable(|ls|, EncodeTable(ls) + tail) == AllLengths(ls, tail)
  {
    var head, rest := BitsOf(ls[0], 5), EncodeLengths(ls[0], ls) + tail;
    var bits := EncodeTable(ls) + tail;
    assert bits == head + rest && bits[..5] == head && bits[5..] == rest;
    assert Pow2(5) == 32;
    BitsRoundTrip(ls[0], 5);
    ReadEncodedLengths(ls[0], ls, tail);
  }

  // ----- reading them in place -----

  /** The inner loop: one length. */
  method NextLength(bd: BitReader, start: int) returns (status: Status, hh: int)
    requires bd.Valid()
    modifies bd
    ensures bd.Valid()
    ensures match ReadLength(start, old(bd.Remaining()))
            case Wrong(s) => status == s
            case Length(h, rest) => status == Good && hh == h && bd.Remaining() == rest
  {
    hh := start;
    while true
      invariant bd.Valid()
      invariant ReadLength(hh, bd.Remaining()) == ReadLength(start, old(bd.Remaining()))
      decreases |bd.Remaining()|
    {
      if !(1 <= hh <= MAX_HUFCODE_BITS) {
        return DataError, hh;
      }
      ghost var bits := bd.Remaining();
      var ok, kk := bd.GetBits(2);
      if !ok {
        return UnexpectedEof, hh;
      }
      TwoBits(bits);
      if kk >= 2 {
        hh := hh + 1 - 2 * (kk % 2);
      } else {
        HandBack(bd.inbufBits, bd.inbufBitCount, bits);
        bd.UnreadBit(bits[1]);
        assert [bits[1]] + bits[2..] == bits[1..];
        return Good, hh;
      }
    }
  }

  lemma {:induction false} TwoBits(bits: seq<Bit>)
    requires |bits| >= 2
    ensures (Value(bits[..2]) >= 2 <==> bits[0] == 1) && Value(bits[..2]) % 2 == bits[1]
  {
    assert bits[..2][..1] == bits[..1] && bits[..1][..0] == [];
    assert Value(bits[..1]) == bits[0];
  }

  /** After two bits were taken, the second is still the lowest one above those pending. */
  lemma {:induction false} HandBack(v: nat, count: nat, bits: seq<Bit>)
    requires |bits| >= 2 && BitsOf(v, count + 2) == bits[..2] + BitsOf(v, count)
    ensures BitsOf(v, count + 1) == [bits[1]] + BitsOf(v, count)
  {
    BitsSplit(v, 1, count + 1);
    assert BitsOf(v, count + 2)[1..] == BitsOf(v, count + 1);
    assert (bits[..2] + BitsOf(v, count))[1..] == [bits[1]] + BitsOf(v, count);
  }

  /** The loop over the symbols. */
  method ReadCodeLengths(bd: BitReader, symCount: nat) returns (status: Status, length: seq<int>)
    requires bd.Valid()
    modifies bd
    ensures bd.Valid()
    ensures match ReadTable(symCount, old(bd.Remaining()))
            case AllWrong(s) => status == s
            case AllLengths(ls, rest) => status == Good && length == ls && bd.Remaining() == rest
  {
    length := [];
    var ok, hh := bd.GetBits(5);
    if !ok {
      return UnexpectedEof, [];
    }
    ghost var result := ReadLengths(symCount, hh, bd.Remaining());
    for ii := 0 to symCount
      invariant bd.Valid() && |length| == ii
      invariant result == Prepend(length, ReadLengths(symCount - ii, hh, bd.Remaining()))
    {
      ghost var bits := bd.Remaining();
      ghost var before := hh;
      status, hh := NextLength(bd, hh);
      if status != Good {
        return;
      }
      PrependOne(length, hh, ReadLengths(symCount - ii - 1, hh, bd.Remaining()));
      length := length + [hh];
    }
    status := Good;
    assert length + [] == length;
  }

  ghost function Prepend(front: seq<int>, r: ReadLens): ReadLens
  {
    match r case AllWrong(s) => r case AllLengths(ls, rest) => AllLengths(front + ls, rest)
  }

  lemma {:induction false} PrependOne(front: seq<int>, h: int, r: ReadLens)
    ensures Prepend(front, Prepend([h], r)) == Prepend(front + [h], r)
  {
    if r.AllLengths? {
      assert front + ([h] + r.ls) == (front + [h]) + r.ls;
    }
  }
}
