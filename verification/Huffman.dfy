/**
 Canonical Huffman codes of bzip2: the code a vector of code lengths stands for, the tables
 built from the lengths, and the loop that reads one code (lib/bunzip.c).
 */
module Huffman {
  import opened Powers
  import opened Permutation
  import opened StableSort
  import opened BitStream

  const MAX_HUFCODE_BITS: nat := 20
  const MAX_SYMBOLS: nat := 258
  const INT_MAX: int := 0x7fff_ffff

  /** Code lengths by symbol. */
  ghost predicate Lengths(ls: seq<int>)
  {
    1 <= |ls| <= MAX_SYMBOLS && forall i :: 0 <= i < |ls| ==> 1 <= ls[i] <= MAX_HUFCODE_BITS
  }

  ghost predicate Shortest(ls: seq<int>, m: int)
  {
    m in ls && forall i :: 0 <= i < |ls| ==> m <= ls[i]
  }

  ghost predicate Longest(ls: seq<int>, m: int)
  {
    m in ls && forall i :: 0 <= i < |ls| ==> ls[i] <= m
  }

  // ----- the canonical code -----

  /** The smallest code of length l: one more than all shorter codes, with zeros appended. */
  function First(ls: seq<int>, l: nat): (v: nat)
  {
    if l == 0 then 0 else 2 * (First(ls, l - 1) + Count(ls, |ls|, l - 1))
  }

  /** Codes of one length are consecutive, in the order of the symbols. */
  function Code(ls: seq<int>, s: nat): (v: nat)
    requires Lengths(ls) && s < |ls|
  {
    First(ls, ls[s]) + Count(ls, s, ls[s])
  }

  function CodeBits(ls: seq<int>, s: nat): (bits: seq<Bit>)
    requires Lengths(ls) && s < |ls|
    ensures |bits| == ls[s]
  {
    BitsOf(Code(ls, s), ls[s])
  }

  // ----- the Kraft inequality -----

  /** The share of all codes of 20 bits taken by the first i symbols, as far as shorter than l. */
  function Share(ls: seq<int>, i: nat, l: nat): (n: nat)
    requires Lengths(ls) && i <= |ls|
  {
    if i == 0 then 0
    else Share(ls, i - 1, l) + if ls[i - 1] < l then Pow2(MAX_HUFCODE_BITS - ls[i - 1]) else 0
  }

  /** The codes do not take more than there is. */
  ghost predicate Kraft(ls: seq<int>)
    requires Lengths(ls)
  {
    Share(ls, |ls|, MAX_HUFCODE_BITS + 1) <= Pow2(MAX_HUFCODE_BITS)
  }

  lemma {:induction false} ShareStep(ls: seq<int>, i: nat, l: nat)
    requires Lengths(ls) && i <= |ls| && l <= MAX_HUFCODE_BITS
    ensures Share(ls, i, l + 1) == Share(ls, i, l) + Count(ls, i, l) * Pow2(MAX_HUFCODE_BITS - l)
  {
    if i > 0 {
      ShareStep(ls, i - 1, l);
      OneMore(Count(ls, i - 1, l), Pow2(MAX_HUFCODE_BITS - l));
    }
  }

  lemma OneMore(n: nat, p: nat)
    ensures (n + 1) * p == n * p + p
  {
  }

  lemma {:induction false} ShareGrows(ls: seq<int>, i: nat, l: nat, m: nat)
    requires Lengths(ls) && i <= |ls| && l <= m
    ensures Share(ls, i, l) <= Share(ls, i, m)
  {
    if i > 0 {
      ShareGrows(ls, i - 1, l, m);
    }
  }

  lemma {:induction false} ShareNone(ls: seq<int>, i: nat)
    requires Lengths(ls) && i <= |ls|
    ensures Share(ls, i, 0) == 0
  {
    if i > 0 {
      ShareNone(ls, i - 1);
    }
  }

  /** The first code of a length stands where the shorter codes end. */
  lemma {:induction false} FirstIsShare(ls: seq<int>, l: nat)
    requires Lengths(ls) && l <= MAX_HUFCODE_BITS
    ensures First(ls, l) * Pow2(MAX_HUFCODE_BITS - l) == Share(ls, |ls|, l)
  {
    if l == 0 {
      ShareNone(ls, |ls|);
    } else {
      FirstIsShare(ls, l - 1);
      ShareStep(ls, |ls|, l - 1);
      Regroup(First(ls, l - 1), Count(ls, |ls|, l - 1), Pow2(MAX_HUFCODE_BITS - l));
    }
  }

  lemma Regroup(a: nat, b: nat, p: nat)
    ensures 2 * (a + b) * p == a * (2 * p) + b * (2 * p)
  {
  }

  lemma Cancel(a: nat, b: nat, p: nat)
    requires p > 0
    ensures a <= b <==> a * p <= b * p
  {
    if a > b {
      MulLess(b, a, p);
    } else if a < b {
      MulLess(a, b, p);
    }
  }

  lemma {:induction false} FitsIsShare(ls: seq<int>, l: nat, max: nat)
    requires Lengths(ls) && l <= max == MAX_HUFCODE_BITS
    ensures First(ls, l) + Count(ls, |ls|, l) <= Pow2(l) <==> Share(ls, |ls|, l + 1) <= Pow2(max)
  {
    FirstIsShare(ls, l);
    ShareStep(ls, |ls|, l);
    Pow2Add(l, max - l);
    FitsScaled(First(ls, l), Count(ls, |ls|, l), Pow2(l), Pow2(max - l),
               Share(ls, |ls|, l), Share(ls, |ls|, l + 1), Pow2(max));
  }

  lemma FitsScaled(a: nat, b: nat, m: nat, p: nat, first: nat, share: nat, total: nat)
    requires p > 0 && first == a * p && share == first + b * p && total == m * p
    ensures a + b <= m <==> share <= total
  {
    Distribute(a, b, p);
    Cancel(a + b, m, p);
  }

  ghost predicate CodesFit(ls: seq<int>, l: nat)
  {
    First(ls, l) + Count(ls, |ls|, l) <= Pow2(l)
  }

  /** The codes of every length fit it exactly when the lengths satisfy the Kraft inequality. */
  lemma {:induction false} KraftExact(ls: seq<int>)
    requires Lengths(ls)
    ensures Kraft(ls) <==> forall l: nat :: l <= MAX_HUFCODE_BITS ==> CodesFit(ls, l)
  {
    if Kraft(ls) {
      forall l: nat | l <= MAX_HUFCODE_BITS ensures CodesFit(ls, l) {
        ShareGrows(ls, |ls|, l + 1, MAX_HUFCODE_BITS + 1);
        FitsIsShare(ls, l, MAX_HUFCODE_BITS);
      }
    }
    if CodesFit(ls, MAX_HUFCODE_BITS) {
      FitsIsShare(ls, MAX_HUFCODE_BITS, MAX_HUFCODE_BITS);
    }
  }

  lemma Distribute(a: nat, b: nat, p: nat)
    ensures (a + b) * p == a * p + b * p
  {
  }

  lemma {:induction false} CodeFits(ls: seq<int>, s: nat)
    requires Lengths(ls) && Kraft(ls) && s < |ls|
    ensures Value(CodeBits(ls, s)) == Code(ls, s)
  {
    KraftExact(ls);
    assert CodesFit(ls, ls[s]);
    CountGrows(ls, s, |ls|, ls[s]);
    BitsRoundTrip(Code(ls, s), ls[s]);
  }

  // ----- reading one code -----

  datatype Read = Symbol(sym: nat, rest: seq<Bit>) | BadCode | Eof

  /** The loop: v is what the l bits read so far say. */
  function ReadCode(ls: seq<int>, order: seq<nat>, maxLen: nat, l: nat, v: nat, bits: seq<Bit>): (r: Read)
    requires |order| == |ls|
    decreases |bits|
  {
    if l > maxLen then BadCode
    else if v < First(ls, l) + Count(ls, |ls|, l) then
      var p := v - First(ls, l) + Below(ls, |ls|, l);
      if 0 <= p < |order| then Symbol(order[p], bits) else BadCode
    else if bits == [] then Eof
    else ReadCode(ls, order, maxLen, l + 1, 2 * v + bits[0], bits[1..])
  }

  function ReadSymbol(ls: seq<int>, order: seq<nat>, minLen: nat, maxLen: nat, bits: seq<Bit>): (r: Read)
    requires |order| == |ls|
  {
    if |bits| < minLen then Eof
    else ReadCode(ls, order, maxLen, minLen, Value(bits[..minLen]), bits[minLen..])
  }

  /** Cut short, a code lies above all codes of the shorter length. */
  lemma {:induction false} PrefixAbove(ls: seq<int>, bits: seq<Bit>, l: nat)
    requires l < |bits| && Value(bits) >= First(ls, |bits|)
    ensures Value(bits[..l]) >= First(ls, l) + Count(ls, |ls|, l)
    decreases |bits| - l
  {
    var x := bits[..l + 1];
    assert x[..l] == bits[..l];
    if l + 1 < |bits| {
      PrefixAbove(ls, bits, l + 1);
    } else {
      assert x == bits;
    }
    assert 2 * Value(bits[..l]) + 1 >= First(ls, l + 1);
  }

  lemma {:induction false} PlaceOfCode(ls: seq<int>, order: seq<nat>, s: nat)
    requires Lengths(ls) && IsStableSort(ls, order) && s < |ls|
    ensures Place(ls, s) < |ls| && order[Place(ls, s)] == s
  {
    StableSortPlaces(ls, order, s);
  }

  /** A code whose bits have all been read. */
  lemma {:induction false} ReadHere(ls: seq<int>, order: seq<nat>, maxLen: nat, s: nat, v: nat, tail: seq<Bit>)
    requires Lengths(ls) && IsStableSort(ls, order) && Longest(ls, maxLen) && s < |ls| && v == Code(ls, s)
    ensures ReadCode(ls, order, maxLen, ls[s], v, tail) == Symbol(s, tail)
  {
    CountGrows(ls, s, |ls|, ls[s]);
    PlaceOfCode(ls, order, s);
  }

  /** With l bits of the code read, the loop goes on to the symbol. */
  ghost predicate ReadsFrom(ls: seq<int>, order: seq<nat>, maxLen: nat, s: nat, code: seq<Bit>, l: nat, tail: seq<Bit>)
    requires |order| == |ls| && l <= |code|
  {
    ReadCode(ls, order, maxLen, l, Value(code[..l]), code[l..] + tail) == Symbol(s, tail)
  }

  lemma {:induction false} ReadOn(ls: seq<int>, order: seq<nat>, maxLen: nat, s: nat, code: seq<Bit>, l: nat, tail: seq<Bit>)
    requires |order| == |ls| && l < |code| && l <= maxLen && Value(code[..l]) >= First(ls, l) + Count(ls, |ls|, l)
    requires ReadsFrom(ls, order, maxLen, s, code, l + 1, tail)
    ensures ReadsFrom(ls, order, maxLen, s, code, l, tail)
  {
    var bits := code[l..] + tail;
    assert bits[0] == code[l] && bits[1..] == code[l + 1..] + tail;
    assert code[..l + 1][..l] == code[..l];
  }

  lemma {:induction false} ReadFrom(ls: seq<int>, order: seq<nat>, maxLen: nat, s: nat, l: nat, tail: seq<Bit>)
    requires Lengths(ls) && Kraft(ls) && IsStableSort(ls, order) && Longest(ls, maxLen) && s < |ls|
    requires l <= ls[s]
    ensures ReadsFrom(ls, order, maxLen, s, CodeBits(ls, s), l, tail)
    decreases ls[s] - l
  {
    var code := CodeBits(ls, s);
    CodeFits(ls, s);
    if l < ls[s] {
      PrefixAbove(ls, code, l);
      ReadFrom(ls, order, maxLen, s, l + 1, tail);
      ReadOn(ls, order, maxLen, s, code, l, tail);
    } else {
      assert code[..l] == code && code[l..] + tail == tail;
      ReadHere(ls, order, maxLen, s, Value(code), tail);
    }
  }

  /** Fed the code of any symbol and then anything, the loop consumes the code and no more, and
      returns the symbol. */
  lemma {:induction false} ReadsCode(ls: seq<int>, order: seq<nat>, minLen: nat, maxLen: nat, s: nat, tail: seq<Bit>)
    requires Lengths(ls) && Kraft(ls) && IsStableSort(ls, order)
    requires Shortest(ls, minLen) && Longest(ls, maxLen) && s < |ls|
    ensures ReadSymbol(ls, order, minLen, maxLen, CodeBits(ls, s) + tail) == Symbol(s, tail)
  {
    var code := CodeBits(ls, s);
    var bits := code + tail;
    assert bits[..minLen] == code[..minLen] && bits[minLen..] == code[minLen..] + tail;
    ReadFrom(ls, order, maxLen, s, minLen, tail);
    assert ReadsFrom(ls, order, maxLen, s, code, minLen, tail);
  }

  // ----- the tables -----

  lemma {:induction false} NothingShorter(ls: seq<int>, m: nat, l: nat)
    requires l <= m && forall i :: 0 <= i < |ls| ==> m <= ls[i]
    ensures First(ls, l) == 0 && Below(ls, |ls|, l) == 0
  {
    if l > 0 {
      NothingShorter(ls, m, l - 1);
      NoneOf(ls, |ls|, l - 1);
    }
  }

  lemma {:induction false} NoneOf(ls: seq<int>, i: nat, c: int)
    requires i <= |ls| && c !in ls
    ensures Count(ls, i, c) == 0
  {
    if i > 0 {
      NoneOf(ls, i - 1, c);
    }
  }

  method FindRange(ls: seq<int>) returns (minLen: int, maxLen: int)
    requires ls != []
    ensures Shortest(ls, minLen) && Longest(ls, maxLen)
  {
    minLen, maxLen := ls[0], ls[0];
    for ii := 1 to |ls|
      invariant minLen in ls && maxLen in ls && minLen <= maxLen
      invariant forall i :: 0 <= i < ii ==> minLen <= ls[i] <= maxLen
    {
      if ls[ii] > maxLen {
        maxLen := ls[ii];
      } else if ls[ii] < minLen {
        minLen := ls[ii];
      }
    }
  }

  /** Symbol s has been entered when all lengths below l, and the first h symbols of length l, have. */
  ghost predicate Entered(ls: seq<int>, permute: seq<nat>, l: int, h: int)
    requires Lengths(ls) && |ls| <= |permute|
  {
    forall s {:trigger Place(ls, s)} :: 0 <= s < |ls| && (ls[s] < l || (ls[s] == l && s < h)) ==>
      Place(ls, s) < |ls| && permute[Place(ls, s)] == s
  }

  lemma {:induction false} EnterNext(ls: seq<int>, permute: seq<nat>, l: int, h: nat)
    requires Lengths(ls) && |ls| <= |permute| && h < |ls| && Entered(ls, permute, l, h) && ls[h] == l
    ensures Place(ls, h) < |ls| && Entered(ls, permute[Place(ls, h) := h], l, h + 1)
  {
    PlaceInRange(ls, h);
    forall s | 0 <= s < |ls| && s != h ensures Place(ls, s) != Place(ls, h) {
      if s < h { DistinctPlaces(ls, s, h); } else { DistinctPlaces(ls, h, s); }
    }
  }

  /** permute[] lists the symbols by code length, and by value within a length. */
  method SortSymbols(permute: array<nat>, ls: seq<int>, minLen: nat, maxLen: nat)
    requires Lengths(ls) && Shortest(ls, minLen) && Longest(ls, maxLen) && permute.Length == MAX_SYMBOLS
    modifies permute
    ensures IsStableSort(ls, permute[..|ls|])
  {
    var pp, ii := 0, minLen;
    NothingShorter(ls, minLen, minLen);
    while ii <= maxLen
      invariant minLen <= ii <= maxLen + 1
      invariant pp == Below(ls, |ls|, ii) && Entered(ls, permute[..], ii, 0)
    {
      for hh := 0 to |ls|
        invariant pp == Below(ls, |ls|, ii) + Count(ls, hh, ii) && Entered(ls, permute[..], ii, hh)
      {
        if ls[hh] == ii {
          EnterNext(ls, permute[..], ii, hh);
          ghost var before := permute[..];
          permute[pp] := hh;
          assert permute[..] == before[pp := hh];
          pp := pp + 1;
        }
      }
      ii := ii + 1;
    }
    assert Entered(ls, permute[..], ii, 0);
    forall s {:trigger Place(ls, s)} | 0 <= s < |ls|
      ensures Place(ls, s) < |ls| && permute[..|ls|][Place(ls, s)] == s
    {
      assert permute[..][Place(ls, s)] == permute[..|ls|][Place(ls, s)];
    }
    PlacesAreStableSort(ls, permute[..|ls|]);
  }

  /** temp[]: how many symbols have each length. */
  method CountLengths(ls: seq<int>) returns (temp: array<int>)
    requires Lengths(ls)
    ensures fresh(temp) && temp.Length == MAX_HUFCODE_BITS + 1
    ensures forall l :: 0 <= l < temp.Length ==> temp[l] == Count(ls, |ls|, l)
  {
    temp := new int[MAX_HUFCODE_BITS + 1](_ => 0);
    for ii := 0 to |ls|
      invariant forall l :: 0 <= l < temp.Length ==> temp[l] == Count(ls, ii, l)
    {
      temp[ls[ii]] := temp[ls[ii]] + 1;
    }
  }

  /** The largest code of length l. */
  function LimitOf(ls: seq<int>, l: nat): int { First(ls, l) + Count(ls, |ls|, l) - 1 }

  /** What to subtract from a code of length l to get its place among all codes. */
  function BaseOf(ls: seq<int>, l: nat): int { First(ls, l) - Below(ls, |ls|, l) }

  /** struct group_data. limit and base are indexed by code length directly. */
  class Group {
    var minLen: nat
    var maxLen: nat
    const limit: array<int>
    const base: array<int>
    const permute: array<nat>

    constructor ()
      ensures limit.Length == MAX_HUFCODE_BITS + 2 && base.Length == MAX_HUFCODE_BITS + 1
      ensures permute.Length == MAX_SYMBOLS && limit != base
      ensures fresh(limit) && fresh(base) && fresh(permute)
    {
      minLen, maxLen := 0, 0;
      limit := new int[MAX_HUFCODE_BITS + 2](_ => 0);
      base := new int[MAX_HUFCODE_BITS + 1](_ => 0);
      permute := new nat[MAX_SYMBOLS](_ => 0);
    }

    ghost predicate Allocated()
    {
      && limit.Length == MAX_HUFCODE_BITS + 2 && base.Length == MAX_HUFCODE_BITS + 1
      && permute.Length == MAX_SYMBOLS && limit != base
    }

    /** The tables are those of the canonical code with lengths ls. */
    ghost predicate Describes(ls: seq<int>)
      reads this, limit, base, permute
    {
      && Allocated()
      && Lengths(ls) && Shortest(ls, minLen) && Longest(ls, maxLen)
      && (forall l :: minLen <= l <= maxLen ==> limit[l] == LimitOf(ls, l))
      && (forall l :: minLen <= l <= maxLen ==> base[l] == BaseOf(ls, l))
      && limit[maxLen + 1] == INT_MAX
      && IsStableSort(ls, permute[..|ls|])
    }

    /** limit[] and base[], from the number of codes of each length. */
    method FillLimits(ls: seq<int>, temp: array<int>)
      requires Allocated() && temp != limit && temp != base && temp.Length == MAX_HUFCODE_BITS + 1
      requires Lengths(ls) && Shortest(ls, minLen) && Longest(ls, maxLen)
      requires forall l :: 0 <= l < temp.Length ==> temp[l] == Count(ls, |ls|, l)
      modifies limit, base
      ensures forall l :: minLen <= l <= maxLen ==> limit[l] == LimitOf(ls, l)
      ensures forall l :: minLen <= l <= maxLen ==> base[l] == BaseOf(ls, l)
      ensures limit[maxLen + 1] == INT_MAX
    {
      var pp, hh := 0, 0;
      NothingShorter(ls, minLen, minLen);
      for ii := minLen to maxLen
        invariant pp == First(ls, ii) && hh == Below(ls, |ls|, ii)
        invariant forall l :: minLen <= l < ii ==> limit[l] == LimitOf(ls, l)
        invariant forall l :: minLen < l <= ii ==> base[l] == BaseOf(ls, l)
        invariant forall l :: 0 <= l < temp.Length ==> temp[l] == Count(ls, |ls|, l)
      {
        pp := pp + temp[ii];
        limit[ii] := pp - 1;
        pp := 2 * pp;
        hh := hh + temp[ii];
        base[ii + 1] := pp - hh;
      }
      limit[maxLen] := pp + temp[maxLen] - 1;
      limit[maxLen + 1] := INT_MAX;
      base[minLen] := 0;
    }

    method Build(ls: seq<int>)
      requires Allocated() && Lengths(ls)
      modifies this, limit, base, permute
      ensures Describes(ls)
    {
      minLen, maxLen := FindRange(ls);
      SortSymbols(permute, ls, minLen, maxLen);
      var temp := CountLengths(ls);
      FillLimits(ls, temp);
    }
  }

  // ----- reading one symbol from the input -----

  /** What can come of reading: bits ran out, the data is bad, or all is well. */
  datatype Status = Good | DataError | UnexpectedEof

  ghost predicate Agrees(r: Read, status: Status, sym: nat, rest: seq<Bit>)
  {
    match r
    case Symbol(s, t) => status == Good && sym == s && rest == t
    case BadCode => status == DataError
    case Eof => status == UnexpectedEof
  }

  lemma {:induction false} PlaceInTable(ls: seq<int>, l: nat, v: nat)
    requires Lengths(ls) && l <= MAX_HUFCODE_BITS && First(ls, l) <= v <= LimitOf(ls, l)
    ensures 0 <= v - BaseOf(ls, l) < |ls|
  {
    BelowGrows(ls, |ls|, l, 256);
    BelowAll(ls, |ls|, 256);
  }

  lemma {:induction false} ValueSmall(v: nat, l: nat)
    requires v < Pow2(l) && l <= MAX_HUFCODE_BITS + 1
    ensures v <= INT_MAX
  {
    Pow2Grows(l, 21);
    assert Pow2(7) == 128;
    Pow2Add(7, 7);
    Pow2Add(14, 7);
  }

  lemma {:induction false} ReadStep(ls: seq<int>, order: seq<nat>, maxLen: nat, l: nat, v: nat, bits: seq<Bit>)
    requires |order| == |ls| && l <= maxLen && v > LimitOf(ls, l)
    ensures ReadCode(ls, order, maxLen, l, v, bits) ==
            if bits == [] then Eof else ReadCode(ls, order, maxLen, l + 1, 2 * v + bits[0], bits[1..])
    ensures First(ls, l + 1) <= 2 * v
  {
  }

  /** Reads on while the bits so far are above every code of their length. */
  method ExtendCode(bd: BitReader, g: Group, ghost ls: seq<int>, v: nat) returns (ok: bool, ii: nat, jj: nat)
    requires bd.Valid() && g.Describes(ls) && v < Pow2(g.minLen)
    modifies bd
    ensures bd.Valid()
    ensures var r := ReadCode(ls, g.permute[..|ls|], g.maxLen, g.minLen, v, old(bd.Remaining()));
            if ok then r == ReadCode(ls, g.permute[..|ls|], g.maxLen, ii, jj, bd.Remaining()) else r == Eof
    ensures ok ==> g.minLen <= ii <= g.maxLen + 1
    ensures ok && ii <= g.maxLen ==> First(ls, ii) <= jj <= LimitOf(ls, ii)
  {
    ok, ii, jj := true, g.minLen, v;
    NothingShorter(ls, g.minLen, g.minLen);
    ghost var order, result := g.permute[..|ls|], ReadCode(ls, g.permute[..|ls|], g.maxLen, g.minLen, v, bd.Remaining());
    while jj > g.limit[ii]
      invariant bd.Valid() && g.minLen <= ii <= g.maxLen + 1
      invariant First(ls, ii) <= jj < Pow2(ii)
      invariant ReadCode(ls, order, g.maxLen, ii, jj, bd.Remaining()) == result
      decreases g.maxLen + 1 - ii
    {
      ValueSmall(jj, ii);
      ghost var bits := bd.Remaining();
      ReadStep(ls, order, g.maxLen, ii, jj, bits);
      var kk;
      ok, kk := bd.NextBit();
      if !ok {
        return;
      }
      ii := ii + 1;
      jj := 2 * jj + kk;
    }
  }

  lemma {:induction false} ReadHit(ls: seq<int>, order: seq<nat>, maxLen: nat, l: nat, v: nat, bits: seq<Bit>)
    requires Lengths(ls) && |order| == |ls| && l <= maxLen <= MAX_HUFCODE_BITS && First(ls, l) <= v <= LimitOf(ls, l)
    ensures 0 <= v - BaseOf(ls, l) < |ls| && ReadCode(ls, order, maxLen, l, v, bits) == Symbol(order[v - BaseOf(ls, l)], bits)
  {
    PlaceInTable(ls, l, v);
  }

  /** The symbol of a complete code of ii bits, if there is one. */
  method LookUp(g: Group, ii: nat, jj: nat, ghost ls: seq<int>, ghost bits: seq<Bit>) returns (status: Status, nextSym: nat)
    requires g.Describes(ls) && g.minLen <= ii && (ii <= g.maxLen ==> First(ls, ii) <= jj <= LimitOf(ls, ii))
    ensures Agrees(ReadCode(ls, g.permute[..|ls|], g.maxLen, ii, jj, bits), status, nextSym, bits)
    ensures status == Good ==> nextSym < |ls|
  {
    status, nextSym := DataError, 0;
    if ii > g.maxLen {
      return;
    }
    ghost var order := g.permute[..|ls|];
    ReadHit(ls, order, g.maxLen, ii, jj, bits);
    var place := jj - g.base[ii];
    if place >= MAX_SYMBOLS {
      return;
    }
    nextSym := g.permute[place];
    assert nextSym == order[place];
    status := Good;
  }

  /** The Huffman part of read_huffman_data. The source subtracts base[ii] before it tests ii
      against maxLen; a failed test does not use the difference. */
  method DecodeSymbol(bd: BitReader, g: Group, ghost ls: seq<int>) returns (status: Status, nextSym: nat)
    requires bd.Valid() && g.Describes(ls)
    modifies bd
    ensures bd.Valid()
    ensures Agrees(ReadSymbol(ls, g.permute[..|ls|], g.minLen, g.maxLen, old(bd.Remaining())),
                   status, nextSym, bd.Remaining())
    ensures status == Good ==> nextSym < |ls|
  {
    nextSym := 0;
    var ok, v := bd.GetBits(g.minLen);
    if !ok {
      return UnexpectedEof, 0;
    }
    ValueBound(old(bd.Remaining())[..g.minLen]);
    var ii, jj;
    ok, ii, jj := ExtendCode(bd, g, ls, v);
    if !ok {
      return UnexpectedEof, 0;
    }
    status, nextSym := LookUp(g, ii, jj, ls, bd.Remaining());
  }
}
