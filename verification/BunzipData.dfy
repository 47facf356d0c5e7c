/**
 The Huffman coded data of a bzip2 block: groups of fifty symbols, each with its own code, fed
 through the symbol layer (read_huffman_data, lib/bunzip.c).
 */
module BunzipData {
  import opened Permutation
  import opened StableSort
  import opened BitStream
  import opened Huffman
  import Sequences
  import RL = RunLength
  import SL = SymbolLayer

  const GROUP_SIZE: nat := 50

  /** One Huffman code of a block, as its tables describe it. */
  datatype Coding = Coding(ls: seq<int>, order: seq<nat>, minLen: nat, maxLen: nat)

  ghost predicate ValidCoding(c: Coding)
  {
    Lengths(c.ls) && IsStableSort(c.ls, c.order) && Shortest(c.ls, c.minLen) && Longest(c.ls, c.maxLen)
  }

  /** The codes of a block and the order in which groups of symbols use them. */
  datatype Codes = Codes(codings: seq<Coding>, selectors: seq<nat>)

  ghost predicate ValidCodes(cs: Codes)
  {
    && (forall i :: 0 <= i < |cs.codings| ==> ValidCoding(cs.codings[i]))
    && (forall i :: 0 <= i < |cs.selectors| ==> cs.selectors[i] < |cs.codings|)
  }

  /** Where in the groups the next symbol is: symbols left in the group, the next selector, and
      the code in use. */
  datatype Place = Place(symCount: nat, selector: nat, group: nat)

  /** Steps to the next symbol, and with every fiftieth to the next selector. */
  function Advance(cs: Codes, at: Place): (r: Place)
    requires at.symCount > 0 || at.selector < |cs.selectors|
  {
    if at.symCount > 0 then at.(symCount := at.symCount - 1)
    else Place(GROUP_SIZE - 1, at.selector + 1, cs.selectors[at.selector])
  }

  ghost predicate ValidPlace(cs: Codes, at: Place)
  {
    at.symCount > 0 ==> at.group < |cs.codings|
  }

  lemma {:induction false} ReadShorter(ls: seq<int>, order: seq<nat>, maxLen: nat, l: nat, v: nat, bits: seq<Bit>)
    requires |order| == |ls|
    ensures var r := ReadCode(ls, order, maxLen, l, v, bits); r.Symbol? ==> |r.rest| <= |bits|
    decreases |bits|
  {
    if bits != [] {
      ReadShorter(ls, order, maxLen, l + 1, 2 * v + bits[0], bits[1..]);
    }
  }

  /** The next symbol of a code; at least one bit is consumed. */
  function ReadWith(c: Coding, bits: seq<Bit>): (r: Read)
    requires ValidCoding(c)
    ensures r.Symbol? ==> |r.rest| < |bits|
  {
    var r := ReadSymbol(c.ls, c.order, c.minLen, c.maxLen, bits);
    if |bits| < c.minLen then r else
    ReadShorter(c.ls, c.order, c.maxLen, c.minLen, Value(bits[..c.minLen]), bits[c.minLen..]);
    r
  }

  datatype Data = Data(out: seq<int>, rest: seq<Bit>) | Failed(status: Status)

  /** What the loop of read_huffman_data makes of the bits from here on. */
  function ReadData(cs: Codes, blk: SL.Block, at: Place, st: SL.Layer, bits: seq<Bit>): (r: Data)
    requires ValidCodes(cs) && ValidPlace(cs, at) && SL.ValidLayer(blk, st)
    ensures r.Failed? ==> r.status != Good
    decreases |bits|
  {
    if at.symCount == 0 && at.selector >= |cs.selectors| then Failed(DataError) else
    var at' := Advance(cs, at);
    match ReadWith(cs.codings[at'.group], bits)
    case Eof => Failed(UnexpectedEof)
    case BadCode => Failed(DataError)
    case Symbol(sym, rest) =>
      match SL.Symbol(blk, st, sym)
      case Bad => Failed(DataError)
      case Done(out) => Data(out, rest)
      case More(st') => ReadData(cs, blk, at', st', rest)
  }

  // ----- which symbol uses which code -----

  /** The place after n symbols. */
  ghost predicate After(cs: Codes, n: nat, at: Place)
  {
    && n + at.symCount == 50 * at.selector && at.symCount < 50 && at.selector <= |cs.selectors|
    && (at.selector > 0 ==> at.group == cs.selectors[at.selector - 1])
  }

  /** Symbol n is read with the code that selector n / 50 names; the selectors are used up after fifty symbols
      each, and not before. */
  lemma {:induction false} AdvanceFifty(cs: Codes, n: nat, at: Place)
    requires ValidCodes(cs) && After(cs, n, at)
    ensures ValidPlace(cs, at) && n <= 50 * |cs.selectors|
    ensures at.symCount == 0 && at.selector >= |cs.selectors| <==> n == 50 * |cs.selectors|
    ensures n < 50 * |cs.selectors| ==>
            var at' := Advance(cs, at); After(cs, n + 1, at') && ValidPlace(cs, at') && at'.group == cs.selectors[n / 50]
  {
  }

  /** The code of symbol n. */
  ghost function CodingAt(cs: Codes, n: nat): (c: Coding)
    requires ValidCodes(cs) && n < 50 * |cs.selectors|
    ensures ValidCoding(c)
  {
    cs.codings[cs.selectors[n / 50]]
  }

  /** Reading by the number of the symbol: there is no code for symbol 50 * |selectors|. */
  ghost function ReadGrouped(cs: Codes, blk: SL.Block, n: nat, st: SL.Layer, bits: seq<Bit>): (r: Data)
    requires ValidCodes(cs) && SL.ValidLayer(blk, st)
    decreases |bits|
  {
    if n >= 50 * |cs.selectors| then Failed(DataError) else
    match ReadWith(CodingAt(cs, n), bits)
    case Eof => Failed(UnexpectedEof)
    case BadCode => Failed(DataError)
    case Symbol(sym, rest) =>
      match SL.Symbol(blk, st, sym)
      case Bad => Failed(DataError)
      case Done(out) => Data(out, rest)
      case More(st') => ReadGrouped(cs, blk, n + 1, st', rest)
  }

  lemma {:induction false} SameSymbol(cs: Codes, blk: SL.Block, n: nat, at: Place, at': Place, st: SL.Layer, bits: seq<Bit>)
    requires ValidCodes(cs) && SL.ValidLayer(blk, st) && n < 50 * |cs.selectors| && ValidPlace(cs, at)
    requires (at.symCount > 0 || at.selector < |cs.selectors|) && at' == Advance(cs, at)
    requires at'.group == cs.selectors[n / 50] && ValidPlace(cs, at')
    requires var w := ReadWith(CodingAt(cs, n), bits);
             w.Symbol? ==>
             var r := SL.Symbol(blk, st, w.sym);
             r.More? ==> ReadData(cs, blk, at', r.st, w.rest) == ReadGrouped(cs, blk, n + 1, r.st, w.rest)
    ensures ReadData(cs, blk, at, st, bits) == ReadGrouped(cs, blk, n, st, bits)
  {
  }

  /** The loop that counts symbols and steps through the selectors gives every symbol its code, and stops
      for want of a selector exactly at symbol 50 * |selectors|. */
  lemma {:induction false} ReadsGrouped(cs: Codes, blk: SL.Block, n: nat, at: Place, st: SL.Layer, bits: seq<Bit>)
    requires ValidCodes(cs) && SL.ValidLayer(blk, st) && After(cs, n, at)
    ensures ValidPlace(cs, at) && ReadData(cs, blk, at, st, bits) == ReadGrouped(cs, blk, n, st, bits)
    decreases |bits|
  {
    AdvanceFifty(cs, n, at);
    if n < 50 * |cs.selectors| {
      var at' := Advance(cs, at);
      var w := ReadWith(CodingAt(cs, n), bits);
      if w.Symbol? {
        var r := SL.Symbol(blk, st, w.sym);
        if r.More? {
          ReadsGrouped(cs, blk, n + 1, at', r.st, w.rest);
        }
      }
      SameSymbol(cs, blk, n, at, at', st, bits);
    }
  }

  // ----- the encoder -----

  /** There is a code for the symbols from number n on, and it covers them. */
  ghost predicate Encodable(cs: Codes, n: nat, syms: seq<nat>)
    requires ValidCodes(cs)
    decreases |syms|
  {
    syms != [] ==>
    && n < 50 * |cs.selectors|
    && syms[0] < |CodingAt(cs, n).ls| && Kraft(CodingAt(cs, n).ls)
    && Encodable(cs, n + 1, syms[1..])
  }

  /** The codes of the symbols, the first of which has number n. */
  ghost function EncodeData(cs: Codes, n: nat, syms: seq<nat>): (bits: seq<Bit>)
    requires ValidCodes(cs) && Encodable(cs, n, syms)
    decreases |syms|
  {
    if syms == [] then [] else CodeBits(CodingAt(cs, n).ls, syms[0]) + EncodeData(cs, n + 1, syms[1..])
  }

  ghost function Meant(r: SL.Outcome, tail: seq<Bit>): (d: Data)
  {
    if r.Done? then Data(r.out, tail) else Failed(DataError)
  }

  /** The first symbol of encoded data is read back. */
  lemma {:induction false} ReadFirst(cs: Codes, n: nat, syms: seq<nat>, tail: seq<Bit>)
    requires ValidCodes(cs) && Encodable(cs, n, syms) && syms != []
    ensures Encodable(cs, n + 1, syms[1..])
    ensures ReadWith(CodingAt(cs, n), EncodeData(cs, n, syms) + tail) == Symbol(syms[0], EncodeData(cs, n + 1, syms[1..]) + tail)
  {
    var c, sym := CodingAt(cs, n), syms[0];
    var code, rest := CodeBits(c.ls, sym), EncodeData(cs, n + 1, syms[1..]);
    ReadsCode(c.ls, c.order, c.minLen, c.maxLen, sym, rest + tail);
    Sequences.Regroup(code, rest, tail);
  }

  lemma {:induction false} EndsRest(syms: seq<nat>, symTotal: nat)
    requires SL.EndsBlock(syms, symTotal) && |syms| > 1
    ensures SL.EndsBlock(syms[1..], symTotal)
  {
  }

  lemma {:induction false} LastSymbol(blk: SL.Block, st: SL.Layer, syms: seq<nat>, tail: seq<Bit>)
    requires SL.ValidLayer(blk, st) && SL.EndsBlock(syms, blk.symTotal) && |syms| == 1 && blk.symTotal > 0
    ensures syms[1..] == [] && [] + tail == tail && !SL.Symbol(blk, st, syms[0]).More?
  {
  }

  /** Reading on after symbol n. */
  lemma {:induction false} ReadOn(cs: Codes, blk: SL.Block, n: nat, st: SL.Layer, syms: seq<nat>, tail: seq<Bit>,
                                  bits: seq<Bit>, rest: seq<Bit>)
    requires ValidCodes(cs) && SL.ValidLayer(blk, st) && n < 50 * |cs.selectors| && syms != []
    requires ReadWith(CodingAt(cs, n), bits) == Symbol(syms[0], rest)
    requires var r := SL.Symbol(blk, st, syms[0]);
             if r.More? then ReadGrouped(cs, blk, n + 1, r.st, rest) == Meant(SL.Symbols(blk, r.st, syms[1..]), tail)
             else r.Done? ==> rest == tail
    ensures ReadGrouped(cs, blk, n, st, bits) == Meant(SL.Symbols(blk, st, syms), tail)
  {
  }

  lemma {:induction false} ReadNumbered(cs: Codes, blk: SL.Block, n: nat, st: SL.Layer, syms: seq<nat>, tail: seq<Bit>)
    requires ValidCodes(cs) && SL.ValidLayer(blk, st) && blk.symTotal > 0
    requires Encodable(cs, n, syms) && SL.EndsBlock(syms, blk.symTotal)
    ensures ReadGrouped(cs, blk, n, st, EncodeData(cs, n, syms) + tail) == Meant(SL.Symbols(blk, st, syms), tail)
    decreases |syms|
  {
    ReadFirst(cs, n, syms, tail);
    var r := SL.Symbol(blk, st, syms[0]);
    if |syms| == 1 {
      LastSymbol(blk, st, syms, tail);
    } else {
      EndsRest(syms, blk.symTotal);
      assert !r.Done?;
      if r.More? {
        ReadNumbered(cs, blk, n + 1, r.st, syms[1..], tail);
      }
    }
    ReadOn(cs, blk, n, st, syms, tail, EncodeData(cs, n, syms) + tail, EncodeData(cs, n + 1, syms[1..]) + tail);
  }

  /** The bits of an encoded sequence of symbols mean what the symbols mean, and no bit beyond
      the end-of-block symbol is touched. */
  lemma {:induction false} ReadEncoded(cs: Codes, blk: SL.Block, st: SL.Layer, syms: seq<nat>, tail: seq<Bit>)
    requires ValidCodes(cs) && SL.ValidLayer(blk, st) && blk.symTotal > 0
    requires Encodable(cs, 0, syms) && SL.EndsBlock(syms, blk.symTotal)
    ensures ReadData(cs, blk, Place(0, 0, 0), st, EncodeData(cs, 0, syms) + tail) == Meant(SL.Symbols(blk, st, syms), tail)
  {
    ReadNumbered(cs, blk, 0, st, syms, tail);
    ReadsGrouped(cs, blk, 0, Place(0, 0, 0), st, EncodeData(cs, 0, syms) + tail);
  }

  // ----- the buffers the loop fills -----

  lemma {:induction false} CountPrefix(s: seq<int>, t: seq<int>, i: nat, c: int)
    requires i <= |s|
    ensures Count(s + t, i, c) == Count(s, i, c)
  {
    if i > 0 {
      CountPrefix(s, t, i - 1, c);
    }
  }

  /** byteCount[] counts the bytes in dbuf[]. */
  ghost predicate Counted(byteCount: seq<int>, out: seq<int>)
  {
    |byteCount| == 256 && forall c :: 0 <= c < 256 ==> byteCount[c] == Count(out, |out|, c)
  }

  lemma {:induction false} CountedAppend(counts: seq<int>, out: seq<int>, b: int)
    requires Counted(counts, out) && 0 <= b < 256
    ensures Counted(counts[b := counts[b] + 1], out + [b])
  {
    forall c | 0 <= c < 256 ensures Count(out + [b], |out| + 1, c) == Count(out, |out|, c) + if c == b then 1 else 0 {
      CountPrefix(out, [b], |out|, c);
    }
  }

  lemma {:induction false} CountedRun(counts: seq<int>, out: seq<int>, b: int, n: nat)
    requires Counted(counts, out) && 0 <= b < 256
    ensures Counted(counts[b := counts[b] + n], out + RL.Repeat(b, n))
    decreases n
  {
    if n == 0 {
      assert out + RL.Repeat(b, 0) == out && counts[b := counts[b] + 0] == counts;
    } else {
      var m := counts[b := counts[b] + (n - 1)];
      CountedRun(counts, out, b, n - 1);
      CountedAppend(m, out + RL.Repeat(b, n - 1), b);
      assert m[b := m[b] + 1] == counts[b := counts[b] + n];
      assert out + RL.Repeat(b, n) == out + RL.Repeat(b, n - 1) + [b];
    }
  }

  /** Appends one byte. */
  method PutByte(dbuf: array<int>, byteCount: array<int>, dbufCount: nat, uc: int)
    requires dbuf != byteCount && dbufCount < dbuf.Length && 0 <= uc < 256
    requires Counted(byteCount[..], dbuf[..dbufCount])
    modifies dbuf, byteCount
    ensures dbuf[..dbufCount + 1] == old(dbuf[..dbufCount]) + [uc]
    ensures Counted(byteCount[..], dbuf[..dbufCount + 1])
  {
    ghost var counts := byteCount[..];
    CountedAppend(counts, dbuf[..dbufCount], uc);
    byteCount[uc] := byteCount[uc] + 1;
    dbuf[dbufCount] := uc;
    assert byteCount[..] == counts[uc := counts[uc] + 1];
  }

  /** Appends a run. */
  method PutRun(dbuf: array<int>, byteCount: array<int>, dbufCount: nat, uc: int, hh: nat)
    requires dbuf != byteCount && dbufCount + hh <= dbuf.Length && 0 <= uc < 256
    requires Counted(byteCount[..], dbuf[..dbufCount])
    modifies dbuf, byteCount
    ensures dbuf[..dbufCount + hh] == old(dbuf[..dbufCount]) + RL.Repeat(uc, hh)
    ensures Counted(byteCount[..], dbuf[..dbufCount + hh])
  {
    ghost var counts, before := byteCount[..], dbuf[..dbufCount];
    CountedRun(counts, before, uc, hh);
    byteCount[uc] := byteCount[uc] + hh;
    assert byteCount[..] == counts[uc := counts[uc] + hh];
    var n := 0;
    while n < hh
      invariant n <= hh && dbuf[..dbufCount + n] == before + RL.Repeat(uc, n)
      invariant byteCount[..] == counts[uc := counts[uc] + hh]
    {
      dbuf[dbufCount + n] := uc;
      assert before + RL.Repeat(uc, n) + [uc] == before + RL.Repeat(uc, n + 1);
      n := n + 1;
    }
  }

  datatype Progress = Continue | Finished | Refused

  /** One symbol of read_huffman_data, after Huffman decoding. */
  method ApplySymbol(blk: SL.Block, mtf: array<nat>, dbuf: array<int>, byteCount: array<int>,
                     nextSym: nat, runPos: nat, hh: nat, dbufCount: nat)
    returns (p: Progress, runPos': nat, hh': nat, dbufCount': nat)
    requires dbuf != byteCount && dbufCount <= dbuf.Length == blk.dbufSize
    requires SL.ValidLayer(blk, SL.Layer(mtf[..], runPos, hh, dbuf[..dbufCount]))
    requires Counted(byteCount[..], dbuf[..dbufCount])
    modifies mtf, dbuf, byteCount
    ensures dbufCount' <= dbuf.Length
    ensures match SL.Symbol(blk, SL.Layer(old(mtf[..]), runPos, hh, old(dbuf[..dbufCount])), nextSym)
            case Bad => p == Refused
            case Done(out) => p == Finished && dbuf[..dbufCount'] == out
            case More(st) => p == Continue && SL.Layer(mtf[..], runPos', hh', dbuf[..dbufCount']) == st
    ensures p != Refused ==> Counted(byteCount[..], dbuf[..dbufCount'])
  {
    p, runPos', hh', dbufCount' := Continue, runPos, hh, dbufCount;
    if nextSym <= SL.RUNB {
      if runPos' == 0 {
        runPos', hh' := 1, 0;
      }
      hh' := hh' + runPos' * (1 + nextSym);
      runPos' := 2 * runPos';
      return;
    }
    if runPos' > 0 {
      if dbufCount + hh >= dbuf.Length {
        return Refused, 0, 0, dbufCount;
      }
      PutRun(dbuf, byteCount, dbufCount, blk.symToByte[mtf[0]], hh);
      runPos', hh', dbufCount' := 0, 0, dbufCount + hh;
    }
    if nextSym > blk.symTotal {
      p := Finished;
      return;
    }
    if dbufCount' >= dbuf.Length {
      p := Refused;
      return;
    }
    var uc := SL.MoveUp(mtf, nextSym - 1);
    PutByte(dbuf, byteCount, dbufCount', blk.symToByte[uc]);
    dbufCount' := dbufCount' + 1;
  }

  /** The groups hold the tables of the codes. */
  ghost predicate Tables(groups: seq<Group>, cs: Codes)
    reads groups, set g | g in groups :: g.limit, set g | g in groups :: g.base, set g | g in groups :: g.permute
  {
    && |groups| == |cs.codings|
    && forall i :: 0 <= i < |groups| ==>
         && groups[i].Describes(cs.codings[i].ls)
         && cs.codings[i].order == groups[i].permute[..|cs.codings[i].ls|]
         && cs.codings[i].minLen == groups[i].minLen && cs.codings[i].maxLen == groups[i].maxLen
  }

  /** The buffers are not part of the tables. */
  ghost predicate Apart(groups: seq<Group>, mtf: array<nat>, dbuf: array<int>, byteCount: array<int>)
  {
    && dbuf != byteCount
    && forall g :: g in groups ==>
         g.limit != dbuf && g.base != dbuf && g.limit != byteCount && g.base != byteCount && g.permute != mtf
  }

  ghost function Identity(): (tbl: seq<nat>)
    ensures |tbl| == 256 && forall i :: 0 <= i < 256 ==> tbl[i] == i
  {
    seq(256, i requires 0 <= i < 256 => i)
  }

  ghost function InitialLayer(): SL.Layer { SL.Layer(Identity(), 0, 0, []) }

  lemma {:induction false} InitialValid(blk: SL.Block)
    requires SL.ValidBlock(blk)
    ensures SL.ValidLayer(blk, InitialLayer())
  {
  }

  method InitBuffers(mtf: array<nat>, byteCount: array<int>)
    requires mtf.Length == 256 && byteCount.Length == 256
    modifies mtf, byteCount
    ensures mtf[..] == Identity() && Counted(byteCount[..], [])
  {
    for ii := 0 to 256
      invariant forall k :: 0 <= k < ii ==> mtf[k] == k && byteCount[k] == 0
    {
      byteCount[ii] := 0;
      mtf[ii] := ii;
    }
  }

  ghost predicate Outcome(r: Data, status: Status, out: seq<int>, rest: seq<Bit>)
  {
    match r
    case Data(o, t) => status == Good && out == o && rest == t
    case Failed(s) => status == s
  }

  /** Determines the code for the next symbol and reads it. */
  method NextSymbol(bd: BitReader, groups: seq<Group>, selectors: seq<nat>, at: Place, ghost cs: Codes)
    returns (status: Status, nextSym: nat, at': Place)
    requires bd.Valid() && ValidCodes(cs) && Tables(groups, cs) && cs.selectors == selectors && ValidPlace(cs, at)
    modifies bd
    ensures bd.Valid()
    ensures if at.symCount == 0 && at.selector >= |selectors| then status == DataError
            else at' == Advance(cs, at) &&
                 Agrees(ReadWith(cs.codings[at'.group], old(bd.Remaining())), status, nextSym, bd.Remaining())
  {
    at', nextSym := at, 0;
    if at'.symCount == 0 {
      if at'.selector >= |selectors| {
        return DataError, 0, at';
      }
      at' := Place(GROUP_SIZE, at'.selector + 1, selectors[at'.selector]);
    }
    at' := at'.(symCount := at'.symCount - 1);
    status, nextSym := DecodeSymbol(bd, groups[at'.group], cs.codings[at'.group].ls);
  }

  /** In the middle of the loop: what is still to be read decides the result. */
  ghost predicate Continuing(cs: Codes, blk: SL.Block, at: Place, st: SL.Layer, bits: seq<Bit>, result: Data)
  {
    && ValidCodes(cs) && ValidPlace(cs, at) && SL.ValidLayer(blk, st)
    && ReadData(cs, blk, at, st, bits) == result
  }

  /** One round of the loop. */
  method Round(bd: BitReader, groups: seq<Group>, selectors: seq<nat>, blk: SL.Block,
               mtf: array<nat>, dbuf: array<int>, byteCount: array<int>,
               at: Place, runPos: nat, hh: nat, dbufCount: nat, ghost cs: Codes, ghost result: Data)
    returns (status: Status, more: bool, at': Place, runPos': nat, hh': nat, dbufCount': nat)
    requires bd.Valid() && Tables(groups, cs) && cs.selectors == selectors
    requires Apart(groups, mtf, dbuf, byteCount) && dbufCount <= dbuf.Length == blk.dbufSize
    requires Continuing(cs, blk, at, SL.Layer(mtf[..], runPos, hh, dbuf[..dbufCount]), bd.Remaining(), result)
    requires Counted(byteCount[..], dbuf[..dbufCount])
    modifies bd, mtf, dbuf, byteCount
    ensures bd.Valid() && Tables(groups, cs) && dbufCount' <= dbuf.Length && (more ==> status == Good)
    ensures status == Good ==> Counted(byteCount[..], dbuf[..dbufCount'])
    ensures if more
            then
              && |bd.Remaining()| < |old(bd.Remaining())|
              && Continuing(cs, blk, at', SL.Layer(mtf[..], runPos', hh', dbuf[..dbufCount']), bd.Remaining(), result)
            else Outcome(result, status, dbuf[..dbufCount'], bd.Remaining())
  {
    more, runPos', hh', dbufCount' := false, runPos, hh, dbufCount;
    var nextSym;
    status, nextSym, at' := NextSymbol(bd, groups, selectors, at, cs);
    if status == Good {
      var p;
      p, runPos', hh', dbufCount' := ApplySymbol(blk, mtf, dbuf, byteCount, nextSym, runPos, hh, dbufCount);
      more := p == Continue;
      if p == Refused {
        status := DataError;
      }
    }
  }

  /** The loop. */
  method ReadSymbols(bd: BitReader, groups: seq<Group>, selectors: seq<nat>, blk: SL.Block,
                     mtf: array<nat>, dbuf: array<int>, byteCount: array<int>, ghost cs: Codes, ghost result: Data)
    returns (status: Status, dbufCount: nat)
    requires bd.Valid() && Tables(groups, cs) && cs.selectors == selectors
    requires Apart(groups, mtf, dbuf, byteCount) && dbuf.Length == blk.dbufSize
    requires Continuing(cs, blk, Place(0, 0, 0), SL.Layer(mtf[..], 0, 0, dbuf[..0]), bd.Remaining(), result)
    requires Counted(byteCount[..], dbuf[..0])
    modifies bd, mtf, dbuf, byteCount
    ensures bd.Valid() && dbufCount <= dbuf.Length && Outcome(result, status, dbuf[..dbufCount], bd.Remaining())
    ensures status == Good ==> Counted(byteCount[..], dbuf[..dbufCount])
  {
    var runPos, hh, at, more := 0, 0, Place(0, 0, 0), true;
    status, dbufCount := Good, 0;
    while more
      invariant bd.Valid() && dbufCount <= dbuf.Length && Tables(groups, cs) && (more ==> status == Good)
      invariant status == Good ==> Counted(byteCount[..], dbuf[..dbufCount])
      invariant if more
                then Continuing(cs, blk, at, SL.Layer(mtf[..], runPos, hh, dbuf[..dbufCount]), bd.Remaining(), result)
                else Outcome(result, status, dbuf[..dbufCount], bd.Remaining())
      decreases more, |bd.Remaining()|
    {
      status, more, at, runPos, hh, dbufCount :=
        Round(bd, groups, selectors, blk, mtf, dbuf, byteCount, at, runPos, hh, dbufCount, cs, result);
    }
  }

  /** read_huffman_data up to the end-of-block symbol: the loop computes ReadData. */
  method ReadHuffmanData(bd: BitReader, groups: seq<Group>, selectors: seq<nat>, blk: SL.Block,
                         mtf: array<nat>, dbuf: array<int>, byteCount: array<int>, ghost cs: Codes)
    returns (status: Status, dbufCount: nat)
    requires bd.Valid() && SL.ValidBlock(blk)
    requires ValidCodes(cs) && Tables(groups, cs) && cs.selectors == selectors && Apart(groups, mtf, dbuf, byteCount)
    requires mtf.Length == 256 && byteCount.Length == 256 && dbuf.Length == blk.dbufSize
    modifies bd, mtf, dbuf, byteCount
    ensures bd.Valid() && dbufCount <= dbuf.Length
    ensures SL.ValidLayer(blk, InitialLayer())
    ensures Outcome(ReadData(cs, blk, Place(0, 0, 0), InitialLayer(), old(bd.Remaining())),
                    status, dbuf[..dbufCount], bd.Remaining())
    ensures status == Good ==> Counted(byteCount[..], dbuf[..dbufCount])
  {
    InitBuffers(mtf, byteCount);
    InitialValid(blk);
    assert dbuf[..0] == [];
    status, dbufCount := ReadSymbols(bd, groups, selectors, blk, mtf, dbuf, byteCount, cs,
                                     ReadData(cs, blk, Place(0, 0, 0), InitialLayer(), bd.Remaining()));
  }
}
