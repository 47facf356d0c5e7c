/**
 A whole bzip2 block: reading its data, undoing the Burrows-Wheeler transform and the outer
 run-length layer, and summing what is written (lib/bunzip.c).
 */
module Bunzip {
  import opened Permutation
  import opened Powers
  import opened StableSort
  import opened BitStream
  import opened Sequences
  import opened Huffman
  import opened BunzipData
  import opened BlockTables
  import opened Words
  import BW = BurrowsWheeler
  import Crc
  import RL = RunLength
  import SL = SymbolLayer

  const IOBUF_SIZE: nat := 4096

  // ----- output -----

  /** The output side of struct bunzip_data. */
  class Output {
    const outbuf: array<int>
    const crcTable: array<seq<Bit>>
    var outbufPos: nat
    var file: seq<int>         // what has been written to the file
    var dataCRC: seq<Bit>

    ghost predicate Valid()
      reads this, crcTable
    {
      && outbuf.Length == IOBUF_SIZE && outbufPos <= IOBUF_SIZE
      && Crc.IsTable(crcTable[..], false) && |dataCRC| == 32
    }

    /** Everything output so far, flushed or not. */
    ghost function Contents(): (s: seq<int>)
      reads this, outbuf
      requires outbufPos <= outbuf.Length
    {
      file + outbuf[..outbufPos]
    }

    constructor ()
      ensures Valid() && Contents() == [] && fresh(outbuf) && fresh(crcTable)
    {
      outbuf := new int[IOBUF_SIZE](_ => 0);
      var table := new seq<Bit>[256](_ => Zeros(32));
      crcTable := table;
      outbufPos, file, dataCRC := 0, [], Zeros(32);
      new;
      Crc.CrcInit(crcTable, false);
    }

    /** Writes one byte to the buffer, flushing it first when it is full, and sums it. */
    method Put(b: Byte)
      requires Valid()
      modifies this, outbuf
      ensures Valid()
      ensures Contents() == old(Contents()) + [b]
      ensures dataCRC == Crc.FeedAll(old(dataCRC), Crc.ByteBits(false, b))
    {
      if outbufPos == IOBUF_SIZE {
        file, outbufPos := file + outbuf[..outbufPos], 0;
      }
      outbuf[outbufPos] := b;
      outbufPos := outbufPos + 1;
      dataCRC := Crc.Cksum(crcTable, false, dataCRC, b);
    }

    method PutCopies(b: Byte, copies: nat)
      requires Valid()
      modifies this, outbuf
      ensures Valid()
      ensures Contents() == old(Contents()) + RL.Repeat(b, copies)
      ensures dataCRC == Crc.FeedAll(old(dataCRC), Crc.MessageBits(false, RL.Repeat(b, copies)))
    {
      ghost var start, crc := Contents(), dataCRC;
      var n := 0;
      while n < copies
        invariant n <= copies && Valid()
        invariant Contents() == start + RL.Repeat(b, n)
        invariant dataCRC == Crc.FeedAll(crc, Crc.MessageBits(false, RL.Repeat(b, n)))
      {
        Put(b);
        OneMoreByte(crc, RL.Repeat(b, n), b);
        assert RL.Repeat(b, n) + [b] == RL.Repeat(b, n + 1);
        n := n + 1;
      }
    }
  }

  lemma {:induction false} OneMoreByte(crc: seq<Bit>, s: seq<Byte>, b: Byte)
    requires |crc| == 32
    ensures Crc.FeedAll(crc, Crc.MessageBits(false, s + [b])) ==
            Crc.FeedAll(Crc.FeedAll(crc, Crc.MessageBits(false, s)), Crc.ByteBits(false, b))
  {
    assert (s + [b])[..|s + [b]| - 1] == s;
    Crc.FeedConcat(crc, Crc.MessageBits(false, s), Crc.ByteBits(false, b));
  }

  lemma {:induction false} BitsConcat(s: seq<Byte>, t: seq<Byte>)
    ensures Crc.MessageBits(false, s + t) == Crc.MessageBits(false, s) + Crc.MessageBits(false, t)
    decreases |t|
  {
    if t == [] {
      assert s + t == s;
    } else {
      var n := |t| - 1;
      assert (s + t)[..|s + t| - 1] == s + t[..n];
      BitsConcat(s, t[..n]);
    }
  }

  // ----- from the linked block to the text -----

  lemma {:induction false} FollowBytes(last: seq<int>, links: seq<nat>, pos: nat, count: nat)
    requires Bytes(last) && IsPermutation(links, |last|) && pos < |last|
    ensures Bytes(BW.Follow(last, links, pos, count))
    decreases count
  {
    if count > 0 {
      FollowBytes(last, links, links[pos], count - 1);
    }
  }

  /** What count bytes, found by following the links from pos, decode to. */
  ghost function Rest(last: seq<int>, links: seq<nat>, pos: nat, count: nat, st: RL.State): (s: seq<Byte>)
    requires Bytes(last) && IsPermutation(links, |last|) && pos < |last| && RL.ValidState(st)
  {
    FollowBytes(last, links, pos, count);
    RL.DecodeBytes(st, BW.Follow(last, links, pos, count));
    RL.Decode(st, BW.Follow(last, links, pos, count))
  }

  lemma {:induction false} RestStep(last: seq<int>, links: seq<nat>, pos: nat, count: nat, st: RL.State)
    requires Bytes(last) && IsPermutation(links, |last|) && pos < |last| && RL.ValidState(st) && count > 0
    ensures Rest(last, links, pos, count, st) ==
            RL.Emit(st, last[pos]) + Rest(last, links, links[pos], count - 1, RL.Next(st, last[pos]))
  {
    var stream := BW.Follow(last, links, pos, count);
    FollowBytes(last, links, pos, count);
    assert stream[0] == last[pos] && stream[1..] == BW.Follow(last, links, links[pos], count - 1);
  }

  /** What a block decodes to; the byte before its first is the last one. */
  ghost function Text(last: seq<int>, links: seq<nat>, orig: nat): (s: seq<Byte>)
    requires Bytes(last) && IsPermutation(links, |last|) && orig < |last|
  {
    Rest(last, links, links[orig], |last|, RL.State(last[orig], -1))
  }

  lemma {:induction false} SumConcat(crc: seq<Bit>, s: seq<Byte>, t: seq<Byte>)
    requires |crc| == 32
    ensures Crc.FeedAll(crc, Crc.MessageBits(false, s + t)) ==
            Crc.FeedAll(Crc.FeedAll(crc, Crc.MessageBits(false, s)), Crc.MessageBits(false, t))
  {
    BitsConcat(s, t);
    Crc.FeedConcat(crc, Crc.MessageBits(false, s), Crc.MessageBits(false, t));
  }

  /** One byte of the block through the run-length layer: what it adds to the output, and the
      state and position after it. */
  method WriteByte(out: Output, dbuf: array<int>, pos: nat, st: RL.State, ghost last: seq<int>)
    returns (pos': nat, st': RL.State)
    requires out.Valid() && |last| <= dbuf.Length && dbuf != out.outbuf
    requires Bytes(last) && BW.IsLinked(dbuf[..|last|], last) && pos < |last| && RL.ValidState(st)
    modifies out, out.outbuf
    ensures out.Valid() && RL.ValidState(st')
    ensures pos' == BW.LinksOf(dbuf[..|last|])[pos] && pos' < |last| && st' == RL.Next(st, last[pos])
    ensures Bytes(RL.Emit(st, last[pos]))
    ensures out.Contents() == old(out.Contents()) + RL.Emit(st, last[pos])
    ensures out.dataCRC == Crc.FeedAll(old(out.dataCRC), Crc.MessageBits(false, RL.Emit(st, last[pos])))
  {
    ghost var word := dbuf[..|last|][pos];
    var previous, current, copies, outbyte := st.current, dbuf[pos] % 256, 1, 0;
    assert dbuf[pos] == word && current == last[pos];
    pos' := dbuf[pos] / 256;
    assert pos' == BW.LinksOf(dbuf[..|last|])[pos];
    var run := st.run + 1;
    if st.run == 3 {
      copies, outbyte, current := current, previous, -1;
    } else {
      outbyte := current;
      assert RL.Repeat(outbyte, 1) == [outbyte];
    }
    out.PutCopies(outbyte, copies);
    if current != previous {
      run := 0;
    }
    st' := RL.State(current, run);
  }

  /** What is written and what is still to be written make up the text. */
  ghost predicate ToWrite(last: seq<int>, links: seq<nat>, pos: nat, count: nat, st: RL.State,
                          written: seq<Byte>, text: seq<Byte>)
  {
    && Bytes(last) && IsPermutation(links, |last|) && pos < |last| && RL.ValidState(st)
    && written + Rest(last, links, pos, count, st) == text
  }

  lemma {:induction false} ToWriteNext(last: seq<int>, links: seq<nat>, pos: nat, count: nat, st: RL.State,
                                       written: seq<Byte>, text: seq<Byte>, emitted: seq<Byte>)
    requires ToWrite(last, links, pos, count, st, written, text) && count > 0
    requires links[pos] < |last| && RL.ValidState(RL.Next(st, last[pos])) && emitted == RL.Emit(st, last[pos])
    ensures ToWrite(last, links, links[pos], count - 1, RL.Next(st, last[pos]), written + emitted, text)
  {
    RestStep(last, links, pos, count, st);
    Sequences.Regroup(written, emitted, Rest(last, links, links[pos], count - 1, RL.Next(st, last[pos])));
  }

  lemma {:induction false} NothingToWrite(last: seq<int>, links: seq<nat>, pos: nat, st: RL.State,
                                          written: seq<Byte>, text: seq<Byte>)
    requires ToWrite(last, links, pos, 0, st, written, text)
    ensures written == text
  {
    assert Rest(last, links, pos, 0, st) == [];
  }

  lemma {:induction false} NothingWritten(last: seq<int>, links: seq<nat>, pos: nat, count: nat, st: RL.State,
                                          contents: seq<int>, crc: seq<Bit>)
    requires Bytes(last) && IsPermutation(links, |last|) && pos < |last| && RL.ValidState(st) && |crc| == 32
    ensures ToWrite(last, links, pos, count, st, [], Rest(last, links, pos, count, st))
    ensures Appended(contents, crc, [], contents, crc)
  {
  }

  /** One round of the output loop, in terms of the whole text. */
  method WriteNext(out: Output, dbuf: array<int>, pos: nat, st: RL.State, ghost last: seq<int>, ghost links: seq<nat>,
                   ghost count: nat, ghost written: seq<Byte>, ghost text: seq<Byte>,
                   ghost contents: seq<int>, ghost crc: seq<Bit>)
    returns (pos': nat, st': RL.State, ghost written': seq<Byte>)
    requires out.Valid() && |last| <= dbuf.Length && dbuf != out.outbuf && BW.IsLinked(dbuf[..|last|], last)
    requires links == BW.LinksOf(dbuf[..|last|]) && ToWrite(last, links, pos, count, st, written, text) && count > 0
    requires Appended(contents, crc, written, out.Contents(), out.dataCRC)
    modifies out, out.outbuf
    ensures out.Valid() && ToWrite(last, links, pos', count - 1, st', written', text)
    ensures Appended(contents, crc, written', out.Contents(), out.dataCRC)
  {
    ghost var emitted, contents', crc' := RL.Emit(st, last[pos]), out.Contents(), out.dataCRC;
    pos', st' := WriteByte(out, dbuf, pos, st, last);
    ToWriteNext(last, links, pos, count, st, written, text, emitted);
    AppendedNext(contents, crc, written, contents', crc', emitted);
    written' := written + emitted;
  }

  /** The output loop of write_bunzip_data. */
  method WriteBytes(out: Output, dbuf: array<int>, start: nat, first: RL.State, writeCount: nat, ghost last: seq<int>)
    requires out.Valid() && |last| <= dbuf.Length && dbuf != out.outbuf
    requires Bytes(last) && BW.IsLinked(dbuf[..|last|], last) && start < |last| && RL.ValidState(first)
    modifies out, out.outbuf
    ensures out.Valid()
    ensures var text := Rest(last, BW.LinksOf(dbuf[..|last|]), start, writeCount, first);
            && out.Contents() == old(out.Contents()) + text
            && out.dataCRC == Crc.FeedAll(old(out.dataCRC), Crc.MessageBits(false, text))
  {
    ghost var links := BW.LinksOf(dbuf[..|last|]);
    ghost var text := Rest(last, links, start, writeCount, first);
    ghost var written: seq<Byte>, contents, crc := [], out.Contents(), out.dataCRC;
    var pos: nat, st, count: nat := start, first, writeCount;
    NothingWritten(last, links, pos, count, st, contents, crc);
    while count > 0
      invariant out.Valid() && ToWrite(last, links, pos, count, st, written, text)
      invariant Appended(contents, crc, written, out.Contents(), out.dataCRC)
    {
      pos, st, written := WriteNext(out, dbuf, pos, st, last, links, count, written, text, contents, crc);
      count := count - 1;
    }
    NothingToWrite(last, links, pos, st, written, text);
  }

  /** The part of write_bunzip_data that deals with one block that Prepare has linked. */
  method WriteBlock(out: Output, dbuf: array<int>, writeCount: nat, origPtr: nat, ghost last: seq<int>)
    requires out.Valid() && writeCount <= dbuf.Length && dbuf != out.outbuf && |last| == writeCount
    requires Bytes(last) && BW.IsLinked(dbuf[..writeCount], last) && origPtr < writeCount
    modifies out, out.outbuf
    ensures out.Valid()
    ensures var text := Text(last, BW.LinksOf(dbuf[..writeCount]), origPtr);
            && out.Contents() == old(out.Contents()) + text
            && out.dataCRC == Invert(Crc.FeedAll(Invert(Zeros(32)), Crc.MessageBits(false, text)))
  {
    out.dataCRC := Invert(Zeros(32));
    assert dbuf[origPtr] == dbuf[..writeCount][origPtr];
    assert dbuf[origPtr] / 256 == BW.LinksOf(dbuf[..writeCount])[origPtr];
    WriteBytes(out, dbuf, dbuf[origPtr] / 256, RL.State(dbuf[origPtr] % 256, -1), writeCount, last);
    out.dataCRC := Invert(out.dataCRC);
  }

  /** Output and checksum after the bytes s. */
  ghost predicate Appended(contents: seq<int>, crc: seq<Bit>, s: seq<Byte>, contents': seq<int>, crc': seq<Bit>)
  {
    |crc| == 32 && contents' == contents + s && crc' == Crc.FeedAll(crc, Crc.MessageBits(false, s))
  }

  lemma {:induction false} AppendedNext(contents: seq<int>, crc: seq<Bit>, s: seq<Byte>,
                                        contents': seq<int>, crc': seq<Bit>, t: seq<Byte>)
    requires Appended(contents, crc, s, contents', crc')
    ensures Appended(contents, crc, s + t, contents' + t, Crc.FeedAll(crc', Crc.MessageBits(false, t)))
  {
    SumConcat(crc, s, t);
    Sequences.Regroup(contents, s, t);
  }

  // ----- a whole block -----

  ghost const Start := Place(0, 0, 0)

  /** The block that was read decodes to text: there is one stable sort to link it by. */
  ghost predicate Decodes(last: seq<int>, orig: nat, text: seq<int>)
    requires Bytes(last) && orig < |last|
  {
    exists links :: IsStableSort(last, links) && text == Text(last, links, orig)
  }

  lemma {:induction false} SymbolBytes(blk: SL.Block, st: SL.Layer, sym: nat)
    requires SL.ValidLayer(blk, st) && Bytes(st.out)
    ensures var r := SL.Symbol(blk, st, sym); (r.More? ==> Bytes(r.st.out)) && (r.Done? ==> Bytes(r.out))
  {
  }

  /** Only bytes are read. */
  lemma {:induction false} DataBytes(cs: Codes, blk: SL.Block, at: Place, st: SL.Layer, bits: seq<Bit>)
    requires ValidCodes(cs) && ValidPlace(cs, at) && SL.ValidLayer(blk, st) && Bytes(st.out)
    ensures var r := ReadData(cs, blk, at, st, bits); r.Data? ==> Bytes(r.out)
    decreases |bits|
  {
    if at.symCount > 0 || at.selector < |cs.selectors| {
      var at' := Advance(cs, at);
      var w := ReadWith(cs.codings[at'.group], bits);
      if w.Symbol? {
        SymbolBytes(blk, st, w.sym);
        var r := SL.Symbol(blk, st, w.sym);
        if r.More? {
          DataBytes(cs, blk, at', r.st, w.rest);
        }
      }
    }
  }

  /** The CRC of a text, as write_bunzip_data keeps it. */
  ghost function Sum(text: seq<Byte>): (crc: seq<Bit>) { Invert(Crc.FeedAll(Invert(Zeros(32)), Crc.MessageBits(false, text))) }

  /** The output has grown by what the block decodes to, and the sum is that of the addition. */
  ghost predicate Wrote(last: seq<int>, orig: nat, before: seq<int>, after: seq<int>, crc: seq<Bit>)
    requires Bytes(last) && orig < |last|
  {
    exists text: seq<Byte> :: Decodes(last, orig, text) && after == before + text && crc == Sum(text)
  }

  /** burrows_wheeler_prep and the output of a block that has been read. */
  method FinishBlock(dbuf: array<int>, byteCount: array<int>, count: nat, origPtr: nat, out: Output)
    requires out.Valid() && out.outbuf != dbuf && out.outbuf != byteCount && dbuf != byteCount
    requires count <= dbuf.Length && Bytes(dbuf[..count]) && origPtr < count
    requires Counted(byteCount[..], dbuf[..count])
    modifies dbuf, byteCount, out, out.outbuf
    ensures out.Valid()
    ensures Wrote(old(dbuf[..count]), origPtr, old(out.Contents()), out.Contents(), out.dataCRC)
  {
    ghost var last := dbuf[..count];
    assert forall c :: 0 <= c < 256 ==> byteCount[c] == byteCount[..][c];
    BW.Prepare(dbuf, byteCount, count);
    ghost var links := BW.LinksOf(dbuf[..count]);
    WriteBlock(out, dbuf, count, origPtr, last);
    assert Decodes(last, origPtr, Text(last, links, origPtr));
  }

  /** What decoding does with the data of a block whose codes are known. */
  ghost predicate DataDecoded(cs: Codes, blk: SL.Block, orig: nat, bits: seq<Bit>, status: Status,
                              before: seq<int>, after: seq<int>, rest: seq<Bit>, crc: seq<Bit>)
    requires ValidCodes(cs) && SL.ValidLayer(blk, InitialLayer())
  {
    match ReadData(cs, blk, Start, InitialLayer(), bits)
    case Failed(s) => status == s && after == before
    case Data(last, t) =>
      && rest == t
      && if orig < |last| then status == Good && Bytes(last) && Wrote(last, orig, before, after, crc)
         else status == DataError && after == before
  }

  /** read_huffman_data, burrows_wheeler_prep and the output of one block. */
  method DecodeData(bd: BitReader, groups: seq<Group>, selectors: seq<nat>, blk: SL.Block, origPtr: nat,
                    mtf: array<nat>, dbuf: array<int>, byteCount: array<int>, out: Output, ghost cs: Codes)
    returns (status: Status)
    requires bd.Valid() && out.Valid() && SL.ValidBlock(blk)
    requires ValidCodes(cs) && Tables(groups, cs) && cs.selectors == selectors && Apart(groups, mtf, dbuf, byteCount)
    requires mtf.Length == 256 && byteCount.Length == 256 && dbuf.Length == blk.dbufSize
    requires out.outbuf != dbuf && out.outbuf != byteCount
    modifies bd, mtf, dbuf, byteCount, out, out.outbuf
    ensures bd.Valid() && out.Valid() && SL.ValidLayer(blk, InitialLayer())
    ensures DataDecoded(cs, blk, origPtr, old(bd.Remaining()), status,
                        old(out.Contents()), out.Contents(), bd.Remaining(), out.dataCRC)
  {
    var count;
    status, count := ReadHuffmanData(bd, groups, selectors, blk, mtf, dbuf, byteCount, cs);
    if status != Good {
      return;
    }
    DataBytes(cs, blk, Start, InitialLayer(), old(bd.Remaining()));
    if origPtr >= count {
      return DataError;
    }
    FinishBlock(dbuf, byteCount, count, origPtr, out);
  }

  ghost predicate Selects(selectors: seq<nat>, n: nat) { forall i :: 0 <= i < |selectors| ==> selectors[i] < n }

  /** What decoding does with the tables of n codes and the data of a block. */
  ghost predicate BlockDecoded(n: nat, selectors: seq<nat>, blk: SL.Block, orig: nat, bits: seq<Bit>, status: Status,
                               before: seq<int>, after: seq<int>, rest: seq<Bit>, crc: seq<Bit>)
    requires Selects(selectors, n) && SL.ValidLayer(blk, InitialLayer())
  {
    match ReadTables(n, blk.symTotal + 2, bits)
    case Untabled(s) => status == s && after == before
    case Tabled(lss, data) =>
      && AllLengthsValid(lss, blk.symTotal + 2)
      && DataDecoded(CodesOf(lss, selectors), blk, orig, data, status, before, after, rest, crc)
  }

  lemma {:induction false} DecodedBy(selectors: seq<nat>, blk: SL.Block, orig: nat, bits: seq<Bit>, lss: seq<seq<int>>, data: seq<Bit>,
                                     status: Status, before: seq<int>, after: seq<int>, rest: seq<Bit>, crc: seq<Bit>)
    requires Selects(selectors, |lss|) && SL.ValidLayer(blk, InitialLayer()) && AllLengthsValid(lss, blk.symTotal + 2)
    requires TablesOutcome(ReadTables(|lss|, blk.symTotal + 2, bits), Good, lss, data)
    requires DataDecoded(CodesOf(lss, selectors), blk, orig, data, status, before, after, rest, crc)
    ensures BlockDecoded(|lss|, selectors, blk, orig, bits, status, before, after, rest, crc)
  {
  }

  lemma {:induction false} OutputApart(out: Output, groups: seq<Group>)
    ensures out !in Footprint(groups) && out.crcTable !in Footprint(groups)
  {
  }

  /** A block from the tables of its codes on. */
  method DecodeBlock(bd: BitReader, groups: seq<Group>, selectors: seq<nat>, blk: SL.Block, origPtr: nat,
                     mtf: array<nat>, dbuf: array<int>, byteCount: array<int>, out: Output)
    returns (status: Status)
    requires bd.Valid() && out.Valid() && SL.ValidBlock(blk)
    requires Separate(groups) && Selects(selectors, |groups|) && Apart(groups, mtf, dbuf, byteCount)
    requires mtf.Length == 256 && byteCount.Length == 256 && dbuf.Length == blk.dbufSize
    requires out.outbuf != dbuf && out.outbuf != byteCount && out.outbuf !in Footprint(groups)
    modifies bd, Footprint(groups), mtf, dbuf, byteCount, out, out.outbuf
    ensures bd.Valid() && out.Valid() && SL.ValidLayer(blk, InitialLayer())
    ensures BlockDecoded(|groups|, selectors, blk, origPtr, old(bd.Remaining()), status,
                         old(out.Contents()), out.Contents(), bd.Remaining(), out.dataCRC)
  {
    InitialValid(blk);
    OutputApart(out, groups);
    ghost var bits, before := bd.Remaining(), out.Contents();
    ghost var lss;
    status, lss := ReadGroups(bd, groups, blk.symTotal + 2);
    assert out.Valid() && out.Contents() == before;
    ghost var data := bd.Remaining();
    if status != Good {
      return;
    }
    BuiltTables(groups, lss, selectors);
    assert TablesOutcome(ReadTables(|groups|, blk.symTotal + 2, bits), Good, lss, data);
    status := DecodeData(bd, groups, selectors, blk, origPtr, mtf, dbuf, byteCount, out, CodesOf(lss, selectors));
    DecodedBy(selectors, blk, origPtr, bits, lss, data, status, before, out.Contents(), bd.Remaining(), out.dataCRC);
  }

  // ----- the encoder -----

  /** The choices of an encoder: the text is run-length coded and sorted by r, last is written as positions
      xs in the alphabet, and those as symbols in the codes of the lengths lss. */
  ghost predicate IsEncoding(x: seq<int>, blk: SL.Block, r: seq<nat>, last: seq<int>, orig: nat, xs: seq<nat>,
                             lss: seq<seq<int>>, selectors: seq<nat>)
  {
    && x != [] && Bytes(x) && SL.ValidBlock(blk) && SL.Table(Identity(), blk.symTotal)
    && 2 <= |lss| <= MAX_GROUPS && AllLengthsValid(lss, blk.symTotal + 2)
    && 0 < |selectors| < MAX_SELECTORS && Selects(selectors, |lss|)
    && BW.IsTransform(RL.Encode(x), r, last, orig)
    && |xs| == |last| && (forall i :: 0 <= i < |xs| ==> xs[i] < blk.symTotal && blk.symToByte[xs[i]] == last[i])
    && Encodable(CodesOf(lss, selectors), 0, SL.Encode(blk, Identity(), xs, 0))
  }

  const MAX_GROUPS: nat := 6
  const MAX_SELECTORS: nat := 0x8000

  /** What the encoder writes: the tables and the data. */
  ghost function DataBits(x: seq<int>, blk: SL.Block, r: seq<nat>, last: seq<int>, orig: nat, xs: seq<nat>,
                          lss: seq<seq<int>>, selectors: seq<nat>): (bits: seq<Bit>)
    requires IsEncoding(x, blk, r, last, orig, xs, lss, selectors)
  {
    EncodeData(CodesOf(lss, selectors), 0, SL.Encode(blk, Identity(), xs, 0))
  }

  lemma {:induction false} SymbolsRoundTrip(blk: SL.Block, xs: seq<nat>, last: seq<int>)
    requires SL.ValidLayer(blk, InitialLayer()) && blk.symTotal > 0
    requires |xs| == |last| && (forall i :: 0 <= i < |xs| ==> xs[i] < blk.symTotal && blk.symToByte[xs[i]] == last[i])
    ensures SL.Symbols(blk, InitialLayer(), SL.Encode(blk, Identity(), xs, 0))
            == if SL.Fits(blk, Identity(), 0, xs, 0) then SL.Done(last) else SL.Bad
  {
    SL.EncodeDecodes(blk, InitialLayer(), xs, 0);
    assert SL.ReadBack(blk, InitialLayer(), xs, 0);
    assert [] + RL.Repeat(blk.symToByte[Identity()[0]], 0) + SL.BytesOf(blk, xs) == last;
  }

  /** Whatever the order of equal rows, the alphabet, the codes and the selectors chosen: the data is read
      as the transform of the text, up to the last bit, if it fits the buffer, and refused if it does not. */
  lemma {:induction false} BlockRoundTrip(x: seq<int>, blk: SL.Block, r: seq<nat>, last: seq<int>, orig: nat,
                                          xs: seq<nat>, lss: seq<seq<int>>, selectors: seq<nat>, tail: seq<Bit>)
    requires IsEncoding(x, blk, r, last, orig, xs, lss, selectors)
    ensures SL.ValidLayer(blk, InitialLayer())
    ensures ReadData(CodesOf(lss, selectors), blk, Start, InitialLayer(), DataBits(x, blk, r, last, orig, xs, lss, selectors) + tail)
            == if SL.Fits(blk, Identity(), 0, xs, 0) then Data(last, tail) else Failed(DataError)
  {
    InitialValid(blk);
    var syms := SL.Encode(blk, Identity(), xs, 0);
    assert xs[0] < blk.symTotal;
    SymbolsRoundTrip(blk, xs, last);
    SL.EncodeEnds(blk, Identity(), xs, 0);
    ReadEncoded(CodesOf(lss, selectors), blk, InitialLayer(), syms, tail);
  }

  /** The transform of a text decodes to the text and to nothing else. */
  lemma {:induction false} TransformDecodes(x: seq<int>, r: seq<nat>, last: seq<int>, orig: nat, text: seq<int>)
    requires x != [] && Bytes(x) && BW.IsTransform(RL.Encode(x), r, last, orig) && Bytes(last) && Decodes(last, orig, text)
    ensures text == x
  {
    var links :| IsStableSort(last, links) && text == Text(last, links, orig);
    BW.InverseTransform(RL.Encode(x), r, last, orig, links);
    RL.DecodeBlock(last[orig], x);
  }

  lemma {:induction false} DataNotEmpty(cs: Codes, syms: seq<nat>)
    requires ValidCodes(cs) && syms != [] && Encodable(cs, 0, syms)
    ensures EncodeData(cs, 0, syms) != []
  {
    assert |CodeBits(CodingAt(cs, 0).ls, syms[0])| > 0;
  }

  /** The text is written, or the block refused. */
  ghost predicate TextWritten(fits: bool, x: seq<Byte>, tail: seq<Bit>, status: Status,
                              before: seq<int>, after: seq<int>, rest: seq<Bit>, crc: seq<Bit>)
  {
    if fits then status == Good && rest == tail && after == before + x && crc == Sum(x)
    else status == DataError && after == before
  }

  lemma {:induction false} EncodedDataDecodes(
      x: seq<int>, blk: SL.Block, r: seq<nat>, last: seq<int>, orig: nat, xs: seq<nat>, lss: seq<seq<int>>,
      selectors: seq<nat>, tail: seq<Bit>, status: Status, before: seq<int>, after: seq<int>, rest: seq<Bit>, crc: seq<Bit>)
    requires IsEncoding(x, blk, r, last, orig, xs, lss, selectors) && SL.ValidLayer(blk, InitialLayer())
    requires DataDecoded(CodesOf(lss, selectors), blk, orig, DataBits(x, blk, r, last, orig, xs, lss, selectors) + tail,
                         status, before, after, rest, crc)
    ensures TextWritten(SL.Fits(blk, Identity(), 0, xs, 0), x, tail, status, before, after, rest, crc)
  {
    BlockRoundTrip(x, blk, r, last, orig, xs, lss, selectors, tail);
    if SL.Fits(blk, Identity(), 0, xs, 0) {
      var text: seq<Byte> :| Decodes(last, orig, text) && after == before + text && crc == Sum(text);
      TransformDecodes(x, r, last, orig, text);
    }
  }

  lemma {:induction false} TablesDecode(
      x: seq<int>, blk: SL.Block, r: seq<nat>, last: seq<int>, orig: nat, xs: seq<nat>, lss: seq<seq<int>>,
      selectors: seq<nat>, tail: seq<Bit>)
    requires IsEncoding(x, blk, r, last, orig, xs, lss, selectors)
    ensures var data := DataBits(x, blk, r, last, orig, xs, lss, selectors) + tail;
            ReadTables(|lss|, blk.symTotal + 2, EncodeTables(lss) + data) == Tabled(lss, data)
  {
    assert xs[0] < blk.symTotal;
    SL.EncodeEnds(blk, Identity(), xs, 0);
    DataNotEmpty(CodesOf(lss, selectors), SL.Encode(blk, Identity(), xs, 0));
    ReadEncodedTables(lss, blk.symTotal + 2, DataBits(x, blk, r, last, orig, xs, lss, selectors) + tail);
  }

  /** Bits that an encoder wrote, followed by anything: the decoder writes the text, stops at the last bit,
      and has the CRC of the text; a block that does not fit the buffer is refused and nothing written. */
  lemma {:induction false} EncodedBlockDecodes(
      x: seq<int>, blk: SL.Block, r: seq<nat>, last: seq<int>, orig: nat, xs: seq<nat>, lss: seq<seq<int>>,
      selectors: seq<nat>, tail: seq<Bit>, status: Status, before: seq<int>, after: seq<int>, rest: seq<Bit>, crc: seq<Bit>)
    requires IsEncoding(x, blk, r, last, orig, xs, lss, selectors) && SL.ValidLayer(blk, InitialLayer())
    requires var bits := EncodeTables(lss) + (DataBits(x, blk, r, last, orig, xs, lss, selectors) + tail);
             BlockDecoded(|lss|, selectors, blk, orig, bits, status, before, after, rest, crc)
    ensures TextWritten(SL.Fits(blk, Identity(), 0, xs, 0), x, tail, status, before, after, rest, crc)
  {
    TablesDecode(x, blk, r, last, orig, xs, lss, selectors, tail);
    EncodedDataDecodes(x, blk, r, last, orig, xs, lss, selectors, tail, status, before, after, rest, crc);
  }

  // ----- every text has an encoding -----

  lemma {:induction false} EncodeBytes(x: seq<int>)
    requires Bytes(x)
    ensures Bytes(RL.Encode(x)) && (x != [] ==> RL.Encode(x) != [])
    decreases |x|
  {
    if x != [] {
      var r := RL.RunOf(x, RL.MAX_RUN);
      EncodeBytes(x[r..]);
    }
  }

  lemma {:induction false} LastBytes(s: seq<int>, r: seq<nat>, last: seq<int>, orig: nat)
    requires Bytes(s) && BW.IsTransform(s, r, last, orig)
    ensures Bytes(last)
  {
    forall i | 0 <= i < |last| ensures 0 <= last[i] < 256 {
      var k := r[i];
      assert BW.Rot(s, k)[|s| - 1] == if k == 0 then s[|s| - 1] else s[k - 1];
    }
  }

  /** Nine bits for every symbol: there are 258 of them. */
  ghost function FlatLengths(): (ls: seq<int>)
    ensures |ls| == MAX_SYMBOLS && (forall i :: 0 <= i < |ls| ==> ls[i] == 9) && Lengths(ls)
  {
    seq(MAX_SYMBOLS, _ => 9)
  }

  lemma {:induction false} FlatShare(ls: seq<int>, i: nat)
    requires Lengths(ls) && i <= |ls| && forall k :: 0 <= k < |ls| ==> ls[k] == 9
    ensures Share(ls, i, MAX_HUFCODE_BITS + 1) == i * Pow2(MAX_HUFCODE_BITS - 9)
  {
    if i > 0 {
      FlatShare(ls, i - 1);
      OneMore(i - 1, Pow2(MAX_HUFCODE_BITS - 9));
    }
  }

  lemma {:induction false} FlatKraft()
    ensures Kraft(FlatLengths())
  {
    var ls, p := FlatLengths(), Pow2(MAX_HUFCODE_BITS - 9);
    FlatShare(ls, |ls|);
    Pow2Add(9, MAX_HUFCODE_BITS - 9);
    assert Pow2(9) == 512;
    Cancel(|ls|, 512, p);
  }

  lemma {:induction false} AllEncodable(cs: Codes, n: nat, syms: seq<nat>)
    requires ValidCodes(cs) && n + |syms| <= 50 * |cs.selectors|
    requires forall i :: 0 <= i < |cs.codings| ==> cs.codings[i].ls == FlatLengths()
    requires forall i :: 0 <= i < |syms| ==> syms[i] < MAX_SYMBOLS
    ensures Encodable(cs, n, syms)
    decreases |syms|
  {
    if syms != [] {
      FlatKraft();
      AllEncodable(cs, n + 1, syms[1..]);
    }
  }

  lemma {:induction false} FlatEncodable(blk: SL.Block, xs: seq<nat>, lss: seq<seq<int>>, selectors: seq<nat>)
    requires SL.ValidBlock(blk) && blk.symTotal == 256 && SL.Table(Identity(), 256) && |xs| < 50 * |selectors|
    requires forall i :: 0 <= i < |xs| ==> xs[i] < 256
    requires (forall i :: 0 <= i < |lss| ==> lss[i] == FlatLengths() && Lengths(lss[i])) && Selects(selectors, |lss|)
    ensures Encodable(CodesOf(lss, selectors), 0, SL.Encode(blk, Identity(), xs, 0))
  {
    SL.EncodeEnds(blk, Identity(), xs, 0);
    SL.EncodeShort(blk, Identity(), xs, 0);
    AllEncodable(CodesOf(lss, selectors), 0, SL.Encode(blk, Identity(), xs, 0));
  }

  /** For every text that a buffer of at most 900000 bytes can hold, the encoder has a choice. */
  lemma {:induction false} EncodingExists(x: seq<int>, dbufSize: nat)
    returns (blk: SL.Block, r: seq<nat>, last: seq<int>, orig: nat, xs: seq<nat>, lss: seq<seq<int>>, selectors: seq<nat>)
    requires x != [] && Bytes(x) && |RL.Encode(x)| <= dbufSize <= 900000
    ensures blk.dbufSize == dbufSize && IsEncoding(x, blk, r, last, orig, xs, lss, selectors)
  {
    EncodeBytes(x);
    r, last, orig := BW.TransformExists(RL.Encode(x));
    LastBytes(RL.Encode(x), r, last, orig);
    blk := SL.Block(256, Identity(), dbufSize);
    xs := seq(|last|, i requires 0 <= i < |last| => last[i]);
    lss, selectors := [FlatLengths(), FlatLengths()], seq(20000, _ => 0);
    InitialValid(blk);
    FlatEncodable(blk, xs, lss, selectors);
  }
}
