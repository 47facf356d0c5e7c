/**
 The inner symbol layer of bzip2: move-to-front positions, with runs of the front symbol
 written in the two digits RUNA and RUNB (read_huffman_data, lib/bunzip.c).
 */
module SymbolLayer {
  import opened Permutation
  import opened Powers
  import opened RunLength

  const RUNA: nat := 0
  const RUNB: nat := 1

  // ----- run lengths in bijective base two -----

  predicate Digits(ds: seq<nat>) { forall i :: 0 <= i < |ds| ==> ds[i] <= RUNB }

  /** Least significant digit first; RUNA stands for one and RUNB for two. */
  function RunDigits(n: nat): (ds: seq<nat>)
    ensures Digits(ds)
  {
    if n == 0 then []
    else if n % 2 == 1 then [RUNA] + RunDigits((n - 1) / 2)
    else [RUNB] + RunDigits((n - 2) / 2)
  }

  function RunValue(ds: seq<nat>): (n: nat)
  {
    if ds == [] then 0 else 1 + ds[0] + 2 * RunValue(ds[1..])
  }

  /** Every length has one spelling, */
  lemma {:induction false} RunRoundTrip(n: nat)
    ensures RunValue(RunDigits(n)) == n
  {
    if n > 0 {
      var m := if n % 2 == 1 then (n - 1) / 2 else (n - 2) / 2;
      RunRoundTrip(m);
      assert RunDigits(n)[1..] == RunDigits(m);
    }
  }

  lemma FirstDigit(d: nat, v: nat)
    requires d <= RUNB
    ensures RunDigits(1 + d + 2 * v) == [d] + RunDigits(v)
  {
    var n := 1 + d + 2 * v;
    assert d == 0 ==> n % 2 == 1 && (n - 1) / 2 == v;
    assert d == 1 ==> n % 2 == 0 && (n - 2) / 2 == v;
  }

  /** and every spelling is the one of its length. */
  lemma {:induction false} RunUnique(ds: seq<nat>)
    requires Digits(ds)
    ensures RunDigits(RunValue(ds)) == ds
  {
    if ds != [] {
      RunUnique(ds[1..]);
      FirstDigit(ds[0], RunValue(ds[1..]));
      assert ds == [ds[0]] + ds[1..];
    }
  }

  /** A run shorter than 2^k - 1 has fewer than k digits: blocks below 900000 bytes need at most
      nineteen, far from the width of an int. */
  lemma {:induction false} RunIsShort(n: nat, k: nat)
    requires n + 1 < Pow2(k)
    ensures |RunDigits(n)| < k
  {
    if n > 0 {
      RunIsShort(if n % 2 == 1 then (n - 1) / 2 else (n - 2) / 2, k - 1);
    }
  }

  // ----- move to front -----

  function MoveToFront(tbl: seq<nat>, i: nat): (r: seq<nat>)
    requires i < |tbl|
    ensures |r| == |tbl|
  {
    [tbl[i]] + tbl[..i] + tbl[i + 1..]
  }

  function IndexOf(tbl: seq<nat>, x: nat): (i: nat)
    requires x in tbl
    ensures i < |tbl| && tbl[i] == x
  {
    if tbl[0] == x then 0 else 1 + IndexOf(tbl[1..], x)
  }

  /** The table holds every symbol once, those of the alphabet in front. */
  ghost predicate Table(tbl: seq<nat>, symTotal: nat)
  {
    && IsPermutation(tbl, 256)
    && symTotal <= 256
    && forall i :: 0 <= i < 256 ==> (tbl[i] < symTotal <==> i < symTotal)
  }

  lemma {:induction false} TableKept(tbl: seq<nat>, symTotal: nat, i: nat)
    requires Table(tbl, symTotal) && i < symTotal
    ensures Table(MoveToFront(tbl, i), symTotal)
  {
    var r := MoveToFront(tbl, i);
    forall k | 0 <= k < 256 ensures r[k] == tbl[if k == 0 then i else if k <= i then k - 1 else k] { }
  }

  lemma {:induction false} TableHolds(tbl: seq<nat>, symTotal: nat, x: nat)
    requires Table(tbl, symTotal) && x < symTotal
    ensures x in tbl && IndexOf(tbl, x) < symTotal
  {
    var k := Reaches(tbl, 256, x);
  }

  /** memmove by hand: the symbol at position i comes to the front, in place. */
  method MoveUp(mtf: array<nat>, i: nat) returns (uc: nat)
    requires i < mtf.Length
    modifies mtf
    ensures uc == old(mtf[i])
    ensures mtf[..] == MoveToFront(old(mtf[..]), i)
  {
    uc := mtf[i];
    var ii := i;
    while ii > 0
      invariant ii <= i
      invariant forall k :: 0 <= k <= ii ==> mtf[k] == old(mtf[k])
      invariant forall k :: ii < k <= i ==> mtf[k] == old(mtf[k - 1])
      invariant forall k :: i < k < mtf.Length ==> mtf[k] == old(mtf[k])
    {
      ii := ii - 1;
      mtf[ii + 1] := mtf[ii];
    }
    mtf[0] := uc;
  }

  // ----- one symbol -----

  /** What the loop of read_huffman_data carries from symbol to symbol: the table, the weight of
      the next run digit (0 outside a run), the length of the run so far (which is not used
      outside a run, and 0 then), and the bytes so far. */
  datatype Layer = Layer(tbl: seq<nat>, runPos: nat, hh: nat, out: seq<int>)

  datatype Outcome = More(st: Layer) | Done(out: seq<int>) | Bad

  /** The alphabet of a block, and the size of the buffer it must fit. */
  datatype Block = Block(symTotal: nat, symToByte: seq<int>, dbufSize: nat)

  ghost predicate ValidBlock(b: Block)
  {
    b.symTotal <= 256 && |b.symToByte| == 256 && forall k :: 0 <= k < 256 ==> 0 <= b.symToByte[k] < 256
  }

  ghost predicate ValidLayer(b: Block, st: Layer)
  {
    ValidBlock(b) && Table(st.tbl, b.symTotal)
  }

  function RunDigit(st: Layer, sym: nat): (r: Layer)
    requires sym <= RUNB
  {
    var weight := if st.runPos == 0 then 1 else st.runPos;
    var hh := if st.runPos == 0 then 0 else st.hh;
    st.(runPos := 2 * weight, hh := hh + weight * (1 + sym))
  }

  /** The first symbol after a run: the front symbol is written out. A run that would fill the
      buffer to the last byte is refused. */
  function FlushRun(b: Block, st: Layer): (r: Outcome)
    requires ValidLayer(b, st)
  {
    if st.runPos == 0 then More(st)
    else if |st.out| + st.hh >= b.dbufSize then Bad
    else More(st.(runPos := 0, hh := 0, out := st.out + Repeat(b.symToByte[st.tbl[0]], st.hh)))
  }

  function Literal(b: Block, st: Layer, sym: nat): (r: Outcome)
    requires ValidLayer(b, st) && RUNB < sym <= b.symTotal
  {
    if |st.out| >= b.dbufSize then Bad
    else More(st.(tbl := MoveToFront(st.tbl, sym - 1), out := st.out + [b.symToByte[st.tbl[sym - 1]]]))
  }

  function Symbol(b: Block, st: Layer, sym: nat): (r: Outcome)
    requires ValidLayer(b, st)
    ensures r.More? ==> ValidLayer(b, r.st)
  {
    if sym <= RUNB then More(RunDigit(st, sym)) else
    var f := FlushRun(b, st);
    if f.Bad? then Bad
    else if sym > b.symTotal then Done(f.st.out)
    else
      TableKept(f.st.tbl, b.symTotal, sym - 1);
      Literal(b, f.st, sym)
  }

  /** Symbols one after the other, until the end-of-block symbol or one that is refused. */
  function Symbols(b: Block, st: Layer, syms: seq<nat>): (r: Outcome)
    requires ValidLayer(b, st)
    ensures r.More? ==> ValidLayer(b, r.st)
    decreases |syms|
  {
    if syms == [] then More(st) else
    var r := Symbol(b, st, syms[0]);
    if r.More? then Symbols(b, r.st, syms[1..]) else r
  }

  lemma {:induction false} SymbolsConcat(b: Block, st: Layer, s: seq<nat>, t: seq<nat>)
    requires ValidLayer(b, st) && Symbols(b, st, s).More?
    ensures Symbols(b, st, s + t) == Symbols(b, Symbols(b, st, s).st, t)
    decreases |s|
  {
    if s == [] {
      assert s + t == t;
    } else {
      assert (s + t)[1..] == s[1..] + t;
      SymbolsConcat(b, Symbol(b, st, s[0]).st, s[1..], t);
    }
  }

  // ----- the encoder -----

  /** xs are positions in the alphabet; zeros counts the front symbols not yet written. */
  function Encode(b: Block, tbl: seq<nat>, xs: seq<nat>, zeros: nat): (syms: seq<nat>)
    requires ValidBlock(b) && Table(tbl, b.symTotal) && forall i :: 0 <= i < |xs| ==> xs[i] < b.symTotal
    decreases |xs|
  {
    if xs == [] then RunDigits(zeros) + [b.symTotal + 1] else
    TableHolds(tbl, b.symTotal, xs[0]);
    var p := IndexOf(tbl, xs[0]);
    if p == 0 then Encode(b, tbl, xs[1..], zeros + 1) else
    TableKept(tbl, b.symTotal, p);
    RunDigits(zeros) + [p + 1] + Encode(b, MoveToFront(tbl, p), xs[1..], 0)
  }

  ghost function BytesOf(b: Block, xs: seq<nat>): (s: seq<int>)
    requires ValidBlock(b) && forall i :: 0 <= i < |xs| ==> xs[i] < b.symTotal
    ensures |s| == |xs|
  {
    seq(|xs|, i requires 0 <= i < |xs| => b.symToByte[xs[i]])
  }

  /** Digits add up to the length of the run they spell. */
  lemma {:induction false} DigitsRead(b: Block, st: Layer, ds: seq<nat>)
    requires ValidLayer(b, st) && Digits(ds) && ds != []
    ensures var r := Symbols(b, st, ds);
            && r.More?
            && r.st.tbl == st.tbl && r.st.out == st.out && r.st.runPos > 0
            && r.st.hh == (if st.runPos == 0 then RunValue(ds) else st.hh + st.runPos * RunValue(ds))
    decreases |ds|
  {
    var s1 := RunDigit(st, ds[0]);
    var w := if st.runPos == 0 then 1 else st.runPos;
    if |ds| == 1 {
      assert ds[1..] == [];
      assert RunValue(ds) == 1 + ds[0];
      assert Symbols(b, s1, ds[1..]) == More(s1);
    } else {
      DigitsRead(b, s1, ds[1..]);
      DigitWeight(w, ds[0], RunValue(ds[1..]));
    }
  }

  lemma DigitWeight(w: nat, d: nat, v: nat)
    ensures w * (1 + d) + (2 * w) * v == w * (1 + d + 2 * v)
  {
  }

  lemma {:induction false} RunValueBound(ds: seq<nat>)
    requires Digits(ds)
    ensures RunValue(ds) <= 2 * Pow2(|ds|) - 2
  {
    if ds != [] {
      RunValueBound(ds[1..]);
    }
  }

  lemma {:induction false} DigitsWeigh(b: Block, st: Layer, ds: seq<nat>)
    requires ValidLayer(b, st) && Digits(ds) && ds != []
    ensures var r := Symbols(b, st, ds);
            r.More? && r.st.runPos == (if st.runPos == 0 then 1 else st.runPos) * Pow2(|ds|)
    decreases |ds|
  {
    var s1 := RunDigit(st, ds[0]);
    if |ds| == 1 {
      assert ds[1..] == [] && Pow2(1) == 2;
      assert Symbols(b, s1, ds[1..]) == More(s1);
    } else {
      DigitsWeigh(b, s1, ds[1..]);
      Doubled(if st.runPos == 0 then 1 else st.runPos, Pow2(|ds| - 1));
    }
  }

  lemma Doubled(w: nat, p: nat)
    ensures (2 * w) * p == w * (2 * p)
  {
  }

  /** Up to thirty digits, the weight and the length of a run stay in the range of an int. */
  lemma {:induction false} RunFitsInt(b: Block, st: Layer, ds: seq<nat>)
    requires ValidLayer(b, st) && st.runPos == 0 && Digits(ds) && 0 < |ds| <= 30
    ensures var r := Symbols(b, st, ds);
            r.More? && r.st.runPos == Pow2(|ds|) <= 0x4000_0000 && r.st.hh == RunValue(ds) < 0x7fff_ffff
  {
    DigitsWeigh(b, st, ds);
    DigitsRead(b, st, ds);
    RunValueBound(ds);
    Pow30();
    Pow2Grows(|ds|, 30);
  }

  lemma {:induction false} SymbolsOne(b: Block, st: Layer, sym: nat)
    requires ValidLayer(b, st)
    ensures Symbols(b, st, [sym]) == Symbol(b, st, sym)
  {
    assert [sym][1..] == [];
    var r := Symbol(b, st, sym);
    assert r.More? ==> Symbols(b, r.st, []) == r;
  }

  /** A run of front symbols, followed by a symbol that is not a digit: it is refused if it is not empty
      and leaves no byte of the buffer free. */
  lemma {:induction false} RunThenSymbol(b: Block, st: Layer, zeros: nat, sym: nat)
    requires ValidLayer(b, st) && st.runPos == 0 && st.hh == 0 && sym > RUNB
    ensures var st' := st.(out := st.out + Repeat(b.symToByte[st.tbl[0]], zeros));
            Symbols(b, st, RunDigits(zeros) + [sym]) ==
            if zeros > 0 && |st.out| + zeros >= b.dbufSize then Bad else Symbol(b, st', sym)
  {
    var ds := RunDigits(zeros);
    if zeros == 0 {
      assert st.out + Repeat(b.symToByte[st.tbl[0]], 0) == st.out;
      assert ds + [sym] == [sym];
      SymbolsOne(b, st, sym);
    } else {
      DigitsRead(b, st, ds);
      RunRoundTrip(zeros);
      var mid := Symbols(b, st, ds).st;
      SymbolsConcat(b, st, ds, [sym]);
      SymbolsOne(b, mid, sym);
    }
  }

  lemma {:induction false} SymbolsBad(b: Block, st: Layer, s: seq<nat>, t: seq<nat>)
    requires ValidLayer(b, st) && Symbols(b, st, s) == Bad
    ensures Symbols(b, st, s + t) == Bad
    decreases |s|
  {
    assert (s + t)[1..] == s[1..] + t;
    var r := Symbol(b, st, s[0]);
    if r.More? {
      SymbolsBad(b, r.st, s[1..], t);
    }
  }

  /** The last bytes of a block are a run: of the front symbol, pending or in xs, or of a symbol twice. */
  predicate EndsInRun(tbl: seq<nat>, xs: seq<nat>, zeros: nat)
    requires tbl != []
  {
    var n := |xs|;
    if n == 0 then zeros > 0 else xs[n - 1] == if n == 1 then tbl[0] else xs[n - 2]
  }

  /** The block leaves a byte of the buffer free, or fills it and does not end in a run. */
  predicate Fits(b: Block, tbl: seq<nat>, written: nat, xs: seq<nat>, zeros: nat)
    requires tbl != []
  {
    var total := written + zeros + |xs|;
    total < b.dbufSize || (total == b.dbufSize && !EndsInRun(tbl, xs, zeros))
  }

  /** A front symbol lengthens the pending run, any other ends it: what fits stays the same. */
  lemma {:induction false} FitsNext(b: Block, tbl: seq<nat>, written: nat, xs: seq<nat>, zeros: nat)
    requires xs != [] && xs[0] in tbl
    ensures xs[0] == tbl[0] ==> Fits(b, tbl, written, xs[1..], zeros + 1) == Fits(b, tbl, written, xs, zeros)
    ensures xs[0] != tbl[0] ==>
              Fits(b, MoveToFront(tbl, IndexOf(tbl, xs[0])), written + zeros + 1, xs[1..], 0) == Fits(b, tbl, written, xs, zeros)
  {
    var n := |xs|;
    assert n >= 2 ==> xs[1..][n - 2] == xs[n - 1];
    assert n >= 3 ==> xs[1..][n - 3] == xs[n - 2];
  }

  lemma {:induction false} FrontDecodes(b: Block, out: seq<int>, xs: seq<nat>, zeros: nat)
    requires ValidBlock(b) && xs != [] && forall i :: 0 <= i < |xs| ==> xs[i] < b.symTotal
    ensures var x := b.symToByte[xs[0]];
            out + Repeat(x, zeros + 1) + BytesOf(b, xs[1..]) == out + Repeat(x, zeros) + BytesOf(b, xs)
  {
    var x := b.symToByte[xs[0]];
    assert Repeat(x, zeros + 1) == Repeat(x, zeros) + [x];
    assert BytesOf(b, xs) == [x] + BytesOf(b, xs[1..]);
  }

  lemma {:induction false} LiteralDecodes(b: Block, out: seq<int>, run: seq<int>, xs: seq<nat>, front: nat)
    requires ValidBlock(b) && xs != [] && front < 256 && forall i :: 0 <= i < |xs| ==> xs[i] < b.symTotal
    ensures var x := b.symToByte[xs[0]];
            (out + run + [x]) + Repeat(b.symToByte[front], 0) + BytesOf(b, xs[1..]) == out + run + BytesOf(b, xs)
  {
    var x := b.symToByte[xs[0]];
    assert BytesOf(b, xs) == [x] + BytesOf(b, xs[1..]);
    assert Repeat(b.symToByte[front], 0) == [];
  }

  /** The layer after a run of the front symbol and a symbol that is not at the front. */
  ghost function AfterOther(b: Block, st: Layer, x: nat, zeros: nat): (st': Layer)
    requires ValidLayer(b, st) && x in st.tbl && x < 256
  {
    st.(tbl := MoveToFront(st.tbl, IndexOf(st.tbl, x)),
        out := st.out + Repeat(b.symToByte[st.tbl[0]], zeros) + [b.symToByte[x]])
  }

  /** A symbol that is not at the front: the run before it and the symbol itself, then the others. */
  lemma {:induction false} OtherDecodes(b: Block, st: Layer, xs: seq<nat>, zeros: nat)
    requires ValidLayer(b, st) && st.runPos == 0 && st.hh == 0 && |st.out| <= b.dbufSize && b.symTotal > 0
    requires xs != [] && forall i :: 0 <= i < |xs| ==> xs[i] < b.symTotal
    requires xs[0] in st.tbl && xs[0] != st.tbl[0]
    ensures var st' := AfterOther(b, st, xs[0], zeros);
            && ValidLayer(b, st')
            && Symbols(b, st, Encode(b, st.tbl, xs, zeros)) ==
               if |st.out| + zeros < b.dbufSize then Symbols(b, st', Encode(b, st'.tbl, xs[1..], 0)) else Bad
  {
    TableHolds(st.tbl, b.symTotal, xs[0]);
    var p := IndexOf(st.tbl, xs[0]);
    TableKept(st.tbl, b.symTotal, p);
    var first, rest := RunDigits(zeros) + [p + 1], Encode(b, MoveToFront(st.tbl, p), xs[1..], 0);
    RunThenSymbol(b, st, zeros, p + 1);
    if |st.out| + zeros < b.dbufSize {
      SymbolsConcat(b, st, first, rest);
    } else {
      SymbolsBad(b, st, first, rest);
    }
  }

  ghost predicate Encodable(b: Block, st: Layer, xs: seq<nat>)
  {
    && ValidLayer(b, st) && st.runPos == 0 && st.hh == 0 && |st.out| <= b.dbufSize
    && b.symTotal > 0 && forall i :: 0 <= i < |xs| ==> xs[i] < b.symTotal
  }

  /** What the encoder writes is read back byte for byte if it fits, and refused if it does not. */
  ghost predicate ReadBack(b: Block, st: Layer, xs: seq<nat>, zeros: nat)
    requires Encodable(b, st, xs)
  {
    Symbols(b, st, Encode(b, st.tbl, xs, zeros)) ==
    if Fits(b, st.tbl, |st.out|, xs, zeros)
    then Done(st.out + Repeat(b.symToByte[st.tbl[0]], zeros) + BytesOf(b, xs)) else Bad
  }

  lemma {:induction false} NoneReadBack(b: Block, st: Layer, zeros: nat)
    requires Encodable(b, st, [])
    ensures ReadBack(b, st, [], zeros)
  {
    RunThenSymbol(b, st, zeros, b.symTotal + 1);
    var run := Repeat(b.symToByte[st.tbl[0]], zeros);
    assert st.out + run + BytesOf(b, []) == st.out + run;
  }

  lemma {:induction false} FrontReadBack(b: Block, st: Layer, xs: seq<nat>, zeros: nat)
    requires Encodable(b, st, xs) && xs != [] && xs[0] == st.tbl[0] && ReadBack(b, st, xs[1..], zeros + 1)
    ensures ReadBack(b, st, xs, zeros)
  {
    FitsNext(b, st.tbl, |st.out|, xs, zeros);
    FrontDecodes(b, st.out, xs, zeros);
  }

  lemma {:induction false} OtherReadBack(b: Block, st: Layer, xs: seq<nat>, zeros: nat)
    requires Encodable(b, st, xs) && xs != [] && xs[0] in st.tbl && xs[0] != st.tbl[0]
    requires var st' := AfterOther(b, st, xs[0], zeros);
             |st.out| + zeros < b.dbufSize ==> Encodable(b, st', xs[1..]) && ReadBack(b, st', xs[1..], 0)
    ensures ReadBack(b, st, xs, zeros)
  {
    FitsNext(b, st.tbl, |st.out|, xs, zeros);
    OtherDecodes(b, st, xs, zeros);
    LiteralDecodes(b, st.out, Repeat(b.symToByte[st.tbl[0]], zeros), xs, AfterOther(b, st, xs[0], zeros).tbl[0]);
  }

  /** For every block: it is read back exactly if it fits. */
  lemma {:induction false} EncodeDecodes(b: Block, st: Layer, xs: seq<nat>, zeros: nat)
    requires Encodable(b, st, xs)
    ensures ReadBack(b, st, xs, zeros)
    decreases |xs|
  {
    if xs == [] {
      NoneReadBack(b, st, zeros);
    } else if xs[0] == st.tbl[0] {
      EncodeDecodes(b, st, xs[1..], zeros + 1);
      FrontReadBack(b, st, xs, zeros);
    } else {
      TableHolds(st.tbl, b.symTotal, xs[0]);
      if |st.out| + zeros < b.dbufSize {
        TableKept(st.tbl, b.symTotal, IndexOf(st.tbl, xs[0]));
        EncodeDecodes(b, AfterOther(b, st, xs[0], zeros), xs[1..], 0);
      }
      OtherReadBack(b, st, xs, zeros);
    }
  }

  /** A buffer of one byte holds the block that is the second symbol, but not the one that is the first:
      that is a run. */
  lemma {:induction false} FullBlockExample(b: Block, st: Layer)
    requires ValidLayer(b, st) && st.runPos == 0 && st.hh == 0 && st.out == []
    requires b.symTotal > 1 && b.dbufSize == 1 && st.tbl[0] == 0
    ensures Symbols(b, st, Encode(b, st.tbl, [0], 0)) == Bad
    ensures Symbols(b, st, Encode(b, st.tbl, [1], 0)) == Done([b.symToByte[1]])
  {
    EncodeDecodes(b, st, [0], 0);
    EncodeDecodes(b, st, [1], 0);
    assert ReadBack(b, st, [0], 0) && ReadBack(b, st, [1], 0);
    assert [] + Repeat(b.symToByte[st.tbl[0]], 0) + BytesOf(b, [1]) == [b.symToByte[1]];
  }

  /** The end-of-block symbol comes last and nowhere else. */
  ghost predicate EndsBlock(syms: seq<nat>, symTotal: nat)
  {
    && syms != []
    && syms[|syms| - 1] == symTotal + 1
    && forall i :: 0 <= i < |syms| - 1 ==> syms[i] <= symTotal
  }

  lemma {:induction false} EndsBlockConcat(s: seq<nat>, t: seq<nat>, symTotal: nat)
    requires EndsBlock(t, symTotal) && forall i :: 0 <= i < |s| ==> s[i] <= symTotal
    ensures EndsBlock(s + t, symTotal)
  {
  }

  lemma {:induction false} EncodeEnds(b: Block, tbl: seq<nat>, xs: seq<nat>, zeros: nat)
    requires ValidBlock(b) && Table(tbl, b.symTotal) && forall i :: 0 <= i < |xs| ==> xs[i] < b.symTotal
    requires b.symTotal > 0
    ensures EndsBlock(Encode(b, tbl, xs, zeros), b.symTotal)
    decreases |xs|
  {
    if xs == [] {
      EndsBlockConcat(RunDigits(zeros), [b.symTotal + 1], b.symTotal);
    } else {
      TableHolds(tbl, b.symTotal, xs[0]);
      var p := IndexOf(tbl, xs[0]);
      if p == 0 {
        EncodeEnds(b, tbl, xs[1..], zeros + 1);
      } else {
        TableKept(tbl, b.symTotal, p);
        EncodeEnds(b, MoveToFront(tbl, p), xs[1..], 0);
        EndsBlockConcat(RunDigits(zeros) + [p + 1], Encode(b, MoveToFront(tbl, p), xs[1..], 0), b.symTotal);
      }
    }
  }

  lemma {:induction false} RunShorter(n: nat)
    ensures |RunDigits(n)| <= n
  {
    if n > 0 {
      RunShorter(if n % 2 == 1 then (n - 1) / 2 else (n - 2) / 2);
    }
  }

  /** At most one symbol for a byte, and the end. */
  lemma {:induction false} EncodeShort(b: Block, tbl: seq<nat>, xs: seq<nat>, zeros: nat)
    requires ValidBlock(b) && Table(tbl, b.symTotal) && forall i :: 0 <= i < |xs| ==> xs[i] < b.symTotal
    ensures |Encode(b, tbl, xs, zeros)| <= zeros + |xs| + 1
    decreases |xs|
  {
    RunShorter(zeros);
    if xs != [] {
      TableHolds(tbl, b.symTotal, xs[0]);
      var p := IndexOf(tbl, xs[0]);
      if p == 0 {
        EncodeShort(b, tbl, xs[1..], zeros + 1);
      } else {
        TableKept(tbl, b.symTotal, p);
        EncodeShort(b, MoveToFront(tbl, p), xs[1..], 0);
      }
    }
  }
}
