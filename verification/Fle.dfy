/**
 The linker and loader of the Funny Little Executable format (FLE_ld and FLE_exec,
 course5/fle/fle.py).
 */
module Fle {
  import opened BitStream
  import opened Sequences
  import opened Wrappers

  // ----- object files -----

  /** The lines of a section: a global or local symbol, bytes, or a relocation
      "i32(symb + addend - here)". */
  datatype Item = Globl(symb: string) | Local(symb: string) | Bytes(bs: seq<Byte>) | Reloc(symb: string, addend: int)

  /** An item with the name of its file. */
  datatype Entry = Entry(file: string, item: Item)

  datatype Part = Part(file: string, items: seq<Item>)

  datatype Section = Section(name: string, parts: seq<Part>)

  function Underscored(name: string): (s: string)
  {
    seq(|name|, i requires 0 <= i < |name| => if name[i] == '.' then '_' else name[i])
  }

  /** The symbol of a section has its name with every dot replaced: _rodata for .rodata. */
  lemma {:induction false} UnderscoredIs(name: string)
    ensures |Underscored(name)| == |name| && '.' !in Underscored(name)
    ensures forall i :: 0 <= i < |name| ==> name[i] == Underscored(name)[i] || (name[i] == '.' && Underscored(name)[i] == '_')
    ensures Underscored(".rodata") == "_rodata"
  {
  }

  /** Each part begins with a local symbol named after its section. */
  function FlatPart(name: string, part: Part, k: nat): (es: seq<Entry>)
    requires k <= |part.items|
  {
    if k == 0 then [Entry(part.file, Local(Underscored(name)))]
    else FlatPart(name, part, k - 1) + [Entry(part.file, part.items[k - 1])]
  }

  function FlatSection(sec: Section, k: nat): (es: seq<Entry>)
    requires k <= |sec.parts|
  {
    if k == 0 then []
    else FlatSection(sec, k - 1) + FlatPart(sec.name, sec.parts[k - 1], |sec.parts[k - 1].items|)
  }

  function Flat(sections: seq<Section>, k: nat): (es: seq<Entry>)
    requires k <= |sections|
  {
    if k == 0 then [] else Flat(sections, k - 1) + FlatSection(sections[k - 1], |sections[k - 1].parts|)
  }

  // ----- 32-bit fields -----

  const TWO_31 := 0x8000_0000
  const TWO_32 := 0x1_0000_0000

  predicate Fits(x: int) { -TWO_31 <= x < TWO_31 }

  /** int.to_bytes(4, 'little', signed=True) */
  function Field(x: int): (bs: seq<Byte>)
    requires Fits(x)
    ensures |bs| == 4
  {
    var u := if x < 0 then x + TWO_32 else x;
    [u % 256, u / 256 % 256, u / 65536 % 256, u / 16777216]
  }

  /** What a processor reads from the field. */
  function FieldValue(bs: seq<Byte>): (x: int)
    requires |bs| == 4
  {
    var a: int, b: int, c: int, d: int := bs[0], bs[1], bs[2], bs[3];
    var u := a + 256 * b + 65536 * c + 16777216 * d;
    if u >= TWO_31 then u - TWO_32 else u
  }

  lemma {:induction false} FieldReads(x: int)
    requires Fits(x)
    ensures FieldValue(Field(x)) == x
  {
    var u := if x < 0 then x + TWO_32 else x;
    var a := u / 256;
    var b := a / 256;
    assert u / 65536 == b && u / 16777216 == b / 256;
  }

  /** The numbers that fit are those that four bytes can hold. */
  lemma {:induction false} FitsExactly(x: int)
    ensures Fits(x) <==> exists bs: seq<Byte> :: |bs| == 4 && FieldValue(bs) == x
  {
    if Fits(x) {
      FieldReads(x);
      assert |Field(x)| == 4;
    }
  }

  // ----- a pass -----

  datatype Error = MultipleDefinition(symb: string) | Undefined(symb: string) | OutOfRange | NotAFunction | NotANumber

  datatype Result<T> = Ok(value: T) | Err(error: Error)

  function LocalKey(file: string, symb: string): (key: string) { file + "." + symb }

  /** The name of the function that makes fields; it is in the symbol table from the start. */
  const I32: string := "i32"

  /** Symbols.__getitem__, for the symbol of a relocation. */
  function Lookup(second: bool, symbols: map<string, int>, file: string, symb: string): (r: Result<int>)
  {
    if !second then
      if symb == I32 then Err(NotANumber) else if symb in symbols then Ok(symbols[symb]) else Ok(0)
    else if LocalKey(file, symb) in symbols then Ok(symbols[LocalKey(file, symb)])
    else if symb == I32 then Err(NotANumber)
    else if symb in symbols then Ok(symbols[symb])
    else Err(Undefined(symb))
  }

  /** Evaluates a relocation; in the second pass a local symbol may hide the function. */
  function Evaluate(second: bool, symbols: map<string, int>, file: string, symb: string, addend: int, here: nat): (r: Result<seq<Byte>>)
    ensures r.Ok? ==> |r.value| == 4
  {
    if second && LocalKey(file, I32) in symbols then Err(NotAFunction)
    else match Lookup(second, symbols, file, symb)
      case Err(e) => Err(e)
      case Ok(s) => if Fits(s + addend - here) then Ok(Field(s + addend - here)) else Err(OutOfRange)
  }

  datatype State = State(symbols: map<string, int>, res: seq<Byte>)

  function Step(second: bool, s: State, e: Entry): (r: Result<State>)
  {
    match e.item
    case Globl(symb) =>
      if !second && (symb == I32 || symb in s.symbols) then Err(MultipleDefinition(symb))
      else Ok(s.(symbols := s.symbols[symb := |s.res|]))
    case Local(symb) => Ok(s.(symbols := s.symbols[LocalKey(e.file, symb) := |s.res|]))
    case Bytes(bs) => Ok(s.(res := s.res + bs))
    case Reloc(symb, addend) =>
      match Evaluate(second, s.symbols, e.file, symb, addend, |s.res|)
      case Err(x) => Err(x)
      case Ok(bs) => Ok(s.(res := s.res + bs))
  }

  /** A pass over the first k entries. */
  function Pass(second: bool, symbols: map<string, int>, es: seq<Entry>, k: nat): (r: Result<State>)
    requires k <= |es|
  {
    if k == 0 then Ok(State(symbols, [])) else
    match Pass(second, symbols, es, k - 1)
    case Err(e) => Err(e)
    case Ok(s) => Step(second, s, es[k - 1])
  }

  /** Both passes. */
  function Link(es: seq<Entry>): (r: Result<State>)
  {
    match Pass(false, map[], es, |es|)
    case Err(e) => Err(e)
    case Ok(s) => Pass(true, s.symbols, es, |es|)
  }

  // ----- layout -----

  function Size(item: Item): (n: nat)
  {
    match item
    case Globl(_) => 0
    case Local(_) => 0
    case Bytes(bs) => |bs|
    case Reloc(_, _) => 4
  }

  /** Where entry k lies: the sizes of what comes before it. */
  function At(es: seq<Entry>, k: nat): (n: nat)
    requires k <= |es|
  {
    if k == 0 then 0 else At(es, k - 1) + Size(es[k - 1].item)
  }

  /** The key that an entry defines. */
  function Key(e: Entry): (key: Option<string>)
  {
    match e.item
    case Globl(symb) => Some(symb)
    case Local(symb) => Some(LocalKey(e.file, symb))
    case Bytes(_) => None
    case Reloc(_, _) => None
  }

  /** What the first k entries define; a later definition of a key counts. */
  function Defined(es: seq<Entry>, k: nat): (symbols: map<string, int>)
    requires k <= |es|
  {
    if k == 0 then map[] else
    match Key(es[k - 1])
    case None => Defined(es, k - 1)
    case Some(key) => Defined(es, k - 1)[key := At(es, k - 1)]
  }

  /** Both passes lay out the entries alike, whatever the relocations come to. */
  lemma {:induction false} SameLayout(second: bool, symbols: map<string, int>, es: seq<Entry>, k: nat)
    requires k <= |es| && Pass(second, symbols, es, k).Ok?
    ensures var s := Pass(second, symbols, es, k).value;
            |s.res| == At(es, k) && s.symbols == symbols + Defined(es, k)
  {
    if k > 0 {
      SameLayout(second, symbols, es, k - 1);
    }
  }

  /** A pass that succeeds has succeeded so far, with a part of the result. */
  lemma {:induction false} PassPrefix(second: bool, symbols: map<string, int>, es: seq<Entry>, k: nat, n: nat)
    requires k <= n <= |es| && Pass(second, symbols, es, n).Ok?
    ensures Pass(second, symbols, es, k).Ok?
    ensures Pass(second, symbols, es, k).value.res <= Pass(second, symbols, es, n).value.res
  {
    if k < n {
      PassPrefix(second, symbols, es, k, n - 1);
    }
  }

  // ----- consistent names -----

  /** Whenever a key is defined twice, it is for the same place: a section may have a local symbol
      of its own name. */
  ghost predicate Consistent(es: seq<Entry>)
  {
    forall i, j :: 0 <= i < j < |es| && Key(es[i]).Some? && Key(es[i]) == Key(es[j]) ==> At(es, i) == At(es, j)
  }

  lemma {:induction false} DefinedHere(es: seq<Entry>, k: nat, i: nat)
    requires Consistent(es) && i < k <= |es| && Key(es[i]).Some?
    ensures Key(es[i]).value in Defined(es, k) && Defined(es, k)[Key(es[i]).value] == At(es, i)
  {
    if i < k - 1 {
      DefinedHere(es, k - 1, i);
    }
  }

  lemma {:induction false} DefinedSomewhere(es: seq<Entry>, k: nat, key: string) returns (i: nat)
    requires k <= |es| && key in Defined(es, k)
    ensures i < k && Key(es[i]) == Some(key) && Defined(es, k)[key] == At(es, i)
  {
    if Key(es[k - 1]) == Some(key) {
      i := k - 1;
    } else {
      i := DefinedSomewhere(es, k - 1, key);
    }
  }

  /** In the second pass the symbol table does not change any more. */
  lemma {:induction false} TableIsFinal(es: seq<Entry>, k: nat)
    requires Consistent(es) && k <= |es|
    ensures Defined(es, |es|) + Defined(es, k) == Defined(es, |es|)
  {
    forall key | key in Defined(es, k)
      ensures key in Defined(es, |es|) && Defined(es, |es|)[key] == Defined(es, k)[key]
    {
      var i := DefinedSomewhere(es, k, key);
      DefinedHere(es, |es|, i);
    }
  }

  // ----- the linked image -----

  /** The address of a symbol for a file: local before global. */
  function Address(es: seq<Entry>, file: string, symb: string): (r: Option<int>)
  {
    var t := Defined(es, |es|);
    if LocalKey(file, symb) in t then Some(t[LocalKey(file, symb)])
    else if symb in t then Some(t[symb])
    else None
  }

  lemma {:induction false} SecondState(es: seq<Entry>, k: nat)
    requires Consistent(es) && Link(es).Ok? && k <= |es|
    ensures Pass(true, Defined(es, |es|), es, k).Ok?
    ensures var s := Pass(true, Defined(es, |es|), es, k).value;
            s.symbols == Defined(es, |es|) && |s.res| == At(es, k) && s.res <= Link(es).value.res
  {
    SameLayout(false, map[], es, |es|);
    assert map[] + Defined(es, |es|) == Defined(es, |es|);
    PassPrefix(true, Defined(es, |es|), es, k, |es|);
    SameLayout(true, Defined(es, |es|), es, k);
    TableIsFinal(es, k);
  }

  /** Every relocated field holds S + A - P for the final addresses, wherever its symbol is. */
  lemma {:induction false} Relocated(es: seq<Entry>, k: nat)
    requires Consistent(es) && Link(es).Ok? && k < |es| && es[k].item.Reloc?
    ensures var image, p := Link(es).value.res, At(es, k);
            var s := Address(es, es[k].file, es[k].item.symb);
            p + 4 <= |image| && s.Some? && FieldValue(image[p..p + 4]) == s.value + es[k].item.addend - p
  {
    SecondState(es, k);
    SecondState(es, k + 1);
    var s, s' := Pass(true, Defined(es, |es|), es, k).value, Pass(true, Defined(es, |es|), es, k + 1).value;
    var x := RelocStep(es, s, s', es[k], At(es, k));
    var image := Link(es).value.res;
    assert s.res + Field(x) <= image && |s.res| == At(es, k);
    PrefixSlice(s.res, Field(x), image);
  }

  lemma {:induction false} RelocStep(es: seq<Entry>, s: State, s': State, e: Entry, p: nat) returns (x: int)
    requires e.item.Reloc? && Step(true, s, e) == Ok(s') && |s.res| == p && s.symbols == Defined(es, |es|)
    ensures var a := Address(es, e.file, e.item.symb);
            a.Some? && x == a.value + e.item.addend - p && Fits(x)
    ensures s'.res == s.res + Field(x) && FieldValue(Field(x)) == x
  {
    x := Lookup(true, s.symbols, e.file, e.item.symb).value + e.item.addend - p;
    FieldReads(x);
  }

  /** Every other byte of the object files is in its place. */
  lemma {:induction false} Placed(es: seq<Entry>, k: nat)
    requires Consistent(es) && Link(es).Ok? && k < |es| && es[k].item.Bytes?
    ensures var image, p, bs := Link(es).value.res, At(es, k), es[k].item.bs;
            p + |bs| <= |image| && image[p..p + |bs|] == bs
  {
    SecondState(es, k);
    SecondState(es, k + 1);
    PrefixSlice(Pass(true, Defined(es, |es|), es, k).value.res, es[k].item.bs, Link(es).value.res);
  }

  lemma PrefixSlice(a: seq<Byte>, b: seq<Byte>, c: seq<Byte>)
    requires a + b <= c
    ensures c[|a|..|a| + |b|] == b
  {
  }

  // ----- when linking succeeds -----

  /** No global symbol is defined twice, and no field of the first pass, with 0 for what is not yet
      known, is out of range. */
  ghost predicate FirstOk(es: seq<Entry>, k: nat)
    requires k < |es|
  {
    var t := Defined(es, k);
    match es[k].item
    case Globl(symb) => symb != I32 && symb !in t
    case Local(_) => true
    case Bytes(_) => true
    case Reloc(symb, addend) => symb != I32 && Fits((if symb in t then t[symb] else 0) + addend - At(es, k))
  }

  /** The symbol is defined, and the field is in range. */
  ghost predicate SecondOk(es: seq<Entry>, k: nat)
    requires k < |es|
  {
    match es[k].item
    case Globl(_) => true
    case Local(_) => true
    case Bytes(_) => true
    case Reloc(symb, addend) =>
      var s := Address(es, es[k].file, symb);
      LocalKey(es[k].file, I32) !in Defined(es, |es|) && s.Some? && Fits(s.value + addend - At(es, k))
  }

  lemma {:induction false} FirstExactly(es: seq<Entry>, k: nat)
    requires k <= |es|
    ensures Pass(false, map[], es, k).Ok? <==> forall i :: 0 <= i < k ==> FirstOk(es, i)
  {
    if k > 0 {
      FirstExactly(es, k - 1);
      if Pass(false, map[], es, k - 1).Ok? {
        SameLayout(false, map[], es, k - 1);
        assert map[] + Defined(es, k - 1) == Defined(es, k - 1);
        assert Step(false, Pass(false, map[], es, k - 1).value, es[k - 1]).Ok? <==> FirstOk(es, k - 1);
      }
    }
  }

  lemma {:induction false} SecondStep(es: seq<Entry>, s: State, k: nat)
    requires k < |es| && FirstOk(es, k) && s.symbols == Defined(es, |es|) && |s.res| == At(es, k)
    ensures Step(true, s, es[k]).Ok? <==> SecondOk(es, k)
  {
  }

  lemma {:induction false} SecondExactly(es: seq<Entry>, k: nat)
    requires Consistent(es) && k <= |es| && forall i :: 0 <= i < |es| ==> FirstOk(es, i)
    ensures Pass(true, Defined(es, |es|), es, k).Ok? <==> forall i :: 0 <= i < k ==> SecondOk(es, i)
  {
    if k > 0 {
      SecondExactly(es, k - 1);
      if Pass(true, Defined(es, |es|), es, k - 1).Ok? {
        SameLayout(true, Defined(es, |es|), es, k - 1);
        TableIsFinal(es, k - 1);
        SecondStep(es, Pass(true, Defined(es, |es|), es, k - 1).value, k - 1);
      }
    }
  }

  /** Linking fails exactly for a global symbol defined twice, an undefined symbol, or a field out
      of range in either pass; the name of the field function is taken. */
  lemma {:induction false} LinksExactly(es: seq<Entry>)
    requires Consistent(es)
    ensures Link(es).Ok? <==> forall i :: 0 <= i < |es| ==> FirstOk(es, i) && SecondOk(es, i)
  {
    FirstExactly(es, |es|);
    if forall i :: 0 <= i < |es| ==> FirstOk(es, i) {
      SecondExactly(es, |es|);
      SameLayout(false, map[], es, |es|);
      assert map[] + Defined(es, |es|) == Defined(es, |es|);
    }
  }

  // ----- what an address is the address of -----

  /** The last dot of a key stands before the symbol. */
  lemma {:induction false} LastDot(file: string, symb: string, p: nat)
    requires '.' !in symb && p < |LocalKey(file, symb)| && LocalKey(file, symb)[p] == '.'
    ensures p <= |file|
  {
    var key := LocalKey(file, symb);
    forall q | |file| < q < |key| ensures key[q] != '.' { assert key[q] == symb[q - |file| - 1]; }
  }

  lemma {:induction false} LocalKeyUnique(file: string, symb: string, file': string, symb': string)
    requires '.' !in symb && '.' !in symb' && LocalKey(file, symb) == LocalKey(file', symb')
    ensures file == file' && symb == symb'
  {
    var key, key' := LocalKey(file, symb), LocalKey(file', symb');
    assert key[|file|] == '.' && key'[|file'|] == '.';
    LastDot(file, symb, |file'|);
    LastDot(file', symb', |file|);
    assert key[..|file|] == file && key[|file| + 1..] == symb;
    assert key'[..|file|] == file' && key'[|file| + 1..] == symb';
  }

  /** No symbol's name has a dot in it; elf_to_fle makes such names. */
  ghost predicate Dotless(es: seq<Entry>)
  {
    forall i :: 0 <= i < |es| && Key(es[i]).Some? ==> '.' !in es[i].item.symb
  }

  lemma {:induction false} LocalKeyDefined(es: seq<Entry>, file: string, symb: string)
    requires Dotless(es) && '.' !in symb && LocalKey(file, symb) in Defined(es, |es|)
    ensures Entry(file, Local(symb)) in es
  {
    var j := DefinedSomewhere(es, |es|, LocalKey(file, symb));
    assert LocalKey(file, symb)[|file|] == '.';
    assert es[j].item.Local?;
    LocalKeyUnique(file, symb, es[j].file, es[j].item.symb);
  }

  /** A file's own symbol comes before a global one, and either stands for the place where it is
      defined. */
  lemma {:induction false} LocalBeforeGlobal(es: seq<Entry>, file: string, symb: string, i: nat)
    requires Consistent(es) && Dotless(es) && '.' !in symb && i < |es|
    ensures es[i] == Entry(file, Local(symb)) ==> Address(es, file, symb) == Some(At(es, i))
    ensures es[i].item == Globl(symb) && Entry(file, Local(symb)) !in es ==> Address(es, file, symb) == Some(At(es, i))
  {
    if Key(es[i]).Some? {
      DefinedHere(es, |es|, i);
    }
    if LocalKey(file, symb) in Defined(es, |es|) {
      LocalKeyDefined(es, file, symb);
    }
  }

  // ----- the loops -----

  /** The pass over es has ended with this error or in this state. */
  ghost predicate Reached(second: bool, start: map<string, int>, es: seq<Entry>, error: Option<Error>, now: State)
  {
    match Pass(second, start, es, |es|)
    case Ok(s) => error == None && now == s
    case Err(e) => error == Some(e)
  }

  lemma {:induction false} PassShorter(second: bool, start: map<string, int>, es: seq<Entry>, more: seq<Entry>, k: nat)
    requires k <= |es|
    ensures Pass(second, start, es + more, k) == Pass(second, start, es, k)
  {
    if k > 0 {
      PassShorter(second, start, es, more, k - 1);
    }
  }

  lemma {:induction false} ReachedNext(second: bool, start: map<string, int>, es: seq<Entry>, e: Entry, s: State)
    requires Reached(second, start, es, None, s)
    ensures Pass(second, start, es + [e], |es| + 1) == Step(second, s, e)
  {
    PassShorter(second, start, es, [e], |es|);
  }

  /** An error stays. */
  lemma {:induction false} ReachedError(second: bool, start: map<string, int>, es: seq<Entry>, more: seq<Entry>, error: Option<Error>, s: State)
    requires Reached(second, start, es, error, s) && error.Some?
    ensures Reached(second, start, es + more, error, s)
  {
    if more == [] {
      assert es + more == es;
    } else {
      var front, e := more[..|more| - 1], more[|more| - 1];
      ReachedError(second, start, es, front, error, s);
      PassShorter(second, start, es + front, [e], |es + front|);
      assert es + more == (es + front) + [e];
    }
  }

  lemma {:induction false} FlatPartRest(name: string, part: Part, k: nat) returns (rest: seq<Entry>)
    requires k <= |part.items|
    ensures FlatPart(name, part, k) + rest == FlatPart(name, part, |part.items|)
    decreases |part.items| - k
  {
    if k == |part.items| {
      rest := [];
    } else {
      var more := FlatPartRest(name, part, k + 1);
      rest := [Entry(part.file, part.items[k])] + more;
      Regroup(FlatPart(name, part, k), [Entry(part.file, part.items[k])], more);
    }
  }

  lemma {:induction false} FlatSectionRest(sec: Section, k: nat) returns (rest: seq<Entry>)
    requires k <= |sec.parts|
    ensures FlatSection(sec, k) + rest == FlatSection(sec, |sec.parts|)
    decreases |sec.parts| - k
  {
    if k == |sec.parts| {
      rest := [];
    } else {
      var more := FlatSectionRest(sec, k + 1);
      var part := FlatPart(sec.name, sec.parts[k], |sec.parts[k].items|);
      rest := part + more;
      Regroup(FlatSection(sec, k), part, more);
    }
  }

  lemma {:induction false} FlatRest(sections: seq<Section>, k: nat) returns (rest: seq<Entry>)
    requires k <= |sections|
    ensures Flat(sections, k) + rest == Flat(sections, |sections|)
    decreases |sections| - k
  {
    if k == |sections| {
      rest := [];
    } else {
      var more := FlatRest(sections, k + 1);
      var sec := FlatSection(sections[k], |sections[k].parts|);
      rest := sec + more;
      Regroup(Flat(sections, k), sec, more);
    }
  }

  class Linker {
    var symbols: map<string, int>
    var res: seq<Byte>

    ghost function Now(): (s: State)
      reads this
    {
      State(symbols, res)
    }

    constructor ()
      ensures symbols == map[] && res == []
    {
      symbols, res := map[], [];
    }

    /** The match on one item. */
    method AddItem(second: bool, file: string, item: Item, ghost start: map<string, int>, ghost done: seq<Entry>)
      returns (error: Option<Error>)
      requires Reached(second, start, done, None, Now())
      modifies this
      ensures Reached(second, start, done + [Entry(file, item)], error, Now())
      ensures item.Local? ==> error == None
    {
      ReachedNext(second, start, done, Entry(file, item), Now());
      error := None;
      match item {
        case Globl(symb) =>
          if !second && (symb == I32 || symb in symbols) {
            return Some(MultipleDefinition(symb));
          }
          symbols := symbols[symb := |res|];
        case Local(symb) =>
          symbols := symbols[LocalKey(file, symb) := |res|];
        case Bytes(bs) =>
          res := res + bs;
        case Reloc(symb, addend) =>
          var r := Evaluate(second, symbols, file, symb, addend, |res|);
          if r.Err? {
            return Some(r.error);
          }
          res := res + r.value;
      }
    }

    /** The items of one file's part of a section. */
    method AddPart(second: bool, name: string, part: Part, ghost start: map<string, int>, ghost done: seq<Entry>)
      returns (error: Option<Error>)
      requires Reached(second, start, done, None, Now())
      modifies this
      ensures Reached(second, start, done + FlatPart(name, part, |part.items|), error, Now())
    {
      error := AddItem(second, part.file, Local(Underscored(name)), start, done);
      for k := 0 to |part.items|
        invariant error == None && Reached(second, start, done + FlatPart(name, part, k), None, Now())
      {
        ghost var front, e := FlatPart(name, part, k), Entry(part.file, part.items[k]);
        Regroup(done, front, [e]);
        error := AddItem(second, part.file, part.items[k], start, done + front);
        if error.Some? {
          ghost var rest := FlatPartRest(name, part, k + 1);
          ReachedError(second, start, done + FlatPart(name, part, k + 1), rest, error, Now());
          Regroup(done, FlatPart(name, part, k + 1), rest);
          return;
        }
      }
    }

    method AddSection(second: bool, sec: Section, ghost start: map<string, int>, ghost done: seq<Entry>)
      returns (error: Option<Error>)
      requires Reached(second, start, done, None, Now())
      modifies this
      ensures Reached(second, start, done + FlatSection(sec, |sec.parts|), error, Now())
    {
      error := None;
      assert done + FlatSection(sec, 0) == done;
      for k := 0 to |sec.parts|
        invariant error == None && Reached(second, start, done + FlatSection(sec, k), None, Now())
      {
        ghost var front, part := FlatSection(sec, k), FlatPart(sec.name, sec.parts[k], |sec.parts[k].items|);
        Regroup(done, front, part);
        error := AddPart(second, sec.name, sec.parts[k], start, done + front);
        if error.Some? {
          ghost var rest := FlatSectionRest(sec, k + 1);
          ReachedError(second, start, done + FlatSection(sec, k + 1), rest, error, Now());
          Regroup(done, FlatSection(sec, k + 1), rest);
          return;
        }
      }
    }

    /** One round of the outermost loop. */
    method RunPass(second: bool, sections: seq<Section>) returns (error: Option<Error>)
      modifies this
      ensures Reached(second, old(symbols), Flat(sections, |sections|), error, Now())
    {
      ghost var start := symbols;
      error, res := None, [];
      for k := 0 to |sections|
        invariant error == None && Reached(second, start, Flat(sections, k), None, Now())
      {
        error := AddSection(second, sections[k], start, Flat(sections, k));
        if error.Some? {
          ghost var rest := FlatRest(sections, k + 1);
          ReachedError(second, start, Flat(sections, k + 1), rest, error, Now());
          return;
        }
      }
    }
  }

  /** FLE_ld, from the grouped sections to the image and the symbol table. */
  method Ld(sections: seq<Section>) returns (r: Result<State>)
    ensures r == Link(Flat(sections, |sections|))
  {
    var linker := new Linker();
    var error := linker.RunPass(false, sections);
    if error.Some? {
      return Err(error.value);
    }
    error := linker.RunPass(true, sections);
    if error.Some? {
      return Err(error.value);
    }
    return Ok(State(linker.symbols, linker.res));
  }
}
