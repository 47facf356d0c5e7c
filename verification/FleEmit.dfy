/**
 From a section of an object file to the items of an FLE file (the end of elf_to_fle,
 course5/fle/fle.py).
 */
module FleEmit {
  import opened BitStream
  import opened Sequences
  import opened Fle
  import opened Wrappers

  /** A symbol of the section, and a 4-byte relocation of it. */
  datatype Symbol = Symbol(local: bool, offset: int, name: string)

  /** R_X86_64_PC32, R_X86_64_PLT32 and R_X86_64_32. */
  datatype Kind = Pc32 | Plt32 | Abs32

  datatype Relocation = Relocation(kind: Kind, symb: string, addend: int)

  datatype Object = Object(data: seq<Byte>, symbols: seq<Symbol>, relocations: map<int, Relocation>)

  function Label(sym: Symbol): (item: Item) { if sym.local then Local(sym.name) else Globl(sym.name) }

  function FieldItem(r: Relocation): (item: Item) { Reloc(r.symb, r.addend) }

  // ----- the loop -----

  /** The items so far, the bytes not yet put into an item, and how many bytes of the current field
      are still to be left out. */
  datatype Emission = Emission(items: seq<Item>, holding: seq<Byte>, skip: nat)

  function Dump(s: Emission): (s': Emission)
  {
    if s.holding == [] then s else Emission(s.items + [Bytes(s.holding)], [], s.skip)
  }

  function Append(s: Emission, item: Item): (s': Emission) { var d := Dump(s); d.(items := d.items + [item]) }

  /** The labels at i among the first j symbols. */
  function Labels(o: Object, s: Emission, i: nat, j: nat): (s': Emission)
    requires j <= |o.symbols|
  {
    if j == 0 then s else
    var before := Labels(o, s, i, j - 1);
    if o.symbols[j - 1].offset == i then Append(before, Label(o.symbols[j - 1])) else before
  }

  function Take(s: Emission, b: Byte): (s': Emission)
  {
    if s.skip > 0 then s.(skip := s.skip - 1) else
    var s1 := s.(holding := s.holding + [b]);
    if |s1.holding| == 16 then Dump(s1) else s1
  }

  function Round(o: Object, s: Emission, i: nat): (s': Emission)
    requires i < |o.data|
  {
    var s1 := Labels(o, s, i, |o.symbols|);
    var s2 := if i in o.relocations then Append(s1, FieldItem(o.relocations[i])).(skip := 4) else s1;
    Take(s2, o.data[i])
  }

  function Rounds(o: Object, i: nat): (s: Emission)
    requires i <= |o.data|
  {
    if i == 0 then Emission([], [], 0) else Round(o, Rounds(o, i - 1), i - 1)
  }

  function Emitted(o: Object): (items: seq<Item>) { Dump(Rounds(o, |o.data|)).items }

  method Emit(o: Object) returns (res: seq<Item>)
    ensures res == Emitted(o)
  {
    var s := Emission([], [], 0);
    for i := 0 to |o.data|
      invariant s == Rounds(o, i)
    {
      ghost var before := s;
      for j := 0 to |o.symbols|
        invariant s == Labels(o, before, i, j)
      {
        var sym := o.symbols[j];
        if sym.offset == i {
          s := Dump(s);
          s := s.(items := s.items + [if sym.local then Local(sym.name) else Globl(sym.name)]);
        }
      }
      if i in o.relocations {
        var r := o.relocations[i];
        s := Dump(s.(skip := 4));
        s := s.(items := s.items + [Reloc(r.symb, r.addend)]);
      }
      if s.skip > 0 {
        s := s.(skip := s.skip - 1);
      } else {
        s := s.(holding := s.holding + [o.data[i]]);
        if |s.holding| == 16 {
          s := Dump(s);
        }
      }
    }
    s := Dump(s);
    res := s.items;
  }

  // ----- what the items mean -----

  /** The bytes that the items take. */
  function Total(items: seq<Item>): (n: nat)
  {
    if items == [] then 0 else Total(items[..|items| - 1]) + Size(items[|items| - 1])
  }

  /** Fields do not overlap or run over the end, and no symbol lies inside one. */
  ghost predicate WellFormed(o: Object)
  {
    && (forall r :: r in o.relocations ==> 0 <= r && r + 4 <= |o.data|)
    && (forall r, q :: r in o.relocations && q in o.relocations && r < q ==> r + 4 <= q)
    && (forall r, j :: r in o.relocations && 0 <= j < |o.symbols| ==> !(r < o.symbols[j].offset < r + 4))
  }

  /** An item at place p stands for what the object has there. */
  ghost predicate Stands(o: Object, item: Item, p: nat)
  {
    match item
    case Bytes(bs) => p + |bs| <= |o.data| && o.data[p..p + |bs|] == bs
    case Reloc(symb, addend) => p in o.relocations && item == FieldItem(o.relocations[p])
    case Globl(name) => Symbol(false, p, name) in o.symbols
    case Local(name) => Symbol(true, p, name) in o.symbols
  }

  ghost predicate Sound(o: Object, items: seq<Item>)
  {
    forall k {:trigger Stands(o, items[k], Total(items[..k]))} ::
      0 <= k < |items| ==> Stands(o, items[k], Total(items[..k]))
  }

  /** The item lies at place p. */
  ghost predicate Lies(items: seq<Item>, item: Item, p: int)
  {
    exists k {:trigger Total(items[..k])} :: 0 <= k < |items| && items[k] == item && Total(items[..k]) == p
  }

  lemma {:induction false} TotalMore(items: seq<Item>, item: Item)
    ensures Total(items + [item]) == Total(items) + Size(item)
  {
    assert (items + [item])[..|items|] == items;
  }

  lemma {:induction false} SoundMore(o: Object, items: seq<Item>, item: Item)
    requires Sound(o, items) && Stands(o, item, Total(items))
    ensures Sound(o, items + [item])
  {
    var more := items + [item];
    forall k | 0 <= k < |more| ensures Stands(o, more[k], Total(more[..k])) {
      if k < |items| { CutFirst(items, [item], k); } else { assert more[..k] == items; }
    }
  }

  lemma {:induction false} LiesMore(items: seq<Item>, more: seq<Item>, item: Item, p: int)
    requires Lies(items, item, p)
    ensures Lies(items + more, item, p)
  {
    var k :| 0 <= k < |items| && items[k] == item && Total(items[..k]) == p;
    CutFirst(items, more, k);
  }

  lemma {:induction false} LiesLast(items: seq<Item>, item: Item)
    ensures Lies(items + [item], item, Total(items))
  {
    var more := items + [item];
    assert more[..|items|] == items && more[|items|] == item;
  }

  // ----- what every round keeps -----

  /** Before place i: the bytes of the items and those held make up i bytes of the section; inside a
      field the items are ahead. */
  ghost predicate Upto(o: Object, s: Emission, i: nat)
  {
    && Sound(o, s.items) && i <= |o.data|
    && if s.skip == 0 then
         Total(s.items) + |s.holding| == i && s.holding == o.data[Total(s.items)..i]
       else
         s.holding == [] && s.skip <= 3 && Total(s.items) == i + s.skip && i + s.skip - 4 in o.relocations
  }

  /** All labels and fields before place i are among the items. */
  ghost predicate Complete(o: Object, items: seq<Item>, i: nat)
  {
    && (forall j :: 0 <= j < |o.symbols| && 0 <= o.symbols[j].offset < i ==>
          Lies(items, Label(o.symbols[j]), o.symbols[j].offset))
    && (forall r :: r in o.relocations && r < i ==> Lies(items, FieldItem(o.relocations[r]), r))
  }

  ghost predicate Kept(o: Object, s: Emission, i: nat) { Upto(o, s, i) && Complete(o, s.items, i) }

  lemma {:induction false} CompleteMore(o: Object, items: seq<Item>, more: seq<Item>, i: nat)
    requires Complete(o, items, i)
    ensures Complete(o, items + more, i)
  {
    forall j | 0 <= j < |o.symbols| && 0 <= o.symbols[j].offset < i
      ensures Lies(items + more, Label(o.symbols[j]), o.symbols[j].offset)
    {
      LiesMore(items, more, Label(o.symbols[j]), o.symbols[j].offset);
    }
    forall r | r in o.relocations && r < i ensures Lies(items + more, FieldItem(o.relocations[r]), r) {
      LiesMore(items, more, FieldItem(o.relocations[r]), r);
    }
  }

  lemma {:induction false} DumpKeeps(o: Object, s: Emission, i: nat)
    requires Upto(o, s, i) && s.skip == 0
    ensures var d := Dump(s);
            Upto(o, d, i) && d.skip == 0 && d.holding == [] && Total(d.items) == i && s.items <= d.items
  {
    if s.holding != [] {
      TotalMore(s.items, Bytes(s.holding));
      SoundMore(o, s.items, Bytes(s.holding));
    }
  }

  /** A label or a field goes to its place. */
  lemma {:induction false} AppendKeeps(o: Object, s: Emission, i: nat, item: Item)
    requires Upto(o, s, i) && s.skip == 0 && Stands(o, item, i)
    ensures var a := Append(s, item);
            && Sound(o, a.items) && Total(a.items) == i + Size(item) && a.holding == [] && a.skip == 0
            && s.items <= a.items && Lies(a.items, item, i)
  {
    DumpKeeps(o, s, i);
    var d := Dump(s);
    TotalMore(d.items, item);
    SoundMore(o, d.items, item);
    LiesLast(d.items, item);
  }

  /** The labels of the first j symbols that lie at i are there. */
  ghost predicate Labelled(o: Object, items: seq<Item>, i: nat, j: nat)
    requires j <= |o.symbols|
  {
    forall m :: 0 <= m < j && o.symbols[m].offset == i ==> Lies(items, Label(o.symbols[m]), i)
  }

  lemma {:induction false} LabelledMore(o: Object, items: seq<Item>, more: seq<Item>, i: nat, j: nat)
    requires j <= |o.symbols| && items <= more && Labelled(o, items, i, j)
    ensures Labelled(o, more, i, j)
  {
    assert more == items + more[|items|..];
    forall m | 0 <= m < j && o.symbols[m].offset == i ensures Lies(more, Label(o.symbols[m]), i) {
      LiesMore(items, more[|items|..], Label(o.symbols[m]), i);
    }
  }

  /** Where a symbol or a field begins, no field is under way. */
  lemma {:induction false} NotInside(o: Object, s: Emission, i: nat)
    requires WellFormed(o) && Upto(o, s, i)
    requires i in o.relocations || exists m :: 0 <= m < |o.symbols| && o.symbols[m].offset == i
    ensures s.skip == 0
  {
  }

  lemma {:induction false} LabelNext(o: Object, s: Emission, i: nat, j: nat)
    requires WellFormed(o) && Upto(o, s, i) && j < |o.symbols| && o.symbols[j].offset == i && Labelled(o, s.items, i, j)
    ensures var l := Append(s, Label(o.symbols[j]));
            Upto(o, l, i) && l.skip == s.skip && s.items <= l.items && Labelled(o, l.items, i, j + 1)
  {
    var sym := o.symbols[j];
    var l := Append(s, Label(sym));
    NotInside(o, s, i);
    assert sym in o.symbols && sym == Symbol(sym.local, i, sym.name);
    AppendKeeps(o, s, i, Label(sym));
    LabelledMore(o, s.items, l.items, i, j);
    assert l.holding == o.data[i..i];
  }

  lemma {:induction false} LabelsKeep(o: Object, s: Emission, i: nat, j: nat)
    requires WellFormed(o) && Upto(o, s, i) && j <= |o.symbols|
    ensures var l := Labels(o, s, i, j);
            Upto(o, l, i) && l.skip == s.skip && s.items <= l.items && Labelled(o, l.items, i, j)
  {
    if j > 0 {
      LabelsKeep(o, s, i, j - 1);
      if o.symbols[j - 1].offset == i {
        LabelNext(o, Labels(o, s, i, j - 1), i, j - 1);
      }
    }
  }

  /** A field goes to its place; its four bytes are left out. */
  lemma {:induction false} FieldKeeps(o: Object, s: Emission, i: nat)
    requires WellFormed(o) && Upto(o, s, i) && i in o.relocations
    ensures var f := Take(Append(s, FieldItem(o.relocations[i])).(skip := 4), o.data[i]);
            Upto(o, f, i + 1) && s.items <= f.items && Lies(f.items, FieldItem(o.relocations[i]), i)
  {
    NotInside(o, s, i);
    AppendKeeps(o, s, i, FieldItem(o.relocations[i]));
  }

  lemma SliceMore(s: seq<Byte>, a: nat, i: nat)
    requires a <= i < |s|
    ensures s[a..i] + [s[i]] == s[a..i + 1]
  {
  }

  /** A byte outside a field is held; sixteen make an item. */
  lemma {:induction false} HeldKeeps(o: Object, s: Emission, i: nat)
    requires Upto(o, s, i) && i < |o.data| && s.skip == 0
    ensures var t := Take(s, o.data[i]); Upto(o, t, i + 1) && s.items <= t.items
  {
    var s1 := s.(holding := s.holding + [o.data[i]]);
    SliceMore(o.data, Total(s.items), i);
    assert Upto(o, s1, i + 1);
    DumpKeeps(o, s1, i + 1);
  }

  /** A byte of a field is left out. */
  lemma {:induction false} SkipKeeps(o: Object, s: Emission, i: nat)
    requires Upto(o, s, i) && i < |o.data| && s.skip > 0
    ensures var t := Take(s, o.data[i]); Upto(o, t, i + 1) && s.items <= t.items
  {
    if s.skip == 1 {
      assert o.data[Total(s.items)..i + 1] == [];
    }
  }

  lemma {:induction false} TakeKeeps(o: Object, s: Emission, i: nat)
    requires WellFormed(o) && Upto(o, s, i) && i < |o.data| && i !in o.relocations
    ensures var t := Take(s, o.data[i]); Upto(o, t, i + 1) && s.items <= t.items
  {
    if s.skip == 0 { HeldKeeps(o, s, i); } else { SkipKeeps(o, s, i); }
  }

  lemma {:induction false} RoundKeeps(o: Object, s: Emission, i: nat)
    requires WellFormed(o) && Kept(o, s, i) && i < |o.data|
    ensures Kept(o, Round(o, s, i), i + 1)
  {
    var l, r := Labels(o, s, i, |o.symbols|), Round(o, s, i);
    LabelsKeep(o, s, i, |o.symbols|);
    if i in o.relocations { FieldKeeps(o, l, i); } else { TakeKeeps(o, l, i); }
    LabelledMore(o, l.items, r.items, i, |o.symbols|);
    CompleteNext(o, s.items, r.items, i);
  }

  lemma {:induction false} CompleteNext(o: Object, items: seq<Item>, more: seq<Item>, i: nat)
    requires Complete(o, items, i) && items <= more && Labelled(o, more, i, |o.symbols|)
    requires i in o.relocations ==> Lies(more, FieldItem(o.relocations[i]), i)
    ensures Complete(o, more, i + 1)
  {
    assert more == items + more[|items|..];
    CompleteMore(o, items, more[|items|..], i);
  }

  lemma {:induction false} StartKeeps(o: Object, s: Emission)
    requires WellFormed(o) && s == Emission([], [], 0)
    ensures Kept(o, s, 0)
  {
  }

  lemma {:induction false} RoundsKeep(o: Object, i: nat)
    requires WellFormed(o) && i <= |o.data|
    ensures Kept(o, Rounds(o, i), i)
  {
    if i == 0 {
      StartKeeps(o, Rounds(o, i));
    } else {
      var s := Rounds(o, i - 1);
      assert Rounds(o, i) == Round(o, s, i - 1);
      RoundsKeep(o, i - 1);
      RoundKeeps(o, s, i - 1);
    }
  }

  /** The items take as much space as the section, and each stands for what the section has at its
      place; no relocation of the section and no symbol inside it is lost. */
  lemma {:induction false} EmitsFaithfully(o: Object)
    requires WellFormed(o)
    ensures Total(Emitted(o)) == |o.data| && Sound(o, Emitted(o)) && Complete(o, Emitted(o), |o.data|)
  {
    var n := |o.data|;
    RoundsKeep(o, n);
    var s := Rounds(o, n);
    assert s.skip == 0;
    DumpKeeps(o, s, n);
    assert Emitted(o) == s.items + Emitted(o)[|s.items|..];
    CompleteMore(o, s.items, Emitted(o)[|s.items|..], n);
  }

  // ----- where labels can be -----

  predicate IsLabel(item: Item) { item.Globl? || item.Local? }

  /** Labels lie below place n. */
  ghost predicate LabelsBelow(items: seq<Item>, n: nat)
  {
    forall k {:trigger Total(items[..k])} :: 0 <= k < |items| && IsLabel(items[k]) ==> Total(items[..k]) < n
  }

  lemma {:induction false} BelowMore(items: seq<Item>, item: Item, n: nat)
    requires LabelsBelow(items, n) && (IsLabel(item) ==> Total(items) < n)
    ensures LabelsBelow(items + [item], n)
  {
    var more := items + [item];
    forall k {:trigger Total(more[..k])} | 0 <= k < |more| && IsLabel(more[k]) ensures Total(more[..k]) < n {
      if k < |items| { CutFirst(items, [item], k); } else { assert more[..k] == items; }
    }
  }

  lemma {:induction false} DumpBelow(s: Emission, n: nat)
    requires LabelsBelow(s.items, n)
    ensures LabelsBelow(Dump(s).items, n)
  {
    BelowMore(s.items, Bytes(s.holding), n);
  }

  lemma {:induction false} LabelsAreBelow(o: Object, s: Emission, i: nat, j: nat)
    requires WellFormed(o) && Upto(o, s, i) && j <= |o.symbols| && LabelsBelow(s.items, i + 1)
    ensures LabelsBelow(Labels(o, s, i, j).items, i + 1)
  {
    if j > 0 {
      LabelsAreBelow(o, s, i, j - 1);
      if o.symbols[j - 1].offset == i {
        var before := Labels(o, s, i, j - 1);
        LabelsKeep(o, s, i, j - 1);
        NotInside(o, before, i);
        DumpKeeps(o, before, i);
        DumpBelow(before, i + 1);
        BelowMore(Dump(before).items, Label(o.symbols[j - 1]), i + 1);
      }
    }
  }

  lemma {:induction false} RoundBelow(o: Object, s: Emission, i: nat)
    requires WellFormed(o) && Upto(o, s, i) && i < |o.data| && LabelsBelow(s.items, i + 1)
    ensures LabelsBelow(Round(o, s, i).items, i + 1)
  {
    var s1 := Labels(o, s, i, |o.symbols|);
    LabelsAreBelow(o, s, i, |o.symbols|);
    if i in o.relocations {
      DumpBelow(s1, i + 1);
      BelowMore(Dump(s1).items, FieldItem(o.relocations[i]), i + 1);
    } else {
      DumpBelow(s1.(holding := s1.holding + [o.data[i]]), i + 1);
    }
  }

  lemma {:induction false} RoundsBelow(o: Object, i: nat)
    requires WellFormed(o) && i <= |o.data|
    ensures LabelsBelow(Rounds(o, i).items, i)
  {
    if i > 0 {
      RoundsBelow(o, i - 1);
      RoundsKeep(o, i - 1);
      RoundBelow(o, Rounds(o, i - 1), i - 1);
    }
  }

  /** A symbol has a label at its offset exactly if it lies inside the section: not at its end, because
      labels are written only before a byte. */
  lemma {:induction false} LabelledExactly(o: Object, j: nat)
    requires WellFormed(o) && j < |o.symbols|
    ensures var sym := o.symbols[j]; Lies(Emitted(o), Label(sym), sym.offset) <==> 0 <= sym.offset < |o.data|
  {
    var items, sym, n := Emitted(o), o.symbols[j], |o.data|;
    EmitsFaithfully(o);
    RoundsBelow(o, n);
    DumpBelow(Rounds(o, n), n);
    if Lies(items, Label(sym), sym.offset) {
      var k :| 0 <= k < |items| && items[k] == Label(sym) && Total(items[..k]) == sym.offset;
      assert IsLabel(items[k]);
    }
  }

  /** A section of one byte with a symbol at its end: the symbol is not among the items at all. */
  lemma {:induction false} EndSymbolLost(b: Byte, name: string)
    ensures var o := Object([b], [Symbol(false, 1, name)], map[]);
            WellFormed(o) && Emitted(o) == [Bytes([b])]
  {
    var o := Object([b], [Symbol(false, 1, name)], map[]);
    var start := Emission([], [], 0);
    assert Rounds(o, 0) == start && Labels(o, start, 0, 1) == start;
    assert Round(o, start, 0) == Emission([], [b], 0);
    assert Rounds(o, 1) == Emission([], [b], 0);
  }

  // ----- from the object to the image -----

  /** The entries from m on are the items of this file. */
  ghost predicate PartAt(es: seq<Entry>, m: nat, file: string, items: seq<Item>)
  {
    m + |items| <= |es| && forall k :: 0 <= k < |items| ==> es[m + k] == Entry(file, items[k])
  }

  lemma {:induction false} AtShift(es: seq<Entry>, m: nat, file: string, items: seq<Item>, k: nat)
    requires PartAt(es, m, file, items) && k <= |items|
    ensures At(es, m + k) == At(es, m) + Total(items[..k])
  {
    if k > 0 {
      AtShift(es, m, file, items, k - 1);
      assert items[..k][..k - 1] == items[..k - 1] && es[m + k - 1] == Entry(file, items[k - 1]);
    }
  }

  lemma {:induction false} FieldLies(o: Object, r: int) returns (k: nat)
    requires WellFormed(o) && r in o.relocations
    ensures k < |Emitted(o)| && Emitted(o)[k] == FieldItem(o.relocations[r]) && Total(Emitted(o)[..k]) == r
  {
    var items := Emitted(o);
    EmitsFaithfully(o);
    assert Lies(items, FieldItem(o.relocations[r]), r);
    k :| 0 <= k < |items| && items[k] == FieldItem(o.relocations[r]) && Total(items[..k]) == r;
  }

  /** Every relocation of the object becomes, at its offset from where the section was placed, the
      field S + A - P. */
  lemma {:induction false} RelocatedInImage(o: Object, es: seq<Entry>, m: nat, file: string, r: int)
    requires WellFormed(o) && r in o.relocations && PartAt(es, m, file, Emitted(o))
    requires Consistent(es) && Link(es).Ok?
    ensures var image, p := Link(es).value.res, At(es, m) + r;
            var s := Address(es, file, o.relocations[r].symb);
            && 0 <= p && p + 4 <= |image| && s.Some?
            && FieldValue(image[p..p + 4]) == s.value + o.relocations[r].addend - p
  {
    var k := FieldLies(o, r);
    AtShift(es, m, file, Emitted(o), k);
    assert es[m + k] == Entry(file, FieldItem(o.relocations[r]));
    Relocated(es, m + k);
  }

  /** What the field has to hold by the x86-64 psABI, for a symbol at s, an addend and a place p; an image
      without a procedure linkage table calls the symbol itself. */
  function Specified(kind: Kind, s: int, addend: int, p: int): (x: int)
  {
    match kind
    case Pc32 => s + addend - p
    case Plt32 => s + addend - p
    case Abs32 => s + addend
  }

  /** The field of a relative relocation is always right; that of an absolute one exactly at place 0. */
  lemma {:induction false} RelocatedExactly(o: Object, es: seq<Entry>, m: nat, file: string, r: int)
    requires WellFormed(o) && r in o.relocations && PartAt(es, m, file, Emitted(o))
    requires Consistent(es) && Link(es).Ok?
    ensures var image, p, rel := Link(es).value.res, At(es, m) + r, o.relocations[r];
            var s := Address(es, file, rel.symb);
            && 0 <= p && p + 4 <= |image| && s.Some?
            && (FieldValue(image[p..p + 4]) == Specified(rel.kind, s.value, rel.addend, p) <==> rel.kind != Abs32 || p == 0)
  {
    RelocatedInImage(o, es, m, file, r);
  }

  /** A byte with the symbol x, and behind it a relocation of x. */
  function AbsoluteObject(b: Byte): (o: Object)
  {
    Object([b, 0, 0, 0, 0], [Symbol(false, 0, "x")], map[1 := Relocation(Abs32, "x", 0)])
  }

  lemma {:induction false} NoLabels(o: Object, s: Emission, i: nat, j: nat)
    requires j <= |o.symbols| && forall m :: 0 <= m < j ==> o.symbols[m].offset != i
    ensures Labels(o, s, i, j) == s
  {
    if j > 0 {
      NoLabels(o, s, i, j - 1);
    }
  }

  /** Inside a field without symbols, a round leaves out one byte. */
  lemma {:induction false} SkippedRound(o: Object, i: nat, items: seq<Item>, skip: nat)
    requires i < |o.data| && i !in o.relocations && (forall m :: 0 <= m < |o.symbols| ==> o.symbols[m].offset != i)
    requires skip > 0 && Rounds(o, i) == Emission(items, [], skip)
    ensures Rounds(o, i + 1) == Emission(items, [], skip - 1)
  {
    NoLabels(o, Rounds(o, i), i, |o.symbols|);
  }

  lemma {:induction false} AbsoluteEmitted(b: Byte)
    ensures var o := AbsoluteObject(b);
            WellFormed(o) && Emitted(o) == [Globl("x"), Bytes([b]), Reloc("x", 0)]
  {
    var o := AbsoluteObject(b);
    var items := [Globl("x"), Bytes([b]), Reloc("x", 0)];
    var start, s1 := Emission([], [], 0), Emission([Globl("x")], [b], 0);
    assert Labels(o, start, 0, 1) == Emission([Globl("x")], [], 0);
    assert Rounds(o, 1) == Round(o, start, 0) == s1;
    NoLabels(o, s1, 1, 1);
    assert Append(s1, Reloc("x", 0)) == Emission(items, [], 0);
    assert Rounds(o, 2) == Round(o, s1, 1) == Emission(items, [], 3);
    SkippedRound(o, 2, items, 3);
    SkippedRound(o, 3, items, 2);
    SkippedRound(o, 4, items, 1);
  }

  /** Linked alone, this object is an image whose field holds -1, although S + A is 0. */
  lemma {:induction false} AbsoluteExample(b: Byte, file: string) returns (es: seq<Entry>)
    ensures var o := AbsoluteObject(b);
            && WellFormed(o) && PartAt(es, 0, file, Emitted(o)) && Consistent(es) && Link(es).Ok?
            && Address(es, file, "x") == Some(0)
            && |Link(es).value.res| >= 5 && FieldValue(Link(es).value.res[1..5]) == -1
  {
    var o := AbsoluteObject(b);
    AbsoluteEmitted(b);
    es := [Entry(file, Globl("x")), Entry(file, Bytes([b])), Entry(file, Reloc("x", 0))];
    AbsoluteLinks(b, file, es);
    assert PartAt(es, 0, file, Emitted(o)) && o.relocations[1] == Relocation(Abs32, "x", 0);
    RelocatedInImage(o, es, 0, file, 1);
  }

  lemma {:induction false} AbsoluteLinks(b: Byte, file: string, es: seq<Entry>)
    requires es == [Entry(file, Globl("x")), Entry(file, Bytes([b])), Entry(file, Reloc("x", 0))]
    ensures Consistent(es) && Link(es).Ok? && At(es, 3) == 5 && Address(es, file, "x") == Some(0)
  {
    assert At(es, 1) == 0 && At(es, 2) == 1 && At(es, 3) == 5;
    assert Defined(es, 0) == map[] && Defined(es, 1) == map["x" := 0];
    assert Defined(es, 2) == map["x" := 0] && Defined(es, 3) == map["x" := 0];
    assert |LocalKey(file, "x")| > |"x"| && |LocalKey(file, I32)| > |"x"|;
    assert FirstOk(es, 0) && FirstOk(es, 1) && FirstOk(es, 2);
    assert SecondOk(es, 0) && SecondOk(es, 1) && SecondOk(es, 2);
    LinksExactly(es);
  }

  lemma {:induction false} LabelLies(o: Object, j: nat) returns (k: nat)
    requires WellFormed(o) && j < |o.symbols| && 0 <= o.symbols[j].offset < |o.data|
    ensures k < |Emitted(o)| && Emitted(o)[k] == Label(o.symbols[j]) && Total(Emitted(o)[..k]) == o.symbols[j].offset
  {
    var items, sym := Emitted(o), o.symbols[j];
    EmitsFaithfully(o);
    assert Lies(items, Label(sym), sym.offset);
    k :| 0 <= k < |items| && items[k] == Label(sym) && Total(items[..k]) == sym.offset;
  }

  /** Every symbol of the object inside its section has as its address its offset from where the
      section was placed. */
  lemma {:induction false} SymbolInImage(o: Object, es: seq<Entry>, m: nat, file: string, j: nat)
    requires WellFormed(o) && PartAt(es, m, file, Emitted(o)) && Consistent(es)
    requires j < |o.symbols| && 0 <= o.symbols[j].offset < |o.data|
    ensures var sym := o.symbols[j];
            var key := if sym.local then LocalKey(file, sym.name) else sym.name;
            key in Defined(es, |es|) && Defined(es, |es|)[key] == At(es, m) + sym.offset
  {
    var k := LabelLies(o, j);
    AtShift(es, m, file, Emitted(o), k);
    assert es[m + k] == Entry(file, Label(o.symbols[j]));
    DefinedHere(es, |es|, m + k);
  }
}
