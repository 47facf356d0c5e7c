/**
 The tables of all Huffman codes of a bzip2 block: read one after the other, and built in place
 (the loop over the groups in read_block_header, lib/bunzip.c).
 */
module BlockTables {
  import opened Permutation
  import opened StableSort
  import opened BitStream
  import opened Sequences
  import opened Huffman
  import opened CodeLengths
  import opened BunzipData
  import BW = BurrowsWheeler

  // ----- the code that a vector of lengths stands for -----

  lemma {:induction false} StableSortExists(keys: seq<int>)
    requires Bytes(keys)
    ensures exists order :: IsStableSort(keys, order)
  {
    BW.LinkedAll(keys);
    assert IsStableSort(keys, BW.LinksOf(BW.Linked(keys, |keys|)));
  }

  lemma {:induction false} RangeExists(ls: seq<int>)
    requires Lengths(ls)
    ensures exists m: nat :: Shortest(ls, m)
    ensures exists m: nat :: Longest(ls, m)
    decreases |ls|
  {
    if |ls| == 1 {
      assert Shortest(ls, ls[0]) && Longest(ls, ls[0]);
    } else {
      var n := |ls| - 1;
      RangeExists(ls[..n]);
      var low: nat :| Shortest(ls[..n], low);
      var high: nat :| Longest(ls[..n], high);
      assert Shortest(ls, if ls[n] < low then ls[n] else low);
      assert Longest(ls, if ls[n] > high then ls[n] else high);
    }
  }

  ghost function CodingOf(ls: seq<int>): (c: Coding)
    requires Lengths(ls)
    ensures ValidCoding(c) && c.ls == ls
  {
    StableSortExists(ls);
    RangeExists(ls);
    var order :| IsStableSort(ls, order);
    var low: nat :| Shortest(ls, low);
    var high: nat :| Longest(ls, high);
    Coding(ls, order, low, high)
  }

  /** Tables that describe a vector of lengths hold its code: there is only one. */
  lemma {:induction false} CodingUnique(c: Coding, d: Coding)
    requires ValidCoding(c) && ValidCoding(d) && c.ls == d.ls
    ensures c == d
  {
    StableSortUnique(c.ls, c.order, d.order);
  }

  /** Vectors of lengths for an alphabet of symCount symbols. */
  ghost predicate AllLengthsValid(lss: seq<seq<int>>, symCount: nat)
  {
    forall i :: 0 <= i < |lss| ==> Lengths(lss[i]) && |lss[i]| == symCount
  }

  ghost function CodesOf(lss: seq<seq<int>>, selectors: seq<nat>): (cs: Codes)
    requires forall i :: 0 <= i < |lss| ==> Lengths(lss[i])
    requires forall i :: 0 <= i < |selectors| ==> selectors[i] < |lss|
    ensures ValidCodes(cs) && cs.selectors == selectors && |cs.codings| == |lss|
    ensures forall i :: 0 <= i < |lss| ==> cs.codings[i] == CodingOf(lss[i])
  {
    Codes(seq(|lss|, i requires 0 <= i < |lss| => CodingOf(lss[i])), selectors)
  }

  // ----- reading the tables -----

  datatype ReadAll = Tabled(lss: seq<seq<int>>, rest: seq<Bit>) | Untabled(status: Status)

  function ReadTables(n: nat, symCount: nat, bits: seq<Bit>): (r: ReadAll)
    ensures r.Untabled? ==> r.status != Good
    ensures r.Tabled? ==> |r.lss| == n
  {
    if n == 0 then Tabled([], bits) else
    match ReadTable(symCount, bits)
    case AllWrong(s) => Untabled(s)
    case AllLengths(ls, rest) =>
      match ReadTables(n - 1, symCount, rest)
      case Untabled(s) => Untabled(s)
      case Tabled(lss, t) => Tabled([ls] + lss, t)
  }

  function EncodeTables(lss: seq<seq<int>>): (bits: seq<Bit>)
    requires forall i :: 0 <= i < |lss| ==> lss[i] != [] && lss[i][0] >= 0
  {
    if lss == [] then [] else EncodeTable(lss[0]) + EncodeTables(lss[1..])
  }

  /** All tables are read back, and what follows them is left in place. */
  lemma {:induction false} ReadEncodedTables(lss: seq<seq<int>>, symCount: nat, tail: seq<Bit>)
    requires AllLengthsValid(lss, symCount) && tail != []
    ensures ReadTables(|lss|, symCount, EncodeTables(lss) + tail) == Tabled(lss, tail)
    decreases |lss|
  {
    if lss == [] {
      assert EncodeTables(lss) + tail == tail;
    } else {
      Sequences.Regroup(EncodeTable(lss[0]), EncodeTables(lss[1..]), tail);
      ReadEncodedTable(lss[0], EncodeTables(lss[1..]) + tail);
      ReadEncodedTables(lss[1..], symCount, tail);
      assert lss == [lss[0]] + lss[1..];
    }
  }

  lemma {:induction false} TableLengths(symCount: nat, bits: seq<Bit>)
    requires 1 <= symCount <= MAX_SYMBOLS
    ensures var r := ReadTable(symCount, bits); r.AllLengths? ==> Lengths(r.ls) && |r.ls| == symCount
  {
  }

  lemma {:induction false} TablesLengths(n: nat, symCount: nat, bits: seq<Bit>)
    requires 1 <= symCount <= MAX_SYMBOLS
    ensures var r := ReadTables(n, symCount, bits); r.Tabled? ==> AllLengthsValid(r.lss, symCount)
  {
    if n > 0 {
      TableLengths(symCount, bits);
      var t := ReadTable(symCount, bits);
      if t.AllLengths? {
        TablesLengths(n - 1, symCount, t.rest);
      }
    }
  }

  /** After the tables lss, n more decide what is read in all. */
  ghost predicate Reading(result: ReadAll, lss: seq<seq<int>>, n: nat, symCount: nat, bits: seq<Bit>)
  {
    result == match ReadTables(n, symCount, bits)
              case Untabled(s) => Untabled(s)
              case Tabled(more, rest) => Tabled(lss + more, rest)
  }

  ghost predicate TablesOutcome(result: ReadAll, status: Status, lss: seq<seq<int>>, rest: seq<Bit>)
  {
    if status == Good then result == Tabled(lss, rest) else result == Untabled(status)
  }

  lemma {:induction false} ReadingStart(n: nat, symCount: nat, bits: seq<Bit>)
    ensures Reading(ReadTables(n, symCount, bits), [], n, symCount, bits)
  {
    var r := ReadTables(n, symCount, bits);
    assert r.Tabled? ==> [] + r.lss == r.lss;
  }

  lemma {:induction false} ReadingNext(result: ReadAll, lss: seq<seq<int>>, n: nat, symCount: nat, bits: seq<Bit>)
    requires Reading(result, lss, n, symCount, bits) && n > 0
    ensures match ReadTable(symCount, bits)
            case AllWrong(s) => result == Untabled(s)
            case AllLengths(ls, rest) => Reading(result, lss + [ls], n - 1, symCount, rest)
  {
    var t := ReadTable(symCount, bits);
    if t.AllLengths? {
      var r := ReadTables(n - 1, symCount, t.rest);
      if r.Tabled? {
        Sequences.Regroup(lss, [t.ls], r.lss);
      }
    }
  }

  lemma {:induction false} ReadingDone(result: ReadAll, lss: seq<seq<int>>, symCount: nat, bits: seq<Bit>)
    requires Reading(result, lss, 0, symCount, bits)
    ensures result == Tabled(lss, bits)
  {
    assert lss + [] == lss;
  }

  // ----- building them in place -----

  /** No two groups share a table. */
  ghost predicate Separate(groups: seq<Group>)
  {
    && (forall i :: 0 <= i < |groups| ==> groups[i].Allocated())
    && forall i, j :: 0 <= i < j < |groups| ==>
         && groups[i] != groups[j] && groups[i].permute != groups[j].permute
         && groups[i].limit != groups[j].limit && groups[i].base != groups[j].base
         && groups[i].limit != groups[j].base && groups[i].base != groups[j].limit
  }

  /** The first groups hold the tables of the lengths lss. */
  ghost predicate Built(groups: seq<Group>, lss: seq<seq<int>>)
    reads groups, set g | g in groups :: g.limit, set g | g in groups :: g.base, set g | g in groups :: g.permute
  {
    |lss| <= |groups| && forall i :: 0 <= i < |lss| ==> groups[i].Describes(lss[i])
  }

  /** What the tables describe is the code of the lengths. */
  lemma {:induction false} BuiltTables(groups: seq<Group>, lss: seq<seq<int>>, selectors: seq<nat>)
    requires |lss| == |groups| && Built(groups, lss) && forall i :: 0 <= i < |lss| ==> Lengths(lss[i])
    requires forall i :: 0 <= i < |selectors| ==> selectors[i] < |lss|
    ensures Tables(groups, CodesOf(lss, selectors))
  {
    var cs := CodesOf(lss, selectors);
    forall i | 0 <= i < |groups|
      ensures cs.codings[i] == Coding(lss[i], groups[i].permute[..|lss[i]|], groups[i].minLen, groups[i].maxLen)
    {
      assert groups[i].Describes(lss[i]);
      CodingUnique(cs.codings[i], Coding(lss[i], groups[i].permute[..|lss[i]|], groups[i].minLen, groups[i].maxLen));
    }
  }

  method BuildNext(groups: seq<Group>, jj: nat, length: seq<int>, ghost lss: seq<seq<int>>)
    requires Separate(groups) && |lss| == jj < |groups| && Built(groups, lss) && Lengths(length)
    modifies groups[jj], groups[jj].limit, groups[jj].base, groups[jj].permute
    ensures Built(groups, lss + [length])
  {
    groups[jj].Build(length);
    forall i | 0 <= i < jj ensures groups[i].Describes(lss[i]) {
      assert old(groups[i].Describes(lss[i]));
      assert groups[i] != groups[jj] && groups[i].permute != groups[jj].permute;
    }
  }

  /** One round of the loop: the next table is read and built. */
  method NextGroup(bd: BitReader, groups: seq<Group>, jj: nat, symCount: nat, ghost lss: seq<seq<int>>, ghost result: ReadAll)
    returns (status: Status, ghost lss': seq<seq<int>>)
    requires bd.Valid() && Separate(groups) && |lss| == jj < |groups| && Built(groups, lss) && 1 <= symCount <= MAX_SYMBOLS
    requires Reading(result, lss, |groups| - jj, symCount, bd.Remaining())
    modifies bd, groups[jj], groups[jj].limit, groups[jj].base, groups[jj].permute
    ensures bd.Valid()
    ensures if status != Good then result == Untabled(status)
            else
              && |lss'| == jj + 1 && Built(groups, lss')
              && Reading(result, lss', |groups| - jj - 1, symCount, bd.Remaining())
  {
    TableLengths(symCount, bd.Remaining());
    ReadingNext(result, lss, |groups| - jj, symCount, bd.Remaining());
    var length;
    status, length := ReadCodeLengths(bd, symCount);
    lss' := lss;
    if status == Good {
      ghost var rest := bd.Remaining();
      lss' := lss + [length];
      assert Reading(result, lss', |groups| - jj - 1, symCount, rest);
      BuildNext(groups, jj, length, lss);
      assert bd.Remaining() == rest;
    }
  }

  /** The groups and their tables. */
  ghost function Footprint(groups: seq<Group>): (objects: set<object>)
    ensures forall g :: g in groups ==> g in objects && g.limit in objects && g.base in objects && g.permute in objects
  {
    (set g | g in groups :: g as object) + (set g | g in groups :: g.limit as object)
    + (set g | g in groups :: g.base as object) + (set g | g in groups :: g.permute as object)
  }

  /** The loop over the groups. */
  method ReadEachGroup(bd: BitReader, groups: seq<Group>, symCount: nat, ghost result: ReadAll,
                       ghost objects: set<object>)
    returns (status: Status, ghost lss: seq<seq<int>>)
    requires bd.Valid() && Separate(groups) && 1 <= symCount <= MAX_SYMBOLS
    requires Reading(result, [], |groups|, symCount, bd.Remaining())
    requires forall g :: g in groups ==> g in objects && g.limit in objects && g.base in objects && g.permute in objects
    modifies bd, objects
    ensures bd.Valid() && TablesOutcome(result, status, lss, bd.Remaining())
    ensures status == Good ==> |lss| == |groups| && Built(groups, lss)
  {
    lss := [];
    for jj := 0 to |groups|
      invariant bd.Valid() && |lss| == jj && Built(groups, lss)
      invariant Reading(result, lss, |groups| - jj, symCount, bd.Remaining())
    {
      assert groups[jj] in groups;
      status, lss := NextGroup(bd, groups, jj, symCount, lss, result);
      if status != Good {
        return;
      }
    }
    status := Good;
    ReadingDone(result, lss, symCount, bd.Remaining());
  }

  method ReadGroups(bd: BitReader, groups: seq<Group>, symCount: nat) returns (status: Status, ghost lss: seq<seq<int>>)
    requires bd.Valid() && Separate(groups) && 1 <= symCount <= MAX_SYMBOLS
    modifies bd, Footprint(groups)
    ensures bd.Valid()
    ensures TablesOutcome(ReadTables(|groups|, symCount, old(bd.Remaining())), status, lss, bd.Remaining())
    ensures status == Good ==> |lss| == |groups| && AllLengthsValid(lss, symCount) && Built(groups, lss)
  {
    TablesLengths(|groups|, symCount, bd.Remaining());
    ReadingStart(|groups|, symCount, bd.Remaining());
    status, lss := ReadEachGroup(bd, groups, symCount, ReadTables(|groups|, symCount, bd.Remaining()), Footprint(groups));
  }
}
