/**
 The .load lines of an executable: as FLE_ld prints them and as FLE_exec reads them
 (course5/fle/fle.py).
 */
module FleText {
  import opened BitStream
  import opened Sequences
  import opened Wrappers

  // ----- numbers in hexadecimal -----

  function Digit(d: nat): (c: char)
    requires d < 16
  {
    if d < 10 then '0' + d as char else 'a' + (d - 10) as char
  }

  /** '{b:02x}' */
  function Hex(b: Byte): (s: string) { [Digit(b / 16), Digit(b % 16)] }

  function DigitValue(c: char): (r: Option<nat>)
  {
    if '0' <= c <= '9' then Some((c - '0') as nat)
    else if 'a' <= c <= 'f' then Some(10 + (c - 'a') as nat)
    else if 'A' <= c <= 'F' then Some(10 + (c - 'A') as nat)
    else None
  }

  /** int(s, 16), for a string of digits; None where there is none. */
  function Number(s: string): (r: Option<nat>)
  {
    if s == [] then None
    else
      var last := DigitValue(s[|s| - 1]);
      if |s| == 1 then last else
      var front := Number(s[..|s| - 1]);
      if front.None? || last.None? then None else Some(16 * front.value + last.value)
  }

  lemma {:induction false} HexReads(b: Byte)
    ensures Number(Hex(b)) == Some(b)
    ensures forall i :: 0 <= i < 2 ==> !Space(Hex(b)[i])
  {
    var s := Hex(b);
    assert s[..1] == [Digit(b / 16)] && [Digit(b / 16)][|[Digit(b / 16)]| - 1] == Digit(b / 16);
    DigitReads(b / 16);
    DigitReads(b % 16);
  }

  lemma DigitReads(d: nat)
    requires d < 16
    ensures DigitValue(Digit(d)) == Some(d) && !Space(Digit(d))
  {
  }

  const LOWER: string := "0123456789abcdef"
  const UPPER: string := "0123456789ABCDEF"

  /** The digits are these, in either case, and nothing else is one. */
  lemma {:induction false} DigitValueExact(c: char, d: nat)
    ensures DigitValue(c) == Some(d) <==> d < 16 && (c == LOWER[d] || c == UPPER[d])
  {
    if d < 16 {
      assert LOWER[d] == Digit(d);
    }
  }

  // ----- words -----

  predicate Space(c: char) { c == ' ' || c == '\t' || c == '\n' || c == '\r' }

  /** str.split(), with the beginning of a word already read. */
  function Split(s: string, word: string): (words: seq<string>)
  {
    var first := if word == [] then [] else [word];
    if s == [] then first
    else if Space(s[0]) then first + Split(s[1..], [])
    else Split(s[1..], word + [s[0]])
  }

  lemma {:induction false} SplitWord(w: string, rest: string, word: string)
    requires forall i :: 0 <= i < |w| ==> !Space(w[i])
    ensures Split(w + rest, word) == Split(rest, word + w)
    decreases |w|
  {
    if w == [] {
      assert w + rest == rest && word + w == word;
    } else {
      CutFirst(w, rest, 1);
      SplitWord(w[1..], rest, word + [w[0]]);
      assert (word + [w[0]]) + w[1..] == word + w;
    }
  }

  /** ' '.join of the bytes in hexadecimal */
  function Join(bs: seq<Byte>): (s: string)
  {
    if bs == [] then "" else if |bs| == 1 then Hex(bs[0]) else Hex(bs[0]) + (" " + Join(bs[1..]))
  }

  function Words(bs: seq<Byte>): (ws: seq<string>) { seq(|bs|, i requires 0 <= i < |bs| => Hex(bs[i])) }

  lemma {:induction false} SplitJoin(bs: seq<Byte>)
    ensures Split(Join(bs), []) == Words(bs)
    decreases |bs|
  {
    if bs != [] {
      var h := Hex(bs[0]);
      HexReads(bs[0]);
      assert [] + h == h;
      if |bs| == 1 {
        SplitWord(h, [], []);
        assert h + [] == h;
      } else {
        var rest := " " + Join(bs[1..]);
        SplitWord(h, rest, []);
        assert rest[1..] == Join(bs[1..]);
        SplitJoin(bs[1..]);
        assert Words(bs) == [h] + Words(bs[1..]);
      }
    }
  }

  // ----- lines -----

  const MARK: string := ['\U{1F522}', ':']

  function Line(part: seq<Byte>): (s: string) { MARK + " " + Join(part) }

  /** The lines of an image, 16 bytes on each. */
  function Print(image: seq<Byte>): (lines: seq<string>)
  {
    if image == [] then []
    else if |image| <= 16 then [Line(image)]
    else [Line(image[..16])] + Print(image[16..])
  }

  function Numbers(words: seq<string>): (r: Option<seq<Byte>>)
  {
    if words == [] then Some([]) else
    var front, last := Numbers(words[..|words| - 1]), Number(words[|words| - 1]);
    if front.None? || last.None? || last.value >= 256 then None else Some(front.value + [last.value])
  }

  lemma {:induction false} NumbersRead(bs: seq<Byte>)
    ensures Numbers(Words(bs)) == Some(bs)
  {
    if bs != [] {
      var n := |bs| - 1;
      assert Words(bs)[..n] == Words(bs[..n]);
      NumbersRead(bs[..n]);
      HexReads(bs[n]);
      assert bs[..n] + [bs[n]] == bs;
    }
  }

  /** What a line adds to the bytes; a line of another kind adds nothing. */
  function LineBytes(line: string): (r: Option<seq<Byte>>)
  {
    if MARK <= line then Numbers(Split(line[|MARK|..], [])) else Some([])
  }

  lemma {:induction false} LineReads(part: seq<Byte>)
    ensures LineBytes(Line(part)) == Some(part)
  {
    var rest := " " + Join(part);
    assert Line(part) == MARK + rest && Line(part)[|MARK|..] == rest;
    assert Split(rest, []) == Split(Join(part), []) by {
      assert rest[0] == ' ' && rest[1..] == Join(part);
      assert Split(rest, []) == [] + Split(rest[1..], []);
    }
    SplitJoin(part);
    NumbersRead(part);
  }

  function Loaded(lines: seq<string>): (r: Option<seq<Byte>>)
  {
    if lines == [] then Some([]) else
    var first, rest := LineBytes(lines[0]), Loaded(lines[1..]);
    if first.None? || rest.None? then None else Some(first.value + rest.value)
  }

  /** Loading what was printed gives the image back. */
  lemma {:induction false} LoadPrint(image: seq<Byte>)
    ensures Loaded(Print(image)) == Some(image)
    decreases |image|
  {
    if image != [] && |image| <= 16 {
      LineReads(image);
      assert [Line(image)][1..] == [];
      assert Loaded([]) == Some([]) && image + [] == image;
    } else if image != [] {
      var rest := Print(image[16..]);
      LineReads(image[..16]);
      LoadPrint(image[16..]);
      assert ([Line(image[..16])] + rest)[1..] == rest;
      Sequences.Split(image, 16);
    }
  }

  /** The loop of FLE_exec that collects the bytes. */
  method Load(lines: seq<string>) returns (r: Option<seq<Byte>>)
    ensures r == Loaded(lines)
  {
    var bs: seq<Byte> := [];
    assert lines[0..] == lines;
    assert Loaded(lines).Some? ==> [] + Loaded(lines).value == Loaded(lines).value;
    for k := 0 to |lines|
      invariant Loaded(lines) ==
                var rest := Loaded(lines[k..]); if rest.None? then None else Some(bs + rest.value)
    {
      var line := LineBytes(lines[k]);
      assert lines[k..][1..] == lines[k + 1..];
      if line.None? {
        return None;
      }
      ghost var rest := Loaded(lines[k + 1..]);
      if rest.Some? { Regroup(bs, line.value, rest.value); }
      bs := bs + line.value;
    }
    assert bs + [] == bs;
    return Some(bs);
  }
}
