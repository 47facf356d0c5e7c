/**
 The outer run-length layer of bzip2: four equal bytes are followed by a byte that says how
 often the byte occurs once more (the output loop of write_bunzip_data, lib/bunzip.c).
 */
module RunLength {
  import opened Sequences
  import opened StableSort

  function Repeat(b: int, n: nat): (s: seq<int>)
    ensures |s| == n && forall i :: 0 <= i < n ==> s[i] == b
  {
    seq(n, _ => b)
  }

  // ----- what the output loop does with one byte -----

  /** The byte before the next one, or -1 right after a count, and how many bytes before it
      were the same. */
  datatype State = State(current: int, run: int)

  function Emit(st: State, b: nat): (out: seq<int>)
  {
    if st.run == 3 then Repeat(st.current, b) else [b]
  }

  function Next(st: State, b: nat): (r: State)
  {
    var current := if st.run == 3 then -1 else b;
    State(current, if current != st.current then 0 else st.run + 1)
  }

  ghost predicate Nats(s: seq<int>) { forall i :: 0 <= i < |s| ==> s[i] >= 0 }

  function Decode(st: State, s: seq<int>): (out: seq<int>)
    requires Nats(s)
    decreases |s|
  {
    if s == [] then [] else Emit(st, s[0]) + Decode(Next(st, s[0]), s[1..])
  }

  function End(st: State, s: seq<int>): (r: State)
    requires Nats(s)
    decreases |s|
  {
    if s == [] then st else End(Next(st, s[0]), s[1..])
  }

  /** A byte is about to be repeated only if there was one. */
  ghost predicate ValidState(st: State) { st.run == 3 ==> 0 <= st.current < 256 }

  lemma {:induction false} DecodeBytes(st: State, s: seq<int>)
    requires Bytes(s) && ValidState(st)
    ensures Bytes(Decode(st, s))
    decreases |s|
  {
    if s != [] {
      DecodeBytes(Next(st, s[0]), s[1..]);
    }
  }

  lemma {:induction false} DecodeConcat(st: State, s: seq<int>, t: seq<int>)
    requires Nats(s) && Nats(t)
    ensures Decode(st, s + t) == Decode(st, s) + Decode(End(st, s), t)
    ensures End(st, s + t) == End(End(st, s), t)
    decreases |s|
  {
    if s == [] {
      assert s + t == t;
    } else {
      assert (s + t)[1..] == s[1..] + t;
      DecodeConcat(Next(st, s[0]), s[1..], t);
    }
  }

  // ----- the encoder -----

  const MAX_RUN: nat := 255

  /** How often the first byte occurs in a row, up to n times. */
  function RunOf(x: seq<int>, n: nat): (r: nat)
    requires x != []
    ensures r <= |x| && r <= n && forall i :: 0 <= i < r ==> x[i] == x[0]
    ensures n > 0 ==> r > 0
    ensures r < n && r < |x| ==> x[r] != x[0]
    decreases |x|
  {
    if n == 0 then 0
    else if |x| > 1 && x[1] == x[0] then 1 + RunOf(x[1..], n - 1)
    else 1
  }

  /** The first run of x: from four bytes on it becomes four bytes and a count. */
  function Chunk(x: seq<int>): (s: seq<int>)
    requires x != []
    ensures Nats(x) ==> Nats(s)
  {
    var r := RunOf(x, MAX_RUN);
    if r < 4 then x[..r] else x[..4] + [r - 4]
  }

  function Encode(x: seq<int>): (s: seq<int>)
    ensures Nats(x) ==> Nats(s)
    decreases |x|
  {
    if x == [] then [] else Chunk(x) + Encode(x[RunOf(x, MAX_RUN)..])
  }

  /** The decoder takes the next byte for a new one. */
  ghost predicate Ready(st: State, x: seq<int>)
  {
    st.run != 3 && (st.run == -1 || x == [] || st.current != x[0])
  }

  lemma {:induction false} DecodeRun(st: State, b: nat, k: nat)
    requires 1 <= k <= 4 && Ready(st, [b])
    ensures Decode(st, Repeat(b, k)) == Repeat(b, k)
    ensures End(st, Repeat(b, k)) == State(b, k - 1)
  {
    if k == 1 {
      assert Repeat(b, 1)[1..] == [];
    } else {
      DecodeRun(st, b, k - 1);
      var st' := State(b, k - 2);
      assert Repeat(b, k) == Repeat(b, k - 1) + [b];
      DecodeConcat(st, Repeat(b, k - 1), [b]);
      assert [b][1..] == [];
      assert Decode(st', [b]) == [b];
    }
  }

  lemma {:induction false} DecodeCounted(st: State, b: nat, n: nat)
    requires Ready(st, [b])
    ensures Decode(st, Repeat(b, 4) + [n]) == Repeat(b, 4 + n)
    ensures End(st, Repeat(b, 4) + [n]) == State(-1, 0)
  {
    DecodeRun(st, b, 4);
    DecodeConcat(st, Repeat(b, 4), [n]);
    assert [n][1..] == [];
    assert Decode(State(b, 3), [n]) == Repeat(b, n) + [];
  }

  lemma {:induction false} DecodeChunk(st: State, x: seq<int>)
    requires x != [] && Nats(x) && Ready(st, x)
    ensures var r := RunOf(x, MAX_RUN);
            Decode(st, Chunk(x)) == x[..r] && Ready(End(st, Chunk(x)), x[r..])
  {
    var r, b := RunOf(x, MAX_RUN), x[0];
    assert x[..r] == Repeat(b, r);
    if r < 4 {
      DecodeRun(st, b, r);
    } else {
      assert x[..4] == Repeat(b, 4);
      DecodeCounted(st, b, r - 4);
    }
  }

  /** For every byte string, decoding what was encoded gives it back. */
  lemma {:induction false} DecodeEncode(st: State, x: seq<int>)
    requires Nats(x) && Ready(st, x)
    ensures Decode(st, Encode(x)) == x
    decreases |x|
  {
    if x != [] {
      var r := RunOf(x, MAX_RUN);
      var code, rest := Chunk(x), x[r..];
      DecodeChunk(st, x);
      DecodeEncode(End(st, code), rest);
      DecodeConcat(st, code, Encode(rest));
      Split(x, r);
    }
  }

  /** The state in which a block starts: the byte before the first one is never output and
      never counts as the start of a run, whatever it is. */
  lemma {:induction false} DecodeBlock(current: int, x: seq<int>)
    requires Nats(x)
    ensures Decode(State(current, -1), Encode(x)) == x
  {
    DecodeEncode(State(current, -1), x);
  }
}
