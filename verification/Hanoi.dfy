/**
 The tower of Hanoi as a stack machine (course1/hanoi/hanoi-nr.c) and as the recursion it must
 refine (course1/hanoi/hanoi-r.c).
 */
module Hanoi {
  import opened Powers
  import opened Sequences
  import opened Wrappers

  type Move = (char, char)

  // ----- the recursion -----

  function Moves(n: nat, from: char, to: char, via: char): (ms: seq<Move>)
    requires n >= 1
  {
    if n == 1 then [(from, to)]
    else Moves(n - 1, from, via, to) + (Moves(1, from, to, via) + Moves(n - 1, via, to, from))
  }

  function Count(n: nat): (c: nat)
    requires n >= 1
  {
    if n == 1 then 1 else Count(n - 1) + Count(n - 1) + 1
  }

  lemma {:induction false} CountIsLength(n: nat, from: char, to: char, via: char)
    requires n >= 1
    ensures Count(n) == |Moves(n, from, to, via)| == Pow2(n) - 1
  {
    if n > 1 {
      CountIsLength(n - 1, from, via, to);
      CountIsLength(n - 1, via, to, from);
    }
  }

  /** The count, and with it every value that the machine ever holds, fits a 32-bit int up to
      31 disks and no further. */
  lemma {:induction false} FitsInt(n: nat)
    requires n >= 1
    ensures Count(n) <= 0x7fff_ffff <==> n <= 31
  {
    CountIsLength(n, 'A', 'B', 'C');
    Pow30();
    assert Pow2(30 + 1) == 2 * Pow2(30);
    if n <= 31 { Pow2Grows(n, 31); } else { Pow2Grows(31 + 1, n); }
  }

  // ----- what the moves do -----

  /** The disks on each peg, the lowest first. */
  type Pegs = map<char, seq<nat>>

  predicate Legal(pegs: Pegs, m: Move)
  {
    && m.0 in pegs && m.1 in pegs && m.0 != m.1 && pegs[m.0] != []
    && (pegs[m.1] == [] || pegs[m.0][|pegs[m.0]| - 1] < pegs[m.1][|pegs[m.1]| - 1])
  }

  /** Moves one disk at a time, each onto an empty peg or a larger disk; otherwise None. */
  function Play(pegs: Pegs, ms: seq<Move>): (r: Option<Pegs>)
  {
    if ms == [] then Some(pegs)
    else if !Legal(pegs, ms[0]) then None
    else
      var a, b := pegs[ms[0].0], pegs[ms[0].1];
      Play(pegs[ms[0].0 := a[..|a| - 1]][ms[0].1 := b + [a[|a| - 1]]], ms[1..])
  }

  lemma {:induction false} PlayConcat(pegs: Pegs, ms: seq<Move>, ns: seq<Move>)
    requires Play(pegs, ms).Some?
    ensures Play(pegs, ms + ns) == Play(Play(pegs, ms).value, ns)
    decreases |ms|
  {
    if ms == [] {
      assert ms + ns == ns;
    } else {
      CutFirst(ms, ns, 1);
      var a, b := pegs[ms[0].0], pegs[ms[0].1];
      PlayConcat(pegs[ms[0].0 := a[..|a| - 1]][ms[0].1 := b + [a[|a| - 1]]], ms[1..], ns);
    }
  }

  lemma {:induction false} PlayThrice(pegs: Pegs, pegs1: Pegs, pegs2: Pegs, pegs3: Pegs,
                                      ms: seq<Move>, ns: seq<Move>, os: seq<Move>)
    requires Play(pegs, ms) == Some(pegs1) && Play(pegs1, ns) == Some(pegs2) && Play(pegs2, os) == Some(pegs3)
    ensures Play(pegs, ms + (ns + os)) == Some(pegs3)
  {
    PlayConcat(pegs1, ns, os);
    PlayConcat(pegs, ms, ns + os);
  }

  /** A tower of the disks n, ..., 1. */
  function Tower(n: nat): (s: seq<nat>) { if n == 0 then [] else [n] + Tower(n - 1) }

  ghost predicate Larger(disks: seq<nat>, n: nat) { forall i :: 0 <= i < |disks| ==> disks[i] > n }

  lemma {:induction false} PlayOne(pegs: Pegs, base: seq<nat>, d: nat, from: char, to: char)
    requires from != to && from in pegs && to in pegs
    requires pegs[from] == base + [d] && Larger(pegs[to], d)
    ensures Play(pegs, [(from, to)]) == Some(pegs[from := base][to := pegs[to] + [d]])
  {
    var m: Move := (from, to);
    assert [m][1..] == [] && [m][0] == m;
    var a := pegs[from];
    assert a[..|a| - 1] == base && a[|a| - 1] == d;
    assert Play(pegs[from := base][to := pegs[to] + [d]], []) == Some(pegs[from := base][to := pegs[to] + [d]]);
  }

  /** No move ever puts a disk on a smaller one, and in the end the n disks have changed pegs,
      whatever larger disks lie below them. */
  lemma {:induction false} Solves(pegs: Pegs, base: seq<nat>, n: nat, from: char, to: char, via: char)
    requires n >= 1 && from != to && to != via && via != from
    requires from in pegs && to in pegs && via in pegs
    requires pegs[from] == base + Tower(n) && Larger(base, n) && Larger(pegs[to], n) && Larger(pegs[via], n)
    ensures Play(pegs, Moves(n, from, to, via)) == Some(pegs[from := base][to := pegs[to] + Tower(n)])
    decreases n, 1
  {
    if n == 1 {
      assert Tower(1) == [1] + Tower(0);
      PlayOne(pegs, base, 1, from, to);
    } else {
      SolvesTwice(pegs, base, n, from, to, via);
    }
  }

  lemma {:induction false} SolvesTwice(pegs: Pegs, base: seq<nat>, n: nat, from: char, to: char, via: char)
    requires n >= 2 && from != to && to != via && via != from
    requires from in pegs && to in pegs && via in pegs
    requires pegs[from] == base + Tower(n) && Larger(base, n) && Larger(pegs[to], n) && Larger(pegs[via], n)
    ensures Play(pegs, Moves(n, from, to, via)) == Some(pegs[from := base][to := pegs[to] + Tower(n)])
    decreases n, 0
  {
    var t := Tower(n - 1);
    var first, second, third := Moves(n - 1, from, via, to), Moves(1, from, to, via), Moves(n - 1, via, to, from);
    Regroup(base, [n], t);
    Regroup(pegs[to], [n], t);
    var pegs1 := pegs[from := base + [n]][via := pegs[via] + t];
    var pegs2 := pegs1[from := base][to := pegs[to] + [n]];
    assert Play(pegs, first) == Some(pegs1) by { Solves(pegs, base + [n], n - 1, from, via, to); }
    assert Play(pegs1, second) == Some(pegs2) by { PlayOne(pegs1, base, n, from, to); }
    var pegs3 := pegs2[via := pegs[via]][to := (pegs[to] + [n]) + t];
    assert Play(pegs2, third) == Some(pegs3) by { Solves(pegs2, pegs[via], n - 1, via, to, from); }
    PlayThrice(pegs, pegs1, pegs2, pegs3, first, second, third);
    assert pegs3 == pegs[from := base][to := pegs[to] + Tower(n)];
  }

  // ----- the machine -----

  datatype Frame = Frame(pc: nat, n: int, from: char, to: char, via: char, c1: int, c2: int)

  function NewFrame(n: int, from: char, to: char, via: char): Frame { Frame(0, n, from, to, via, 0, 0) }

  /** The stack with its top last, the last value returned, and what one round prints. */
  datatype State = State(frames: seq<Frame>, retval: int, printed: seq<Move>)

  /** One round of the loop: the statement at the pc of the top frame. */
  function Next(frames: seq<Frame>, retval: int): (s: State)
    requires frames != [] && frames[|frames| - 1].pc <= 6
  {
    var k := |frames| - 1;
    var f := frames[k];
    var g := f.(pc := f.pc + 1);
    match f.pc
    case 0 => if f.n == 1 then State(frames[..k], 1, [(f.from, f.to)]) else State(frames[k := g], retval, [])
    case 1 => State(frames[k := g] + [NewFrame(f.n - 1, f.from, f.via, f.to)], retval, [])
    case 2 => State(frames[k := g.(c1 := retval)], retval, [])
    case 3 => State(frames[k := g] + [NewFrame(1, f.from, f.to, f.via)], retval, [])
    case 4 => State(frames[k := g] + [NewFrame(f.n - 1, f.via, f.to, f.from)], retval, [])
    case 5 => State(frames[k := g.(c2 := retval)], retval, [])
    case 6 => State(frames[..k], f.c1 + f.c2 + 1, [])
  }

  /** The locals hold the counts of the calls that are over. */
  ghost predicate FrameOk(f: Frame)
  {
    && f.pc <= 6 && f.n >= 1 && (f.pc > 0 ==> f.n >= 2)
    && (f.pc > 2 ==> f.c1 == Count(f.n - 1)) && (f.pc > 5 ==> f.c2 == Count(f.n - 1))
  }

  ghost predicate FramesOk(frames: seq<Frame>) { forall i :: 0 <= i < |frames| ==> FrameOk(frames[i]) }

  /** f waits for the call that is g. */
  ghost predicate Waits(f: Frame, g: Frame)
  {
    (f.pc == 2 || f.pc == 4 || f.pc == 5) && g.n == if f.pc == 4 then 1 else f.n - 1
  }

  /** At the pcs that fetch a result, retval is the result of that call, although many calls
      may have returned since it was made. */
  ghost predicate Running(frames: seq<Frame>, retval: int, n: int)
  {
    && FramesOk(frames)
    && (forall i :: 0 < i < |frames| ==> Waits(frames[i - 1], frames[i]))
    && (frames != [] ==> frames[0].n == n && Fetches(frames[|frames| - 1], retval))
    && (frames == [] ==> n >= 1 && retval == Count(n))
  }

  ghost predicate Fetches(f: Frame, retval: int)
  {
    f.n >= 2 && (f.pc == 2 || f.pc == 5) ==> retval == Count(f.n - 1)
  }

  lemma {:induction false} NextRuns(frames: seq<Frame>, retval: int, n: int)
    requires frames != [] && Running(frames, retval, n)
    ensures var s := Next(frames, retval); Running(s.frames, s.retval, n)
  {
    var k := |frames| - 1;
    var s, f := Next(frames, retval), frames[k];
    assert k > 0 ==> Waits(frames[k - 1], f);
    if |s.frames| == k {
      PoppedRuns(frames, retval, n, s.retval);
    } else if |s.frames| == k + 1 {
      assert s.frames == frames[k := s.frames[k]];
    } else {
      assert s.frames == frames[k := s.frames[k]] + [s.frames[k + 1]];
    }
  }

  lemma {:induction false} PoppedRuns(frames: seq<Frame>, retval: int, n: int, result: int)
    requires frames != [] && Running(frames, retval, n) && result == Count(frames[|frames| - 1].n)
    ensures Running(frames[..|frames| - 1], result, n)
  {
    var k := |frames| - 1;
    assert k > 0 ==> Waits(frames[k - 1], frames[k]) && FrameOk(frames[k - 1]);
  }

  lemma {:induction false} SmallerAbove(frames: seq<Frame>, retval: int, n: int, i: nat)
    requires Running(frames, retval, n) && i < |frames|
    ensures frames[i].n <= n - i
  {
    if i > 0 {
      SmallerAbove(frames, retval, n, i - 1);
      assert Waits(frames[i - 1], frames[i]);
    }
  }

  /** Each call has a smaller n than its caller: there are never more than n frames. */
  lemma {:induction false} NeverMoreThanN(frames: seq<Frame>, retval: int, n: int)
    requires Running(frames, retval, n) && frames != []
    ensures |frames| <= n
  {
    SmallerAbove(frames, retval, n, |frames| - 1);
  }

  /** The stack after k rounds. */
  ghost function After(frames: seq<Frame>, retval: int, k: nat): (r: seq<Frame>)
    decreases k
  {
    if k == 0 || frames == [] || frames[|frames| - 1].pc > 6 then frames else
    var s := Next(frames, retval);
    After(s.frames, s.retval, k - 1)
  }

  /** There are n frames in the end: 64 slots suffice for n disks exactly if n <= 64. */
  lemma {:induction false} ReachesN(frames: seq<Frame>, retval: int)
    requires frames != [] && frames[|frames| - 1].pc == 0 && frames[|frames| - 1].n >= 1
    ensures var n := frames[|frames| - 1].n;
            |After(frames, retval, 2 * (n - 1))| == |frames| + n - 1
    decreases frames[|frames| - 1].n
  {
    var n := frames[|frames| - 1].n;
    if n > 1 {
      var s := Next(frames, retval);
      var t := Next(s.frames, s.retval);
      ReachesN(t.frames, t.retval);
      var k := 2 * (n - 1);
      assert After(frames, retval, k) == After(s.frames, s.retval, k - 1) == After(t.frames, t.retval, k - 2);
    }
  }

  // ----- what is still to come -----

  /** The moves that a frame has yet to print. */
  ghost function FrameMoves(f: Frame): (ms: seq<Move>)
    requires FrameOk(f)
  {
    if f.pc <= 1 then Moves(f.n, f.from, f.to, f.via)
    else if f.pc <= 3 then Moves(1, f.from, f.to, f.via) + Moves(f.n - 1, f.via, f.to, f.from)
    else if f.pc == 4 then Moves(f.n - 1, f.via, f.to, f.from)
    else []
  }

  /** How many rounds a call takes. */
  ghost function Rounds(n: nat): (k: nat)
    requires n >= 1
    ensures k >= 1
  {
    if n == 1 then 1 else 8 + 2 * Rounds(n - 1)
  }

  /** How many rounds a frame and the calls it has yet to make take. */
  ghost function FrameRounds(f: Frame): (k: nat)
    requires FrameOk(f)
    ensures k >= 1
  {
    if f.pc == 0 then Rounds(f.n)
    else if f.pc == 1 then 7 + 2 * Rounds(f.n - 1)
    else if f.pc <= 3 then 8 - f.pc + Rounds(f.n - 1)
    else if f.pc == 4 then 3 + Rounds(f.n - 1)
    else 7 - f.pc
  }

  ghost function RestMoves(frames: seq<Frame>): (ms: seq<Move>)
    requires FramesOk(frames)
  {
    if frames == [] then []
    else FrameMoves(frames[|frames| - 1]) + RestMoves(frames[..|frames| - 1])
  }

  ghost function RestRounds(frames: seq<Frame>): (k: nat)
    requires FramesOk(frames)
  {
    if frames == [] then 0
    else FrameRounds(frames[|frames| - 1]) + RestRounds(frames[..|frames| - 1])
  }

  lemma {:induction false} TopReplaced(frames: seq<Frame>, g: Frame)
    requires frames != [] && FramesOk(frames) && FrameOk(g)
    ensures var k := |frames| - 1;
            && FramesOk(frames[k := g])
            && RestMoves(frames[k := g]) == FrameMoves(g) + RestMoves(frames[..k])
            && RestRounds(frames[k := g]) == FrameRounds(g) + RestRounds(frames[..k])
  {
    var k := |frames| - 1;
    assert frames[k := g][..k] == frames[..k];
  }

  lemma {:induction false} FramePushed(frames: seq<Frame>, h: Frame)
    requires FramesOk(frames) && FrameOk(h)
    ensures FramesOk(frames + [h])
    ensures RestMoves(frames + [h]) == FrameMoves(h) + RestMoves(frames)
    ensures RestRounds(frames + [h]) == FrameRounds(h) + RestRounds(frames)
  {
    assert (frames + [h])[..|frames|] == frames;
  }

  /** A call splits what the frame had yet to print. */
  lemma {:induction false} CallSplits(f: Frame, g: Frame, h: Frame, rest: seq<Move>)
    requires FrameOk(f) && f.pc in {1, 3, 4} && g == f.(pc := f.pc + 1)
    requires h == if f.pc == 1 then NewFrame(f.n - 1, f.from, f.via, f.to)
                  else if f.pc == 3 then NewFrame(1, f.from, f.to, f.via)
                  else NewFrame(f.n - 1, f.via, f.to, f.from)
    ensures FrameOk(g) && FrameOk(h)
    ensures FrameMoves(f) == FrameMoves(h) + FrameMoves(g)
    ensures FrameMoves(f) + rest == FrameMoves(h) + (FrameMoves(g) + rest)
    ensures FrameRounds(f) == 1 + FrameRounds(h) + FrameRounds(g)
  {
    Regroup(FrameMoves(h), FrameMoves(g), rest);
  }

  lemma {:induction false} CallPrints(frames: seq<Frame>, retval: int)
    requires frames != [] && FramesOk(frames) && frames[|frames| - 1].pc in {1, 3, 4}
    ensures var s := Next(frames, retval);
            && FramesOk(s.frames) && s.printed == []
            && RestMoves(frames) == RestMoves(s.frames)
            && RestRounds(frames) == 1 + RestRounds(s.frames)
  {
    var k := |frames| - 1;
    var f, s := frames[k], Next(frames, retval);
    var g, h := s.frames[k], s.frames[k + 1];
    CallSplits(f, g, h, RestMoves(frames[..k]));
    TopReplaced(frames, g);
    FramePushed(frames[k := g], h);
  }

  /** A round that neither calls nor returns. */
  lemma {:induction false} GoesOn(f: Frame, g: Frame)
    requires FrameOk(f) && FrameOk(g) && g.pc == f.pc + 1 && g.n == f.n && f.pc in {0, 2, 5}
    requires g.from == f.from && g.to == f.to && g.via == f.via
    ensures FrameMoves(g) == FrameMoves(f) && FrameRounds(g) + 1 == FrameRounds(f)
  {
  }

  lemma {:induction false} Returns(f: Frame)
    requires FrameOk(f) && (f.pc == 6 || (f.pc == 0 && f.n == 1))
    ensures FrameMoves(f) == (if f.pc == 0 then [(f.from, f.to)] else []) && FrameRounds(f) == 1
  {
  }

  /** Each round prints the next part of what was to come. */
  lemma {:induction false} NextPrints(frames: seq<Frame>, retval: int, n: int)
    requires frames != [] && Running(frames, retval, n)
    ensures var s := Next(frames, retval);
            && FramesOk(s.frames)
            && RestMoves(frames) == s.printed + RestMoves(s.frames)
            && RestRounds(frames) == 1 + RestRounds(s.frames)
  {
    NextRuns(frames, retval, n);
    var k := |frames| - 1;
    var f, s := frames[k], Next(frames, retval);
    if f.pc in {1, 3, 4} {
      CallPrints(frames, retval);
    } else if |s.frames| == k + 1 {
      GoesOn(f, s.frames[k]);
      TopReplaced(frames, s.frames[k]);
    } else {
      Returns(f);
    }
  }

  // ----- the loop over the array of frames -----

  /** One round, in place: a call writes above the caller, and the caller's pc goes on even
      where its slot has just been left. */
  method Round(stk: array<Frame>, top: nat, retval: int) returns (top': int, retval': int, printed: seq<Move>)
    requires top < stk.Length && stk[top].pc <= 6
    requires |Next(stk[..top + 1], retval).frames| <= stk.Length
    modifies stk
    ensures -1 <= top' < stk.Length
    ensures Next(old(stk[..top + 1]), retval) == State(stk[..top' + 1], retval', printed)
  {
    ghost var frames := stk[..top + 1];
    var f := stk[top];
    top', retval', printed := top, retval, [];
    match f.pc {
      case 0 =>
        if f.n == 1 {
          printed := [(f.from, f.to)];
          top', retval' := top - 1, 1;
        }
      case 1 =>
        top' := top + 1;
        stk[top'] := NewFrame(f.n - 1, f.from, f.via, f.to);
      case 2 => stk[top] := f.(c1 := retval);
      case 3 =>
        top' := top + 1;
        stk[top'] := NewFrame(1, f.from, f.to, f.via);
      case 4 =>
        top' := top + 1;
        stk[top'] := NewFrame(f.n - 1, f.via, f.to, f.from);
      case 5 => stk[top] := f.(c2 := retval);
      case 6 => top', retval' := top - 1, f.c1 + f.c2 + 1;
    }
    stk[top] := stk[top].(pc := f.pc + 1);
    assert stk[..top' + 1] == Next(frames, retval).frames;
  }

  /** hanoi: for up to 64 disks the machine prints the moves of the recursion and returns its
      count, and its stack is large enough. */
  method Run(n: nat, from: char, to: char, via: char) returns (retval: int, printed: seq<Move>)
    requires 1 <= n <= 64
    ensures printed == Moves(n, from, to, via) && retval == Count(n) == Pow2(n) - 1
  {
    var stk := new Frame[64];
    var top := 0;
    stk[top] := NewFrame(n, from, to, via);
    retval, printed := 0, [];
    assert stk[..1] == [NewFrame(n, from, to, via)];
    FramePushed([], NewFrame(n, from, to, via));
    while top >= 0
      invariant -1 <= top < stk.Length && Running(stk[..top + 1], retval, n)
      invariant printed + RestMoves(stk[..top + 1]) == Moves(n, from, to, via)
      decreases RestRounds(stk[..top + 1])
    {
      ghost var frames, before := stk[..top + 1], printed;
      NextRuns(frames, retval, n);
      NextPrints(frames, retval, n);
      ghost var s := Next(frames, retval);
      if s.frames != [] { NeverMoreThanN(s.frames, s.retval, n); }
      var more;
      top, retval, more := Round(stk, top, retval);
      Regroup(printed, more, RestMoves(s.frames));
      printed := printed + more;
    }
    CountIsLength(n, from, to, via);
  }
}
