/**
 Two mutually recursive functions and the two stack machines that compute them
 (course1/hanoi/f_g.c and course1/hanoi/f_g1.c).
 */
module MutualRecursion {
  import opened Wrappers

  // ----- the recursion -----

  /** f and g; g(n) calls f(n + 1), which calls g(n - 1). */
  function F(n: int): (r: nat)
    decreases if n <= 1 then 0 else 2 * n
  {
    if n <= 1 then 1 else F(n - 1) + G(n - 2)
  }

  function G(n: int): (r: nat)
    decreases if n <= 1 then 0 else 2 * n + 3
  {
    if n <= 1 then 1 else F(n + 1) + G(n - 1)
  }

  datatype Fun = Ff | Gg

  function Value(fun: Fun, n: int): (r: nat) { if fun == Ff then F(n) else G(n) }

  function Left(fun: Fun, n: int): (m: int) { if fun == Ff then n - 1 else n + 1 }

  function Right(fun: Fun, n: int): (m: int) { if fun == Ff then n - 2 else n - 1 }

  // ----- what a call costs on the stack -----

  /** What a call adds to ans, how many slots it takes at once, and how many rounds. */
  datatype Cost = Cost(value: nat, slots: nat, rounds: nat)

  function Max(a: int, b: int): int { if a >= b then a else b }

  /** Staged, as in f_g.c: first the left call, then the right one. Otherwise, as in f_g1.c: both
      calls are pushed at once, the right one on top. */
  ghost function Whole(staged: bool, fun: Fun, n: int): (c: Cost)
    ensures c.slots >= 1 && c.rounds >= 1
    decreases if n <= 1 then 0 else if fun == Ff then 2 * n else 2 * n + 3
  {
    if n <= 1 then Cost(1, 1, 1) else
    var l, r := Whole(staged, Ff, Left(fun, n)), Whole(staged, Gg, Right(fun, n));
    Cost(l.value + r.value,
         Max(1 + l.slots, (if staged then 1 else 2) + r.slots),
         (if staged then 3 else 2) + l.rounds + r.rounds)
  }

  lemma {:induction false} WholeValue(staged: bool, fun: Fun, n: int)
    ensures Whole(staged, fun, n).value == Value(fun, n)
    decreases if n <= 1 then 0 else if fun == Ff then 2 * n else 2 * n + 3
  {
    if n > 1 {
      WholeValue(staged, Ff, Left(fun, n));
      WholeValue(staged, Gg, Right(fun, n));
    }
  }

  /** The slots that f_g.c and f_g1.c need. */
  function Slots(staged: bool, fun: Fun, n: int): (k: nat)
  {
    if n <= 1 then 1
    else if fun == Gg then if staged then 2 * n else 3 * n - 1
    else if n == 2 then if staged then 2 else 3
    else if staged then 2 * n - 3 else 3 * n - 5
  }

  lemma {:induction false} SlotsExact(staged: bool, fun: Fun, n: int)
    ensures Whole(staged, fun, n).slots == Slots(staged, fun, n)
    decreases if n <= 1 then 0 else if fun == Ff then 2 * n else 2 * n + 3
  {
    if n > 1 {
      SlotsExact(staged, Ff, Left(fun, n));
      SlotsExact(staged, Gg, Right(fun, n));
    }
  }

  // ----- the stack -----

  const STACK_SIZE := 1000

  datatype Frame = Frame(n: int, flag: Fun, stage: nat)

  class Stack {
    const slots: array<Frame>
    var top: int

    ghost predicate Valid()
      reads this
    {
      slots.Length == STACK_SIZE && -1 <= top < STACK_SIZE
    }

    ghost function Frames(): (s: seq<Frame>)
      requires Valid()
      reads this, slots
    {
      slots[..top + 1]
    }

    constructor ()
      ensures Valid() && Frames() == [] && fresh(slots)
    {
      slots := new Frame[STACK_SIZE];
      top := -1;
    }

    /** push: on a full stack the program ends. */
    method Push(frame: Frame) returns (ok: bool)
      requires Valid()
      modifies `top, slots
      ensures Valid() && (ok <==> |old(Frames())| < STACK_SIZE)
      ensures Frames() == if ok then old(Frames()) + [frame] else old(Frames())
    {
      ok := top < STACK_SIZE - 1;
      if ok {
        top := top + 1;
        slots[top] := frame;
      }
    }

    method Pop()
      requires Valid() && Frames() != []
      modifies `top
      ensures Valid() && Frames() == old(Frames())[..|old(Frames())| - 1]
    {
      top := top - 1;
    }

    method SetStage(stage: nat)
      requires Valid() && Frames() != []
      modifies slots
      ensures Valid()
      ensures var fs := old(Frames()); var k := |fs| - 1; Frames() == fs[k := fs[k].(stage := stage)]
    {
      slots[top] := slots[top].(stage := stage);
    }
  }

  // ----- what is still to come -----

  ghost predicate FrameOk(staged: bool, f: Frame)
  {
    f.stage <= (if staged then 2 else 1) && (f.stage > 0 ==> f.n > 1)
  }

  ghost predicate FramesOk(staged: bool, frames: seq<Frame>)
  {
    forall i :: 0 <= i < |frames| ==> FrameOk(staged, frames[i])
  }

  /** What a frame adds and takes from now on, without the calls that have frames of their own. */
  ghost function FrameCost(staged: bool, f: Frame): (c: Cost)
    ensures c.slots >= 1 && c.rounds >= 1
  {
    if f.stage == 0 then Whole(staged, f.flag, f.n)
    else if staged && f.stage == 1 then
      var r := Whole(staged, Gg, Right(f.flag, f.n));
      Cost(r.value, 1 + r.slots, 2 + r.rounds)
    else Cost(0, 1, 1)
  }

  ghost function StackCost(staged: bool, frames: seq<Frame>): (c: Cost)
  {
    if frames == [] then Cost(0, 0, 0) else
    var k := |frames| - 1;
    var c, d := FrameCost(staged, frames[k]), StackCost(staged, frames[..k]);
    Cost(c.value + d.value, Max(k + c.slots, d.slots), c.rounds + d.rounds)
  }

  /** ans and what is to come make up the value; the slots so far and those to come make up the
      slots that the call needs. */
  ghost predicate Computes(staged: bool, frames: seq<Frame>, ans: int, seen: nat, fun: Fun, n: int)
  {
    var c := StackCost(staged, frames);
    && FramesOk(staged, frames) && |frames| <= seen
    && ans + c.value == Value(fun, n)
    && Max(seen, c.slots) == Slots(staged, fun, n)
  }

  lemma {:induction false} TopReplaced(staged: bool, frames: seq<Frame>, g: Frame)
    requires frames != [] && FramesOk(staged, frames) && FrameOk(staged, g)
    ensures var k := |frames| - 1;
            var c, d := FrameCost(staged, g), StackCost(staged, frames[..k]);
            && FramesOk(staged, frames[k := g])
            && StackCost(staged, frames[k := g])
               == Cost(c.value + d.value, Max(k + c.slots, d.slots), c.rounds + d.rounds)
  {
    var k := |frames| - 1;
    assert frames[k := g][..k] == frames[..k];
  }

  lemma {:induction false} FramePushed(staged: bool, frames: seq<Frame>, h: Frame)
    requires FramesOk(staged, frames) && FrameOk(staged, h)
    ensures var c, d := FrameCost(staged, h), StackCost(staged, frames);
            && FramesOk(staged, frames + [h])
            && StackCost(staged, frames + [h])
               == Cost(c.value + d.value, Max(|frames| + c.slots, d.slots), c.rounds + d.rounds)
  {
    assert (frames + [h])[..|frames|] == frames;
  }

  /** A frame that is done, or that is a call with n <= 1, leaves the stack. */
  lemma {:induction false} Popped(staged: bool, frames: seq<Frame>, ans: int, seen: nat, fun: Fun, n: int)
    requires frames != [] && Computes(staged, frames, ans, seen, fun, n)
    requires var c := FrameCost(staged, frames[|frames| - 1]); c.slots == 1 && c.rounds == 1
    ensures var k := |frames| - 1;
            && Computes(staged, frames[..k], ans + FrameCost(staged, frames[k]).value, seen, fun, n)
            && StackCost(staged, frames).rounds == 1 + StackCost(staged, frames[..k]).rounds
  {
  }

  /** What f costs is what g and the call h above it cost. */
  ghost predicate CallCosts(staged: bool, f: Frame, g: Frame, h: Frame)
  {
    var c, d := FrameCost(staged, g), FrameCost(staged, h);
    FrameCost(staged, f) == Cost(c.value + d.value, Max(c.slots, 1 + d.slots), 1 + c.rounds + d.rounds)
  }

  /** What f costs is what g, the call h above it and the call i above both cost. */
  ghost predicate CallsCost(staged: bool, f: Frame, g: Frame, h: Frame, i: Frame)
  {
    var c, d, e := FrameCost(staged, g), FrameCost(staged, h), FrameCost(staged, i);
    FrameCost(staged, f) == Cost(c.value + d.value + e.value, Max(c.slots, Max(1 + d.slots, 2 + e.slots)),
                                 1 + c.rounds + d.rounds + e.rounds)
  }

  /** The top frame goes on as g and makes the call h. */
  lemma {:induction false} Called(staged: bool, frames: seq<Frame>, g: Frame, h: Frame, ans: int, seen: nat, fun: Fun, n: int)
    requires frames != [] && Computes(staged, frames, ans, seen, fun, n)
    requires FrameOk(staged, g) && FrameOk(staged, h)
    requires CallCosts(staged, frames[|frames| - 1], g, h)
    ensures var after := frames[|frames| - 1 := g] + [h];
            && Computes(staged, after, ans, Max(seen, |after|), fun, n)
            && StackCost(staged, frames).rounds == 1 + StackCost(staged, after).rounds
            && Slots(staged, fun, n) >= |after|
  {
    TopReplaced(staged, frames, g);
    FramePushed(staged, frames[|frames| - 1 := g], h);
  }

  lemma {:induction false} CallsStack(staged: bool, frames: seq<Frame>, g: Frame, h: Frame, i: Frame)
    requires frames != [] && FramesOk(staged, frames) && FrameOk(staged, g) && FrameOk(staged, h) && FrameOk(staged, i)
    ensures var k, after := |frames| - 1, frames[|frames| - 1 := g] + [h] + [i];
            var b, c, d, e := StackCost(staged, frames[..k]), FrameCost(staged, g), FrameCost(staged, h), FrameCost(staged, i);
            && FramesOk(staged, after) && |after| == k + 3
            && StackCost(staged, after) == Cost(b.value + c.value + d.value + e.value,
                                                Max(k + 2 + e.slots, Max(k + 1 + d.slots, Max(k + c.slots, b.slots))),
                                                b.rounds + c.rounds + d.rounds + e.rounds)
  {
    TopReplaced(staged, frames, g);
    FramePushed(staged, frames[|frames| - 1 := g], h);
    FramePushed(staged, frames[|frames| - 1 := g] + [h], i);
  }

  /** The top frame goes on as g and makes the calls h and i, the latter first. */
  lemma {:induction false} CalledBoth(staged: bool, frames: seq<Frame>, g: Frame, h: Frame, i: Frame,
                                      ans: int, seen: nat, fun: Fun, n: int)
    requires frames != [] && Computes(staged, frames, ans, seen, fun, n)
    requires FrameOk(staged, g) && FrameOk(staged, h) && FrameOk(staged, i)
    requires CallsCost(staged, frames[|frames| - 1], g, h, i)
    ensures var after := frames[|frames| - 1 := g] + [h] + [i];
            && Computes(staged, after, ans, Max(seen, |after|), fun, n)
            && StackCost(staged, frames).rounds == 1 + StackCost(staged, after).rounds
            && Slots(staged, fun, n) >= |after|
  {
    var k := |frames| - 1;
    var b, c, d, e := StackCost(staged, frames[..k]), FrameCost(staged, g), FrameCost(staged, h), FrameCost(staged, i);
    CallsStack(staged, frames, g, h, i);
    MaxOfCalls(k, b.slots, c.slots, d.slots, e.slots);
  }

  lemma MaxOfCalls(k: int, b: int, c: int, d: int, e: int)
    ensures Max(k + 2 + e, Max(k + 1 + d, Max(k + c, b))) == Max(k + Max(c, Max(1 + d, 2 + e)), b)
  {
  }

  // ----- the two machines -----

  /** What every round of either machine keeps; a round that overflows is one that had to. */
  ghost predicate RoundDone(staged: bool, before: seq<Frame>, ok: bool, after: seq<Frame>, ans: int, seen: nat, fun: Fun, n: int)
  {
    if ok then
      && Computes(staged, after, ans, seen, fun, n) && seen <= STACK_SIZE
      && StackCost(staged, before).rounds == 1 + StackCost(staged, after).rounds
    else Slots(staged, fun, n) > STACK_SIZE
  }

  /** The top frame enters its next stage, and the call h is pushed. */
  method Call(stack: Stack, stage: nat, h: Frame, ghost ans: int, ghost seen: nat, ghost fun: Fun, ghost n: int)
    returns (ok: bool, ghost seen': nat)
    requires stack.Valid() && stack.Frames() != [] && seen <= STACK_SIZE
    requires Computes(true, stack.Frames(), ans, seen, fun, n)
    requires var f := stack.Frames()[|stack.Frames()| - 1];
             var g := f.(stage := stage);
             FrameOk(true, g) && FrameOk(true, h) && CallCosts(true, f, g, h)
    modifies stack`top, stack.slots
    ensures stack.Valid() && RoundDone(true, old(stack.Frames()), ok, stack.Frames(), ans, seen', fun, n)
  {
    ghost var frames := stack.Frames();
    Called(true, frames, frames[|frames| - 1].(stage := stage), h, ans, seen, fun, n);
    stack.SetStage(stage);
    ok := stack.Push(h);
    seen' := Max(seen, |stack.Frames()|);
  }

  /** The top frame enters its last stage, and both calls are pushed. */
  method CallBoth(stack: Stack, h: Frame, i: Frame, ghost ans: int, ghost seen: nat, ghost fun: Fun, ghost n: int)
    returns (ok: bool, ghost seen': nat)
    requires stack.Valid() && stack.Frames() != [] && seen <= STACK_SIZE
    requires Computes(false, stack.Frames(), ans, seen, fun, n)
    requires var f := stack.Frames()[|stack.Frames()| - 1];
             var g := f.(stage := 1);
             FrameOk(false, g) && FrameOk(false, h) && FrameOk(false, i) && CallsCost(false, f, g, h, i)
    modifies stack`top, stack.slots
    ensures stack.Valid() && RoundDone(false, old(stack.Frames()), ok, stack.Frames(), ans, seen', fun, n)
  {
    ghost var frames := stack.Frames();
    ghost var g := frames[|frames| - 1].(stage := 1);
    ghost var after := frames[|frames| - 1 := g] + [h] + [i];
    CalledBoth(false, frames, g, h, i, ans, seen, fun, n);
    stack.SetStage(1);
    assert stack.Frames() == frames[|frames| - 1 := g];
    ok := stack.Push(h);
    if ok {
      ok := stack.Push(i);
    }
    seen' := Max(seen, |after|);
    assert ok ==> stack.Frames() == after;
  }

  /** One round of the loop in f_g.c. */
  method StagedRound(stack: Stack, ans: int, ghost seen: nat, ghost fun: Fun, ghost n: int)
    returns (ok: bool, ans': int, ghost seen': nat)
    requires stack.Valid() && stack.Frames() != [] && seen <= STACK_SIZE
    requires Computes(true, stack.Frames(), ans, seen, fun, n)
    modifies stack`top, stack.slots
    ensures stack.Valid() && RoundDone(true, old(stack.Frames()), ok, stack.Frames(), ans', seen', fun, n)
  {
    ghost var frames := stack.Frames();
    var current := stack.slots[stack.top];
    assert current == frames[|frames| - 1] && FrameOk(true, current);
    ok, ans', seen' := true, ans, seen;
    if current.n <= 1 && current.stage == 0 {
      Popped(true, frames, ans, seen, fun, n);
      ans' := ans + 1;
      stack.Pop();
    } else if current.stage == 0 {
      var left := Frame(Left(current.flag, current.n), Ff, 0);
      ok, seen' := Call(stack, 1, left, ans, seen, fun, n);
    } else if current.stage == 1 {
      var right := Frame(Right(current.flag, current.n), Gg, 0);
      ok, seen' := Call(stack, 2, right, ans, seen, fun, n);
    } else {
      Popped(true, frames, ans, seen, fun, n);
      stack.Pop();
    }
  }

  /** One round of the loop in f_g1.c. */
  method PairedRound(stack: Stack, ans: int, ghost seen: nat, ghost fun: Fun, ghost n: int)
    returns (ok: bool, ans': int, ghost seen': nat)
    requires stack.Valid() && stack.Frames() != [] && seen <= STACK_SIZE
    requires Computes(false, stack.Frames(), ans, seen, fun, n)
    modifies stack`top, stack.slots
    ensures stack.Valid() && RoundDone(false, old(stack.Frames()), ok, stack.Frames(), ans', seen', fun, n)
  {
    ghost var frames := stack.Frames();
    var current := stack.slots[stack.top];
    assert current == frames[|frames| - 1] && FrameOk(false, current);
    ok, ans', seen' := true, ans, seen;
    if current.n <= 1 && current.stage == 0 {
      Popped(false, frames, ans, seen, fun, n);
      ans' := ans + 1;
      stack.Pop();
    } else if current.stage == 0 {
      var left := Frame(Left(current.flag, current.n), Ff, 0);
      var right := Frame(Right(current.flag, current.n), Gg, 0);
      ok, seen' := CallBoth(stack, left, right, ans, seen, fun, n);
    } else {
      Popped(false, frames, ans, seen, fun, n);
      stack.Pop();
    }
  }

  lemma {:induction false} Begins(staged: bool, fun: Fun, n: int)
    ensures Computes(staged, [Frame(n, fun, 0)], 0, 1, fun, n)
  {
    WholeValue(staged, fun, n);
    SlotsExact(staged, fun, n);
    FramePushed(staged, [], Frame(n, fun, 0));
    assert [] + [Frame(n, fun, 0)] == [Frame(n, fun, 0)];
  }

  /** f_g in f_g.c: the value of f or g, or the end of the program, exactly if the call needs
      more slots than there are. */
  method StagedFG(stack: Stack, n: int, fun: Fun) returns (r: Option<int>)
    requires stack.Valid() && stack.Frames() == []
    modifies stack`top, stack.slots
    ensures r == if Slots(true, fun, n) <= STACK_SIZE then Some(Value(fun, n)) else None
    ensures stack.Valid() && (r.Some? ==> stack.Frames() == [])
  {
    Begins(true, fun, n);
    var ok := stack.Push(Frame(n, fun, 0));
    assert stack.Frames() == [Frame(n, fun, 0)];
    var ans := 0;
    ghost var seen: nat := 1;
    while stack.top != -1
      invariant stack.Valid() && seen <= STACK_SIZE && Computes(true, stack.Frames(), ans, seen, fun, n)
      decreases StackCost(true, stack.Frames()).rounds
    {
      ok, ans, seen := StagedRound(stack, ans, seen, fun, n);
      if !ok {
        return None;
      }
    }
    return Some(ans);
  }

  /** f_g in f_g1.c. */
  method PairedFG(stack: Stack, n: int, fun: Fun) returns (r: Option<int>)
    requires stack.Valid() && stack.Frames() == []
    modifies stack`top, stack.slots
    ensures r == if Slots(false, fun, n) <= STACK_SIZE then Some(Value(fun, n)) else None
    ensures stack.Valid() && (r.Some? ==> stack.Frames() == [])
  {
    Begins(false, fun, n);
    var ok := stack.Push(Frame(n, fun, 0));
    assert stack.Frames() == [Frame(n, fun, 0)];
    var ans := 0;
    ghost var seen: nat := 1;
    while stack.top != -1
      invariant stack.Valid() && seen <= STACK_SIZE && Computes(false, stack.Frames(), ans, seen, fun, n)
      decreases StackCost(false, stack.Frames()).rounds
    {
      ok, ans, seen := PairedRound(stack, ans, seen, fun, n);
      if !ok {
        return None;
      }
    }
    return Some(ans);
  }
}
