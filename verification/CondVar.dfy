/**
 The condition variable protocol of course2/mosaic/examples/concurrency/cond-var.py under the
 scheduling of course2/mosaic/mosaic.py: a worker runs from one system call to the next.
 */
module CondVar {

  /** Where a worker stands: not started; at a sched of mutex_lock; about to give up the mutex in
      cond_wait; at the wait loop; at the sched that reacquires the mutex; choosing whom to signal;
      after the signal, before the count; after the unlock; over. */
  datatype Pc = Start | Locking | Leaving | Waiting | Relocking | Choosing | Inside | Unlocked | Done

  /** How many producers and consumers there are, and how many rounds each has. */
  datatype Params = Params(producers: nat, consumers: nat, rounds: nat) {
    function Workers(): nat { producers + consumers }
    function Delta(i: nat): int { if i < producers then 1 else -1 }
  }

  /** The workers' program counters and completed rounds, and the heap. */
  datatype State = State(pcs: seq<Pc>, done: seq<nat>, locked: bool, count: int, cond: seq<nat>)

  ghost predicate Shaped(p: Params, s: State) { |s.pcs| == p.Workers() && |s.done| == p.Workers() }

  function Init(p: Params): (s: State)
  {
    State(seq(p.Workers(), _ => Start), seq(p.Workers(), _ => 0), false, 0, [])
  }

  // ----- from one system call to the next -----

  /** With the mutex: wait, or signal if anyone waits, or go on. */
  function Test(p: Params, s: State, i: nat): (s': State)
    requires Shaped(p, s) && i < p.Workers()
  {
    if !(0 <= s.count + p.Delta(i) <= 1) then s.(pcs := s.pcs[i := Leaving])
    else if s.cond != [] then s.(pcs := s.pcs[i := Choosing])
    else s.(pcs := s.pcs[i := Inside])
  }

  function Acquire(p: Params, s: State, i: nat, blocked: Pc): (s': State)
    requires Shaped(p, s) && i < p.Workers()
  {
    if s.locked then s.(pcs := s.pcs[i := blocked]) else Test(p, s.(locked := true), i)
  }

  function Resume(p: Params, s: State, i: nat): (s': State)
    requires Shaped(p, s) && i < p.Workers()
  {
    match s.pcs[i]
    case Start => if s.done[i] >= p.rounds then s.(pcs := s.pcs[i := Done]) else Acquire(p, s, i, Locking)
    case Unlocked => if s.done[i] >= p.rounds then s.(pcs := s.pcs[i := Done]) else Acquire(p, s, i, Locking)
    case Locking => Acquire(p, s, i, Locking)
    case Leaving => s.(locked := false, cond := s.cond + [i], pcs := s.pcs[i := Waiting])
    case Waiting => if i in s.cond then s else Acquire(p, s, i, Relocking)
    case Relocking => Acquire(p, s, i, Relocking)
    case Inside =>
      s.(count := s.count + p.Delta(i), locked := false,
         done := s.done[i := s.done[i] + 1], pcs := s.pcs[i := Unlocked])
    case Choosing => s
    case Done => s
  }

  /** list.remove */
  function Remove(cond: seq<nat>, t: nat): (r: seq<nat>)
  {
    if cond == [] then [] else if cond[0] == t then cond[1..] else [cond[0]] + Remove(cond[1..], t)
  }

  function Signal(p: Params, s: State, i: nat, t: nat): (s': State)
    requires Shaped(p, s) && i < p.Workers()
  {
    s.(cond := Remove(s.cond, t), pcs := s.pcs[i := Inside])
  }

  /** A sched may pick any live worker; a choose goes on with the same one. */
  ghost predicate Step(p: Params, s: State, i: nat, s': State)
    requires Shaped(p, s)
  {
    && i < p.Workers() && s.pcs[i] != Done
    && if s.pcs[i] == Choosing then exists t :: t in s.cond && s' == Signal(p, s, i, t)
       else (forall j :: 0 <= j < p.Workers() ==> s.pcs[j] != Choosing) && s' == Resume(p, s, i)
  }

  ghost predicate Next(p: Params, s: State, s': State)
    requires Shaped(p, s)
  {
    exists i :: Step(p, s, i, s')
  }

  /** An interleaving from the first state on. */
  ghost predicate IsRun(p: Params, run: seq<State>)
  {
    && run != [] && run[0] == Init(p)
    && (forall k :: 0 <= k < |run| ==> Shaped(p, run[k]))
    && (forall k :: 0 < k < |run| ==> Next(p, run[k - 1], run[k]))
  }

  // ----- what every step keeps -----

  predicate Holds(pc: Pc) { pc == Leaving || pc == Choosing || pc == Inside }

  /** In the middle of a round. */
  predicate InRound(pc: Pc) { !pc.Start? && !pc.Unlocked? && !pc.Done? }

  /** Productions minus consumptions of the first n workers. */
  function Balance(p: Params, done: seq<nat>, n: nat): (b: int)
    requires n <= |done|
  {
    if n == 0 then 0
    else if n <= p.producers then Balance(p, done, n - 1) + done[n - 1]
    else Balance(p, done, n - 1) - done[n - 1]
  }

  lemma {:induction false} BalanceUpdate(p: Params, done: seq<nat>, i: nat, n: nat)
    requires n <= |done| && i < |done|
    ensures Balance(p, done[i := done[i] + 1], n) == Balance(p, done, n) + if i < n then p.Delta(i) else 0
  {
    if n > 0 {
      BalanceUpdate(p, done, i, n - 1);
    }
  }

  /** The mutex is locked exactly when a worker holds it, and never two do. */
  ghost predicate Mutex(p: Params, s: State)
    requires Shaped(p, s)
  {
    && (s.locked <==> exists i :: 0 <= i < p.Workers() && Holds(s.pcs[i]))
    && (forall i, j :: 0 <= i < j < p.Workers() ==> !(Holds(s.pcs[i]) && Holds(s.pcs[j])))
  }

  /** The buffer holds what has been produced and not consumed, at most one item, and whoever is
      past the test may go on. */
  ghost predicate Buffer(p: Params, s: State)
    requires Shaped(p, s)
  {
    && 0 <= s.count <= 1 && s.count == Balance(p, s.done, p.Workers())
    && (forall i :: 0 <= i < p.Workers() && (s.pcs[i] == Choosing || s.pcs[i] == Inside) ==>
          0 <= s.count + p.Delta(i) <= 1)
  }

  /** The wait list names different workers, all of them at the wait. */
  ghost predicate WaitList(p: Params, s: State)
    requires Shaped(p, s)
  {
    && (forall k :: 0 <= k < |s.cond| ==> s.cond[k] < p.Workers() && s.pcs[s.cond[k]] == Waiting)
    && (forall k, l :: 0 <= k < l < |s.cond| ==> s.cond[k] != s.cond[l])
    && (forall i :: 0 <= i < p.Workers() && s.pcs[i] == Choosing ==> s.cond != [])
  }

  ghost predicate Rounds(p: Params, s: State)
    requires Shaped(p, s)
  {
    forall i :: 0 <= i < p.Workers() ==>
      && s.done[i] <= p.rounds && (InRound(s.pcs[i]) ==> s.done[i] < p.rounds)
      && (s.pcs[i] == Done ==> s.done[i] == p.rounds)
  }

  ghost predicate Safe(p: Params, s: State)
  {
    Shaped(p, s) && Mutex(p, s) && Buffer(p, s) && WaitList(p, s) && Rounds(p, s)
  }

  lemma {:induction false} InitSafe(p: Params)
    ensures Safe(p, Init(p))
  {
    BalanceZero(p, Init(p).done, p.Workers());
  }

  lemma {:induction false} BalanceZero(p: Params, done: seq<nat>, n: nat)
    requires n <= |done| && forall i :: 0 <= i < |done| ==> done[i] == 0
    ensures Balance(p, done, n) == 0
  {
    if n > 0 {
      BalanceZero(p, done, n - 1);
    }
  }

  lemma {:induction false} TestSafe(p: Params, s: State, i: nat)
    requires Safe(p, s) && i < p.Workers() && !s.locked && i !in s.cond
    requires s.done[i] < p.rounds
    ensures Safe(p, Test(p, s.(locked := true), i))
  {
    var s' := Test(p, s.(locked := true), i);
    assert Holds(s'.pcs[i]);
  }

  /** A worker without the mutex moves to another place without it. */
  lemma {:induction false} MoveSafe(p: Params, s: State, i: nat, pc: Pc)
    requires Safe(p, s) && i < p.Workers() && i !in s.cond && !Holds(s.pcs[i]) && !Holds(pc)
    requires (InRound(pc) ==> s.done[i] < p.rounds) && (pc == Done ==> s.done[i] == p.rounds)
    ensures Safe(p, s.(pcs := s.pcs[i := pc]))
  {
    var s' := s.(pcs := s.pcs[i := pc]);
    forall j | 0 <= j < p.Workers() ensures Holds(s'.pcs[j]) <==> Holds(s.pcs[j]) { }
  }

  lemma {:induction false} AcquireSafe(p: Params, s: State, i: nat, blocked: Pc)
    requires Safe(p, s) && i < p.Workers() && i !in s.cond && !Holds(s.pcs[i]) && s.done[i] < p.rounds
    requires blocked == Locking || blocked == Relocking
    ensures Safe(p, Acquire(p, s, i, blocked))
  {
    if s.locked { MoveSafe(p, s, i, blocked); } else { TestSafe(p, s, i); }
  }

  lemma {:induction false} LeaveSafe(p: Params, s: State, i: nat)
    requires Safe(p, s) && i < p.Workers() && s.pcs[i] == Leaving
    ensures Safe(p, Resume(p, s, i))
  {
    var s' := Resume(p, s, i);
    assert s'.locked <==> exists j :: 0 <= j < p.Workers() && Holds(s'.pcs[j]);
    forall k | 0 <= k < |s'.cond| ensures s'.pcs[s'.cond[k]] == Waiting { }
  }

  /** One production or consumption. */
  lemma {:induction false} CountSafe(p: Params, s: State, i: nat)
    requires Safe(p, s) && i < p.Workers() && s.pcs[i] == Inside
    ensures Safe(p, Resume(p, s, i))
  {
    var s' := Resume(p, s, i);
    BalanceUpdate(p, s.done, i, p.Workers());
    assert s'.locked <==> exists j :: 0 <= j < p.Workers() && Holds(s'.pcs[j]);
    forall k | 0 <= k < |s'.cond| ensures s'.pcs[s'.cond[k]] == Waiting { }
  }

  lemma {:induction false} ResumeSafe(p: Params, s: State, i: nat)
    requires Safe(p, s) && i < p.Workers() && s.pcs[i] != Choosing
    ensures Safe(p, Resume(p, s, i))
  {
    var pc := s.pcs[i];
    assert i in s.cond ==> pc == Waiting;
    if pc == Leaving {
      LeaveSafe(p, s, i);
    } else if pc == Inside {
      CountSafe(p, s, i);
    } else if (pc == Start || pc == Unlocked) && s.done[i] >= p.rounds {
      MoveSafe(p, s, i, Done);
    } else if pc != Done && i !in s.cond {
      AcquireSafe(p, s, i, if pc == Waiting || pc == Relocking then Relocking else Locking);
    }
  }

  lemma {:induction false} RemoveKeeps(cond: seq<nat>, t: nat)
    requires forall k, l :: 0 <= k < l < |cond| ==> cond[k] != cond[l]
    ensures var r := Remove(cond, t);
            && (forall k, l :: 0 <= k < l < |r| ==> r[k] != r[l])
            && (forall x :: x in r <==> x in cond && x != t)
  {
    if cond != [] {
      RemoveKeeps(cond[1..], t);
      assert cond == [cond[0]] + cond[1..];
      assert cond[0] !in cond[1..];
      var r := Remove(cond[1..], t);
      assert forall k :: 0 <= k < |r| ==> r[k] in r;
    }
  }

  lemma {:induction false} SignalSafe(p: Params, s: State, i: nat, t: nat)
    requires Safe(p, s) && i < p.Workers() && s.pcs[i] == Choosing
    ensures Safe(p, Signal(p, s, i, t))
  {
    var s' := Signal(p, s, i, t);
    RemoveKeeps(s.cond, t);
    forall j | 0 <= j < p.Workers() ensures Holds(s'.pcs[j]) <==> Holds(s.pcs[j]) { }
    forall k | 0 <= k < |s'.cond| ensures s'.cond[k] in s.cond { assert s'.cond[k] in s'.cond; }
  }

  lemma {:induction false} StepSafe(p: Params, s: State, i: nat, s': State)
    requires Safe(p, s) && Step(p, s, i, s')
    ensures Safe(p, s')
  {
    if s.pcs[i] == Choosing {
      var t :| t in s.cond && s' == Signal(p, s, i, t);
      SignalSafe(p, s, i, t);
    } else {
      ResumeSafe(p, s, i);
    }
  }

  /** In every reachable state of every interleaving, for any numbers of producers, consumers and
      rounds: mutual exclusion, a buffer within its bounds that neither loses nor invents an item,
      and a proper wait list. */
  lemma {:induction false} EveryRunSafe(p: Params, run: seq<State>, k: nat)
    requires IsRun(p, run) && k < |run|
    ensures Safe(p, run[k])
  {
    if k == 0 {
      InitSafe(p);
    } else {
      EveryRunSafe(p, run, k - 1);
      var s := run[k - 1];
      assert Next(p, s, run[k]);
      var i: nat :| Step(p, s, i, run[k]);
      StepSafe(p, s, i, run[k]);
    }
  }

  // ----- who can still move -----

  /** The mutex is free, and every worker is over or on the wait list. */
  ghost predicate Asleep(p: Params, s: State)
    requires Shaped(p, s)
  {
    !s.locked && forall i :: 0 <= i < p.Workers() ==> s.pcs[i] == Done || i in s.cond
  }

  ghost predicate Moves(p: Params, s: State)
    requires Shaped(p, s)
  {
    exists i, s' :: Step(p, s, i, s') && s' != s
  }

  lemma {:induction false} WorkerMoves(p: Params, s: State, i: nat)
    requires Safe(p, s) && i < p.Workers() && s.pcs[i] != Done && i !in s.cond
    requires s.locked ==> Holds(s.pcs[i])
    ensures Moves(p, s)
  {
    if s.pcs[i] == Choosing {
      var s' := Signal(p, s, i, s.cond[0]);
      assert s.cond[0] in s.cond && s'.pcs[i] == Inside;
      assert Step(p, s, i, s');
    } else {
      var s' := Resume(p, s, i);
      assert s'.pcs[i] != s.pcs[i];
      assert Step(p, s, i, s');
    }
  }

  /** The only way to get stuck is that everyone left sleeps. */
  lemma {:induction false} StuckIsAsleep(p: Params, s: State)
    requires Safe(p, s)
    ensures Moves(p, s) <==> !Asleep(p, s)
  {
    if s.locked {
      var i: nat :| 0 <= i < p.Workers() && Holds(s.pcs[i]);
      WorkerMoves(p, s, i);
    } else if !Asleep(p, s) {
      var i: nat :| 0 <= i < p.Workers() && s.pcs[i] != Done && i !in s.cond;
      WorkerMoves(p, s, i);
    } else {
      forall i, s' | Step(p, s, i, s') ensures s' == s {
        assert i in s.cond;
      }
    }
  }

  // ----- the wrong wake-up -----

  ghost predicate Reachable(p: Params, s: State)
  {
    exists run :: IsRun(p, run) && run[|run| - 1] == s
  }

  lemma {:induction false} ReachNext(p: Params, s: State, i: nat, s': State)
    requires Shaped(p, s) && Shaped(p, s') && Reachable(p, s) && Step(p, s, i, s')
    ensures Reachable(p, s')
  {
    var run :| IsRun(p, run) && run[|run| - 1] == s;
    assert Next(p, s, s');
    assert IsRun(p, run + [s']);
  }

  /** The worker may take the mutex now. */
  ghost predicate MayEnter(p: Params, s: State, i: nat)
  {
    && Shaped(p, s) && Reachable(p, s) && !s.locked && i < p.Workers() && i !in s.cond && s.done[i] < p.rounds
    && (s.pcs[i] == Start || s.pcs[i] == Unlocked || s.pcs[i] == Waiting)
    && forall j :: 0 <= j < p.Workers() ==> s.pcs[j] != Choosing
  }

  /** After a worker has gone to sleep. */
  function Slept(s: State, i: nat): (s': State)
    requires i < |s.pcs|
  {
    s.(cond := s.cond + [i], pcs := s.pcs[i := Waiting])
  }

  /** After a worker has completed a round and has woken t. */
  function Passed(p: Params, s: State, i: nat, t: nat): (s': State)
    requires i < |s.pcs| && i < |s.done|
  {
    s.(cond := Remove(s.cond, t), pcs := s.pcs[i := Unlocked],
       count := s.count + p.Delta(i), done := s.done[i := s.done[i] + 1])
  }

  lemma {:induction false} ReachSlept(p: Params, s: State, i: nat)
    requires MayEnter(p, s, i) && !(0 <= s.count + p.Delta(i) <= 1)
    ensures Shaped(p, Slept(s, i)) && Reachable(p, Slept(s, i))
  {
    var s1 := Resume(p, s, i);
    ReachNext(p, s, i, s1);
    assert s1.pcs[i := Waiting] == s.pcs[i := Waiting];
    ReachNext(p, s1, i, Slept(s, i));
  }

  /** A worker has passed its test and has signalled. */
  lemma {:induction false} ReachInside(p: Params, s: State, i: nat, t: nat)
    requires MayEnter(p, s, i) && 0 <= s.count + p.Delta(i) <= 1 && (s.cond == [] || t in s.cond)
    ensures var s' := s.(locked := true, cond := Remove(s.cond, t), pcs := s.pcs[i := Inside]);
            Shaped(p, s') && Reachable(p, s')
  {
    var s1 := Resume(p, s, i);
    ReachNext(p, s, i, s1);
    if s.cond != [] {
      var s2 := Signal(p, s1, i, t);
      assert s1.pcs[i := Inside] == s.pcs[i := Inside];
      ReachNext(p, s1, i, s2);
    }
  }

  lemma {:induction false} ReachPassed(p: Params, s: State, i: nat, t: nat)
    requires MayEnter(p, s, i) && 0 <= s.count + p.Delta(i) <= 1 && (s.cond == [] || t in s.cond)
    ensures Shaped(p, Passed(p, s, i, t)) && Reachable(p, Passed(p, s, i, t))
  {
    ReachInside(p, s, i, t);
    var s' := s.(locked := true, cond := Remove(s.cond, t), pcs := s.pcs[i := Inside]);
    assert s'.pcs[i := Unlocked] == s.pcs[i := Unlocked];
    ReachNext(p, s', i, Passed(p, s, i, t));
  }

  // ----- pair after pair, up to the last rounds -----

  /** Nobody is inside, nobody waits, the buffer is empty. */
  ghost predicate Quiet(p: Params, s: State)
  {
    && Shaped(p, s) && Reachable(p, s) && !s.locked && s.count == 0 && s.cond == []
    && forall i :: 0 <= i < p.Workers() ==> s.pcs[i] == Start || s.pcs[i] == Unlocked
  }

  /** The number of a worker among its kind. */
  function Rank(p: Params, i: nat): (k: nat) { if i < p.producers then i else i - p.producers }

  /** The pairs of a producer and a consumer below m have done r rounds, those from t on one more; whoever
      is not part of a pair has done none. */
  ghost predicate Ahead(p: Params, s: State, m: nat, r: nat, t: nat)
    requires Shaped(p, s)
  {
    forall i :: 0 <= i < p.Workers() ==>
      s.done[i] == if Rank(p, i) >= m then 0 else if Rank(p, i) < t then r else r + 1
  }

  lemma {:induction false} PairRound(p: Params, s: State, i: nat, j: nat) returns (s': State)
    requires Quiet(p, s) && i < p.producers <= j < p.Workers() && s.done[i] < p.rounds && s.done[j] < p.rounds
    ensures Quiet(p, s') && s'.done == s.done[i := s.done[i] + 1][j := s.done[j] + 1]
  {
    ReachPassed(p, s, i, 0);
    var s1 := Passed(p, s, i, 0);
    ReachPassed(p, s1, j, 0);
    s' := Passed(p, s1, j, 0);
  }

  lemma {:induction false} ReachAhead(p: Params, m: nat, r: nat, t: nat) returns (s: State)
    requires m <= p.producers && m <= p.consumers && r < p.rounds && t <= m
    ensures Quiet(p, s) && Ahead(p, s, m, r, t)
    decreases r, m - t
  {
    if t == m {
      if r == 0 {
        s := Init(p);
        assert IsRun(p, [s]);
        assert [s][|[s]| - 1] == s;
      } else {
        s := ReachAhead(p, m, r - 1, 0);
      }
    } else {
      var s1 := ReachAhead(p, m, r, t + 1);
      s := PairRound(p, s1, t, p.producers + t);
    }
  }

  /** Between rounds: not waiting, and either without a round left or without a reason to enter. */
  ghost predicate Settled(p: Params, s: State, i: nat)
    requires Shaped(p, s) && i < p.Workers()
  {
    (s.pcs[i] == Start || s.pcs[i] == Unlocked) && (s.done[i] >= p.rounds || !(0 <= s.count + p.Delta(i) <= 1))
  }

  /** Whoever has no round left ends, and whoever cannot enter sleeps. */
  lemma {:induction false} ReachAsleep(p: Params, s: State, k: nat) returns (s': State)
    requires Shaped(p, s) && Reachable(p, s) && !s.locked && k <= p.Workers()
    requires forall i :: 0 <= i < p.Workers() ==> s.pcs[i] != Choosing
    requires forall i :: 0 <= i < k ==> s.pcs[i] == Done || i in s.cond
    requires forall i :: k <= i < p.Workers() ==> i in s.cond || Settled(p, s, i)
    ensures Shaped(p, s') && Reachable(p, s') && Asleep(p, s') && s'.done == s.done && s'.count == s.count && s.cond <= s'.cond
    decreases p.Workers() - k
  {
    if k == p.Workers() {
      s' := s;
    } else if k in s.cond {
      s' := ReachAsleep(p, s, k + 1);
    } else if s.done[k] >= p.rounds {
      var s1 := Resume(p, s, k);
      ReachNext(p, s, k, s1);
      s' := ReachAsleep(p, s1, k + 1);
    } else {
      ReachSlept(p, s, k);
      s' := ReachAsleep(p, Slept(s, k), k + 1);
    }
  }

  // ----- more of one kind than of the other -----

  /** Rounds that nobody can answer: consumers without producers wait at an empty buffer, producers without
      consumers at a full one. */
  lemma {:induction false} Unanswered(p: Params) returns (s: State, i: nat)
    requires p.rounds >= 1
    requires p.producers < p.consumers || p.producers > p.consumers + 1 || (p.producers > p.consumers && p.rounds >= 2)
    ensures Shaped(p, s) && Reachable(p, s) && Asleep(p, s) && i < p.Workers() && s.done[i] < p.rounds
  {
    if p.producers < p.consumers {
      s := ReachAhead(p, p.producers, p.rounds - 1, 0);
      i := p.Workers() - 1;
    } else {
      s := ReachAhead(p, p.consumers, p.rounds - 1, 0);
      ReachPassed(p, s, p.consumers, 0);
      s := Passed(p, s, p.consumers, 0);
      i := if p.rounds >= 2 then p.consumers else p.consumers + 1;
    }
    s := ReachAsleep(p, s, 0);
  }

  // ----- two of each kind -----

  /** Of the pairs below m, only the workers in who have a round left, and it is their last one; the
      others have not started. */
  ghost predicate Left(p: Params, s: State, m: nat, who: set<nat>)
  {
    && Shaped(p, s) && Reachable(p, s) && !s.locked
    && forall i :: 0 <= i < p.Workers() ==>
         if i in who then s.done[i] == p.rounds - 1 && (s.pcs[i] == Start || s.pcs[i] == Unlocked || s.pcs[i] == Waiting)
         else (s.pcs[i] == Start || s.pcs[i] == Unlocked) && s.done[i] == if Rank(p, i) < m then p.rounds else 0
  }

  lemma {:induction false} LeftSlept(p: Params, s: State, m: nat, who: set<nat>, i: nat) returns (s': State)
    requires p.rounds >= 1 && Left(p, s, m, who) && i in who && i < p.Workers() && i !in s.cond
    requires !(0 <= s.count + p.Delta(i) <= 1)
    ensures Left(p, s', m, who) && s'.cond == s.cond + [i] && s'.count == s.count
  {
    ReachSlept(p, s, i);
    s' := Slept(s, i);
  }

  lemma {:induction false} LeftPassed(p: Params, s: State, m: nat, who: set<nat>, i: nat, t: nat) returns (s': State)
    requires p.rounds >= 1 && Left(p, s, m, who) && i in who && i < p.Workers() && Rank(p, i) < m && i !in s.cond && t in s.cond
    requires 0 <= s.count + p.Delta(i) <= 1
    ensures Left(p, s', m, who - {i}) && s'.cond == Remove(s.cond, t) && s'.count == s.count + p.Delta(i)
  {
    ReachPassed(p, s, i, t);
    s' := Passed(p, s, i, t);
  }

  /** Two pairs at least, m in all, and the first two consumers. */
  ghost predicate TwoPairs(p: Params, m: nat, c: nat, d: nat)
  {
    2 <= m <= p.producers && m <= p.consumers && p.rounds >= 1 && c == p.producers && d == c + 1
  }

  lemma {:induction false} LastRounds(p: Params, m: nat, c: nat, d: nat) returns (s: State)
    requires TwoPairs(p, m, c, d)
    ensures Left(p, s, m, {0, 1, c, d}) && s.cond == [] && s.count == 0
  {
    s := ReachAhead(p, m, p.rounds - 1, 2);
  }

  lemma {:induction false} BothSleep(p: Params, m: nat, c: nat, d: nat) returns (s: State)
    requires TwoPairs(p, m, c, d)
    ensures Left(p, s, m, {0, 1, c, d}) && s.cond == [c, d] && s.count == 0
  {
    var who := {0, 1, c, d};
    s := LastRounds(p, m, c, d);
    s := LeftSlept(p, s, m, who, c);
    s := LeftSlept(p, s, m, who, d);
  }

  /** Both consumers sleep, and a producer fills the buffer and wakes one of them. */
  lemma {:induction false} OneIsWoken(p: Params, m: nat, c: nat, d: nat) returns (s: State)
    requires TwoPairs(p, m, c, d)
    ensures Left(p, s, m, {1, c, d}) && s.cond == [d] && s.count == 1
  {
    s := BothSleep(p, m, c, d);
    assert Remove([c, d], c) == [d];
    s := LeftPassed(p, s, m, {0, 1, c, d}, 0, c);
    assert {0, 1, c, d} - {0} == {1, c, d};
  }

  /** The other producer sleeps, the consumer empties the buffer and wakes the other consumer. */
  lemma {:induction false} OtherIsWoken(p: Params, m: nat, c: nat, d: nat) returns (s: State)
    requires TwoPairs(p, m, c, d)
    ensures Left(p, s, m, {1, d}) && s.cond == [1] && s.count == 0
  {
    var who := {1, c, d};
    s := OneIsWoken(p, m, c, d);
    s := LeftSlept(p, s, m, who, 1);
    assert Remove([d, 1], d) == [1];
    s := LeftPassed(p, s, m, who, c, d);
    assert who - {c} == {1, d};
  }

  /** A producer without a partner fills the buffer and wakes the sleeping producer, which sleeps again. */
  lemma {:induction false} SpareProducer(p: Params, m: nat, d: nat, s: State) returns (s': State)
    requires TwoPairs(p, m, p.producers, d) && m == p.consumers < p.producers
    requires Left(p, s, m, {1, d}) && s.cond == [1, d] && s.count == 0 && s.pcs[1] == Waiting
    ensures Shaped(p, s') && Reachable(p, s') && !s'.locked && s'.cond == [d, 1] && s'.count == 1
    ensures forall i :: 0 <= i < p.Workers() ==> s'.pcs[i] != Choosing && (i in s'.cond || Settled(p, s', i))
  {
    assert Remove([1, d], 1) == [d];
    ReachPassed(p, s, m, 1);
    var s1 := Passed(p, s, m, 1);
    ReachSlept(p, s1, 1);
    s' := Slept(s1, 1);
    assert s'.cond == [d, 1] && d in s'.cond && 1 in s'.cond;
  }

  /** The producer and the consumer that are left both sleep. */
  lemma {:induction false} WrongOnesSleep(p: Params, m: nat, d: nat) returns (s: State)
    requires TwoPairs(p, m, p.producers, d)
    ensures Left(p, s, m, {1, d}) && s.cond == [1, d] && s.count == 0 && s.pcs[1] == Waiting
  {
    s := OtherIsWoken(p, m, p.producers, d);
    s := LeftSlept(p, s, m, {1, d}, d);
    ListedWait(p, s);
    assert s.cond[0] == 1;
  }

  /** A signal may wake a worker of the wrong kind. As soon as there are two producers and two
      consumers, a producer and a consumer can end up asleep for good. */
  lemma {:induction false} WrongWakeUp(p: Params) returns (s: State)
    requires p.producers >= 2 && p.consumers >= 2 && p.rounds >= 1
    ensures Shaped(p, s) && Reachable(p, s) && Asleep(p, s) && 1 in s.cond && p.producers + 1 in s.cond
  {
    var m := if p.producers < p.consumers then p.producers else p.consumers;
    var d := p.producers + 1;
    s := WrongOnesSleep(p, m, d);
    if m < p.producers {
      s := SpareProducer(p, m, d, s);
    }
    var before := s.cond;
    assert before[0] in before && before[1] in before;
    s := ReachAsleep(p, s, 0);
    assert before[0] in s.cond && before[1] in s.cond;
  }

  // ----- one of each kind, or a round to spare -----

  lemma {:induction false} ListedWait(p: Params, s: State)
    requires Reachable(p, s)
    ensures Safe(p, s) && forall i :: i in s.cond ==> i < p.Workers() && s.pcs[i] == Waiting
  {
    ReachableSafe(p, s);
  }

  /** At most one of each kind and as many of both; or one producer more, for a single round. */
  ghost predicate Small(p: Params)
  {
    && p.consumers <= 1 && p.rounds >= 1
    && (p.producers == p.consumers || (p.producers == p.consumers + 1 && p.rounds == 1))
  }

  /** Whoever sleeps, or is about to, has no reason to be awake, and is not being passed by. */
  ghost predicate Alternates(p: Params, s: State)
    requires Shaped(p, s)
  {
    && (forall i :: 0 <= i < p.Workers() && (i in s.cond || s.pcs[i] == Leaving) ==> !(0 <= s.count + p.Delta(i) <= 1))
    && (forall i, j :: 0 <= i < p.Workers() && 0 <= j < p.Workers() && i in s.cond && p.Delta(i) != p.Delta(j) ==>
          s.pcs[j] != Inside)
  }

  /** While a worker is past its test and its signal, nobody is on the wait list. */
  lemma {:induction false} NotListed(p: Params, s: State, i: nat, j: nat)
    requires Safe(p, s) && Alternates(p, s) && i < p.Workers() && s.pcs[i] == Inside && j < p.Workers()
    ensures j !in s.cond
  {
  }

  lemma {:induction false} CountAlternates(p: Params, s: State, i: nat)
    requires Safe(p, s) && Alternates(p, s) && i < p.Workers() && s.pcs[i] == Inside
    ensures Alternates(p, Resume(p, s, i))
  {
    var s' := Resume(p, s, i);
    assert forall j :: 0 <= j < p.Workers() && j != i ==> !Holds(s.pcs[j]);
    forall j: nat | j < p.Workers() ensures j !in s'.cond {
      NotListed(p, s, i, j);
    }
  }

  lemma {:induction false} LeaveAlternates(p: Params, s: State, i: nat)
    requires Safe(p, s) && Alternates(p, s) && i < p.Workers() && s.pcs[i] == Leaving
    ensures Alternates(p, Resume(p, s, i))
  {
    assert forall j :: 0 <= j < p.Workers() && j != i ==> !Holds(s.pcs[j]);
  }

  lemma {:induction false} AcquireAlternates(p: Params, s: State, i: nat, blocked: Pc)
    requires Safe(p, s) && Alternates(p, s) && i < p.Workers() && i !in s.cond && (blocked == Locking || blocked == Relocking)
    ensures Alternates(p, Acquire(p, s, i, blocked))
  {
  }

  lemma {:induction false} ResumeAlternates(p: Params, s: State, i: nat)
    requires Safe(p, s) && Alternates(p, s) && i < p.Workers() && s.pcs[i] != Choosing
    ensures Alternates(p, Resume(p, s, i))
  {
    var pc := s.pcs[i];
    assert i in s.cond ==> pc == Waiting;
    if pc == Inside {
      CountAlternates(p, s, i);
    } else if pc == Leaving {
      LeaveAlternates(p, s, i);
    } else if i !in s.cond {
      AcquireAlternates(p, s, i, if pc == Waiting || pc == Relocking then Relocking else Locking);
    }
  }

  lemma {:induction false} BalanceNext(p: Params, done: seq<nat>, n: nat, b: int)
    requires n < |done| && b == Balance(p, done, n)
    ensures Balance(p, done, n + 1) == if n < p.producers then b + done[n] else b - done[n]
  {
  }

  /** What the count says about who has done a round: a producer alone, */
  lemma {:induction false} BalanceOfOne(p: Params, done: seq<nat>)
    requires p.producers == 1 && p.consumers == 0 && |done| == p.Workers()
    ensures Balance(p, done, |done|) == done[0]
  {
    BalanceNext(p, done, |done| - 1, 0);
  }

  /** a producer and a consumer, */
  lemma {:induction false} BalanceOfTwo(p: Params, done: seq<nat>)
    requires p.producers == 1 && p.consumers == 1 && |done| == p.Workers()
    ensures Balance(p, done, |done|) == (done[0] as int) - (done[1] as int)
  {
    BalanceNext(p, done, |done| - 2, 0);
    BalanceNext(p, done, |done| - 1, done[0]);
  }

  /** or two producers and a consumer. */
  lemma {:induction false} BalanceOfThree(p: Params, done: seq<nat>)
    requires p.producers == 2 && p.consumers == 1 && |done| == p.Workers()
    ensures Balance(p, done, |done|) == (done[0] as int) + (done[1] as int) - (done[2] as int)
  {
    BalanceNext(p, done, |done| - 3, 0);
    BalanceNext(p, done, |done| - 2, done[0]);
    BalanceNext(p, done, |done| - 1, done[0] + done[1]);
  }

  /** In a small protocol the only worker that can be signalled is the one that has to be. */
  lemma {:induction false} RightWakeUp(p: Params, s: State, i: nat, t: nat, j: nat)
    requires Small(p) && Reachable(p, s) && Safe(p, s) && Alternates(p, s) && i < p.Workers() && s.pcs[i] == Choosing
    requires t in s.cond && j in s.cond
    ensures t == j
  {
    ListedWait(p, s);
    assert InRound(s.pcs[i]) && InRound(s.pcs[t]) && InRound(s.pcs[j]);
    if p.producers == 2 {
      BalanceOfThree(p, s.done);
    }
  }

  lemma {:induction false} SignalAlternates(p: Params, s: State, i: nat, t: nat)
    requires Small(p) && Reachable(p, s) && Safe(p, s) && Alternates(p, s)
    requires i < p.Workers() && s.pcs[i] == Choosing && t in s.cond
    ensures Alternates(p, Signal(p, s, i, t))
  {
    RemoveKeeps(s.cond, t);
    forall j | j in s.cond ensures j == t {
      RightWakeUp(p, s, i, t, j);
    }
  }

  lemma {:induction false} StepAlternates(p: Params, s: State, i: nat, s': State)
    requires Small(p) && Reachable(p, s) && Safe(p, s) && Alternates(p, s) && Step(p, s, i, s')
    ensures Alternates(p, s')
  {
    if s.pcs[i] == Choosing {
      var t :| t in s.cond && s' == Signal(p, s, i, t);
      SignalAlternates(p, s, i, t);
    } else {
      ResumeAlternates(p, s, i);
    }
  }

  lemma {:induction false} EveryRunAlternates(p: Params, run: seq<State>, k: nat)
    requires Small(p) && IsRun(p, run) && k < |run|
    ensures Alternates(p, run[k])
  {
    if k > 0 {
      EveryRunAlternates(p, run, k - 1);
      EveryRunSafe(p, run, k - 1);
      var s := run[k - 1];
      assert Next(p, s, run[k]);
      var i: nat :| Step(p, s, i, run[k]);
      PrefixReachable(p, run, k - 1);
      StepAlternates(p, s, i, run[k]);
    }
  }

  lemma {:induction false} PrefixReachable(p: Params, run: seq<State>, k: nat)
    requires IsRun(p, run) && k < |run|
    ensures Reachable(p, run[k])
  {
    var part := run[..k + 1];
    assert IsRun(p, part) && part[|part| - 1] == run[k];
  }

  /** In a small protocol nobody sleeps for good: when nobody can move any more, all rounds are over. */
  lemma {:induction false} SmallEnds(p: Params, s: State)
    requires Small(p) && Shaped(p, s) && Reachable(p, s) && !Moves(p, s)
    ensures forall i :: 0 <= i < p.Workers() ==> s.pcs[i] == Done && s.done[i] == p.rounds
  {
    var run :| IsRun(p, run) && run[|run| - 1] == s;
    EveryRunAlternates(p, run, |run| - 1);
    ListedWait(p, s);
    StuckIsAsleep(p, s);
    forall i: nat | i < p.Workers() ensures i !in s.cond {
      NoneSleeps(p, s, i);
    }
  }

  /** Beside a worker asleep, everyone of the other kind has done all rounds. */
  lemma {:induction false} SleeperFacts(p: Params, s: State, i: nat)
    requires Safe(p, s) && Alternates(p, s) && Asleep(p, s) && i < p.Workers() && i in s.cond && s.pcs[i] == Waiting
    ensures s.done[i] < p.rounds && s.count == if i < p.producers then 1 else 0
    ensures forall j :: 0 <= j < p.Workers() && p.Delta(i) != p.Delta(j) ==> s.done[j] == p.rounds
  {
    assert InRound(s.pcs[i]);
    forall j | 0 <= j < p.Workers() && p.Delta(i) != p.Delta(j) ensures s.done[j] == p.rounds {
      assert j !in s.cond;
    }
  }

  /** Which does not add up. */
  lemma {:induction false} SleeperCounts(p: Params, done: seq<nat>, i: nat)
    requires Small(p) && |done| == p.Workers() && i < p.Workers()
    requires done[i] < p.rounds && (forall j :: 0 <= j < p.Workers() ==> done[j] <= p.rounds)
    requires forall j :: 0 <= j < p.Workers() && p.Delta(i) != p.Delta(j) ==> done[j] == p.rounds
    ensures Balance(p, done, |done|) != if i < p.producers then 1 else 0
  {
    if p.consumers == 0 {
      BalanceOfOne(p, done);
    } else if p.producers == 1 {
      BalanceOfTwo(p, done);
      assert p.Delta(0) != p.Delta(1);
    } else {
      BalanceOfThree(p, done);
      assert p.Delta(0) != p.Delta(2) && p.Delta(1) != p.Delta(2);
    }
  }

  lemma {:induction false} NoneSleeps(p: Params, s: State, i: nat)
    requires Small(p) && Safe(p, s) && Alternates(p, s) && Asleep(p, s) && i < p.Workers()
    requires i in s.cond ==> s.pcs[i] == Waiting
    ensures i !in s.cond
  {
    if i in s.cond {
      SleeperFacts(p, s, i);
      SleeperCounts(p, s.done, i);
    }
  }

  // ----- exactly when -----

  ghost predicate Unfinished(p: Params, s: State)
    requires Shaped(p, s)
  {
    exists i :: 0 <= i < p.Workers() && s.pcs[i] != Done
  }

  ghost predicate CanGetStuck(p: Params)
  {
    exists s :: Shaped(p, s) && Reachable(p, s) && !Moves(p, s) && Unfinished(p, s)
  }

  lemma {:induction false} StuckHere(p: Params, s: State, i: nat)
    requires Shaped(p, s) && Reachable(p, s) && Asleep(p, s) && i < p.Workers() && (s.done[i] < p.rounds || i in s.cond)
    ensures CanGetStuck(p)
  {
    ListedWait(p, s);
    StuckIsAsleep(p, s);
    assert s.pcs[i] != Done;
    assert Unfinished(p, s);
  }

  lemma {:induction false} NothingToDo(p: Params, s: State)
    requires p.rounds == 0 && Shaped(p, s) && Reachable(p, s) && !Moves(p, s)
    ensures !Unfinished(p, s)
  {
    ListedWait(p, s);
    StuckIsAsleep(p, s);
    assert forall i :: i in s.cond ==> InRound(s.pcs[i]);
  }

  /** For any numbers of producers, consumers and rounds: a run can get stuck before its end, unless there
      is nothing to do, or at most one of each kind and as many of both, or one round and one producer more
      than the at most one consumer. */
  lemma {:induction false} StuckExactly(p: Params)
    ensures CanGetStuck(p) <==>
            && p.rounds >= 1
            && !(p.producers == p.consumers <= 1)
            && !(p.producers == p.consumers + 1 <= 2 && p.rounds == 1)
  {
    if p.rounds == 0 {
      forall s | Shaped(p, s) && Reachable(p, s) && !Moves(p, s) ensures !Unfinished(p, s) {
        NothingToDo(p, s);
      }
    } else if Small(p) {
      forall s | Shaped(p, s) && Reachable(p, s) && !Moves(p, s) ensures !Unfinished(p, s) {
        SmallEnds(p, s);
      }
    } else if p.producers >= 2 && p.consumers >= 2 {
      var s := WrongWakeUp(p);
      StuckHere(p, s, 1);
    } else {
      var s, i := Unanswered(p);
      StuckHere(p, s, i);
    }
  }

  lemma {:induction false} ReachableSafe(p: Params, s: State)
    requires Reachable(p, s)
    ensures Safe(p, s)
  {
    var run :| IsRun(p, run) && run[|run| - 1] == s;
    EveryRunSafe(p, run, |run| - 1);
  }
}
