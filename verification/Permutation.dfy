/** Permutations of the indices below n, as sequences. */
module Permutation {

  ghost predicate Injective(p: seq<nat>)
  {
    forall i, j :: 0 <= i < j < |p| ==> p[i] != p[j]
  }

  ghost predicate IsPermutation(p: seq<nat>, n: nat)
  {
    |p| == n && Injective(p) && forall i :: 0 <= i < n ==> p[i] < n
  }

  /** There are at most m different numbers below m. */
  lemma {:induction false} Pigeonhole(p: seq<nat>, m: nat)
    requires Injective(p) && forall i :: 0 <= i < |p| ==> p[i] < m
    ensures |p| <= m
  {
    if i :| 0 <= i < |p| && p[i] == m - 1 {
      Pigeonhole(p[..i] + p[i + 1..], m - 1);
    } else if p != [] {
      assert p[0] < m - 1;
      Pigeonhole(p, m - 1);
    }
  }

  lemma {:induction false} OneReaches(p: seq<nat>, m: nat) returns (k: nat)
    requires Injective(p) && |p| > m
    ensures k < |p| && p[k] >= m
  {
    if j :| 0 <= j < |p| && p[j] >= m {
      k := j;
    } else {
      Pigeonhole(p, m);
      assert false;
    }
  }

  /** A permutation reaches every index. */
  lemma {:induction false} Reaches(p: seq<nat>, n: nat, v: nat) returns (k: nat)
    requires IsPermutation(p, n) && v < n
    ensures k < n && p[k] == v
  {
    if j :| 0 <= j < n && p[j] == v {
      k := j;
    } else {
      var q := seq(n, i requires 0 <= i < n => if p[i] > v then p[i] - 1 else p[i]);
      k := OneReaches(q, n - 1);
      assert false;
    }
  }
}
