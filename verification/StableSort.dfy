/** Counting sort: where a stable sort puts each of a sequence of small keys. */
module StableSort {
  import opened Permutation

  /** order lists the positions of the keys in the order of a stable sort. */
  ghost predicate IsStableSort(keys: seq<int>, order: seq<nat>)
  {
    && IsPermutation(order, |keys|)
    && forall p, q :: 0 <= p < q < |keys| ==>
         keys[order[p]] < keys[order[q]] || (keys[order[p]] == keys[order[q]] && order[p] < order[q])
  }

  /** Occurrences of key c among the first i. */
  function Count(keys: seq<int>, i: nat, c: int): (n: nat)
    requires i <= |keys|
    ensures n <= i
  {
    if i == 0 then 0 else Count(keys, i - 1, c) + if keys[i - 1] == c then 1 else 0
  }

  /** Keys smaller than c among the first i. */
  function Below(keys: seq<int>, i: nat, c: nat): (n: nat)
    requires i <= |keys|
  {
    if c == 0 then 0 else Below(keys, i, c - 1) + Count(keys, i, c - 1)
  }

  /** Where key i goes in a stable sort. */
  function Place(keys: seq<int>, i: nat): (n: nat)
    requires i < |keys| && keys[i] >= 0
  {
    Below(keys, |keys|, keys[i]) + Count(keys, i, keys[i])
  }

  lemma {:induction false} CountGrows(keys: seq<int>, i: nat, j: nat, c: int)
    requires i <= j <= |keys|
    ensures Count(keys, i, c) <= Count(keys, j, c)
    ensures i < j && keys[i] == c ==> Count(keys, i, c) < Count(keys, j, c)
  {
    if i < j {
      CountGrows(keys, i, j - 1, c);
    }
  }

  lemma {:induction false} BelowGrows(keys: seq<int>, i: nat, c: nat, d: nat)
    requires c < d && i <= |keys|
    ensures Below(keys, i, c) + Count(keys, i, c) <= Below(keys, i, d)
  {
    if c + 1 < d {
      BelowGrows(keys, i, c, d - 1);
    }
  }

  lemma {:induction false} BelowStep(keys: seq<int>, i: nat, c: nat)
    requires i < |keys| && keys[i] >= 0
    ensures Below(keys, i + 1, c) == Below(keys, i, c) + if keys[i] < c then 1 else 0
  {
    if c > 0 {
      BelowStep(keys, i, c - 1);
    }
  }

  lemma {:induction false} BelowAll(keys: seq<int>, i: nat, m: nat)
    requires i <= |keys| && forall k :: 0 <= k < |keys| ==> 0 <= keys[k] < m
    ensures Below(keys, i, m) == i
  {
    if i > 0 {
      BelowAll(keys, i - 1, m);
      BelowStep(keys, i - 1, m);
    } else {
      BelowNone(keys, m);
    }
  }

  lemma {:induction false} BelowNone(keys: seq<int>, c: nat)
    ensures Below(keys, 0, c) == 0
  {
    if c > 0 {
      BelowNone(keys, c - 1);
    }
  }

  ghost predicate Bytes(keys: seq<int>) { forall k :: 0 <= k < |keys| ==> 0 <= keys[k] < 256 }

  lemma {:induction false} PlaceOrder(keys: seq<int>, i: nat, j: nat)
    requires Bytes(keys) && i < |keys| && j < |keys|
    requires keys[i] < keys[j] || (keys[i] == keys[j] && i < j)
    ensures Place(keys, i) < Place(keys, j)
  {
    if keys[i] < keys[j] {
      CountGrows(keys, i, |keys|, keys[i]);
      BelowGrows(keys, |keys|, keys[i], keys[j]);
    } else {
      CountGrows(keys, i, j, keys[i]);
    }
  }

  lemma {:induction false} PlaceInRange(keys: seq<int>, i: nat)
    requires Bytes(keys) && i < |keys|
    ensures Place(keys, i) < |keys|
  {
    CountGrows(keys, i, |keys|, keys[i]);
    BelowGrows(keys, |keys|, keys[i], 256);
    BelowAll(keys, |keys|, 256);
  }

  /** Links that send the place of every byte back to it are the order of the stable sort. */
  lemma {:induction false} PlacesAreStableSort(keys: seq<int>, order: seq<nat>)
    requires Bytes(keys) && |order| == |keys|
    requires forall i {:trigger Place(keys, i)} :: 0 <= i < |keys| ==> Place(keys, i) < |keys| && order[Place(keys, i)] == i
    ensures IsStableSort(keys, order)
  {
    var n := |keys|;
    var places := seq(n, i requires 0 <= i < n => Place(keys, i));
    forall i, j | 0 <= i < j < n ensures places[i] != places[j] {
      if keys[i] <= keys[j] { PlaceOrder(keys, i, j); } else { PlaceOrder(keys, j, i); }
    }
    forall p | 0 <= p < n ensures order[p] < n && Place(keys, order[p]) == p {
      var k := Reaches(places, n, p);
    }
    forall p, q | 0 <= p < q < n
      ensures keys[order[p]] < keys[order[q]] || (keys[order[p]] == keys[order[q]] && order[p] < order[q])
    {
      if keys[order[q]] < keys[order[p]] || (keys[order[q]] == keys[order[p]] && order[q] < order[p]) {
        PlaceOrder(keys, order[q], order[p]);
      }
    }
  }

  lemma {:induction false} DistinctPlaces(keys: seq<int>, i: nat, j: nat)
    requires Bytes(keys) && i < j < |keys|
    ensures Place(keys, i) != Place(keys, j)
  {
    if keys[i] <= keys[j] { PlaceOrder(keys, i, j); } else { PlaceOrder(keys, j, i); }
  }

  /** Conversely, the stable sort finds every key at its place. */
  lemma {:induction false} StableSortPlaces(keys: seq<int>, order: seq<nat>, i: nat)
    requires Bytes(keys) && IsStableSort(keys, order) && i < |keys|
    ensures Place(keys, i) < |keys| && order[Place(keys, i)] == i
  {
    var n := |keys|;
    var places := seq(n, p requires 0 <= p < n => Place(keys, order[p]));
    forall p, q | 0 <= p < q < n ensures places[p] < places[q] {
      PlaceOrder(keys, order[p], order[q]);
    }
    forall p | 0 <= p < n ensures places[p] < n {
      PlaceInRange(keys, order[p]);
    }
    var k := Reaches(order, n, i);
    RisingIsIdentity(places, n, k);
  }

  lemma {:induction false} RisingIsIdentity(p: seq<nat>, n: nat, k: nat)
    requires |p| == n && k < n
    requires forall i, j :: 0 <= i < j < n ==> p[i] < p[j]
    requires forall i :: 0 <= i < n ==> p[i] < n
    ensures p[k] == k
  {
    RisingAbove(p, k);
    RisingBelow(p, n, k);
  }

  lemma {:induction false} RisingAbove(p: seq<nat>, k: nat)
    requires k < |p| && forall i, j :: 0 <= i < j < |p| ==> p[i] < p[j]
    ensures p[k] >= k
  {
    if k > 0 {
      RisingAbove(p, k - 1);
    }
  }

  lemma {:induction false} RisingBelow(p: seq<nat>, n: nat, k: nat)
    requires |p| == n && k < n
    requires forall i, j :: 0 <= i < j < n ==> p[i] < p[j]
    requires forall i :: 0 <= i < n ==> p[i] < n
    ensures p[k] <= k
    decreases n - k
  {
    if k + 1 < n {
      RisingBelow(p, n, k + 1);
    }
  }

  /** There is only one stable sort. */
  lemma {:induction false} StableSortUnique(keys: seq<int>, a: seq<nat>, b: seq<nat>)
    requires Bytes(keys) && IsStableSort(keys, a) && IsStableSort(keys, b)
    ensures a == b
  {
    forall p | 0 <= p < |keys| ensures a[p] == b[p] {
      StableSortPlaces(keys, a, a[p]);
      StableSortPlaces(keys, b, a[p]);
    }
  }
}
