/**
 The inverse Burrows-Wheeler transform of the bzip2 decoder (lib/bunzip.c).

 The specification is the forward transform: sort the rotations of a block, keep the last
 byte of each, and remember a row that holds the block itself. Rows that are equal, as those
 of a periodic block are, may be sorted in any order.
 */
module BurrowsWheeler {
  import opened Permutation
  import opened StableSort

  // ----- lexicographic order -----

  predicate Leq(a: seq<int>, b: seq<int>)
  {
    a == [] || (b != [] && (a[0] < b[0] || (a[0] == b[0] && Leq(a[1..], b[1..]))))
  }

  lemma {:induction false} LeqTotal(a: seq<int>, b: seq<int>)
    ensures Leq(a, b) || Leq(b, a)
  {
    if a != [] && b != [] {
      LeqTotal(a[1..], b[1..]);
    }
  }

  lemma {:induction false} LeqAntisymmetric(a: seq<int>, b: seq<int>)
    requires Leq(a, b) && Leq(b, a)
    ensures a == b
  {
    if a != [] {
      LeqAntisymmetric(a[1..], b[1..]);
      assert a == [a[0]] + a[1..] && b == [b[0]] + b[1..];
    }
  }

  lemma {:induction false} LeqTransitive(a: seq<int>, b: seq<int>, c: seq<int>)
    requires Leq(a, b) && Leq(b, c)
    ensures Leq(a, c)
  {
    if a != [] && a[0] == b[0] == c[0] {
      LeqTransitive(a[1..], b[1..], c[1..]);
    }
  }

  lemma {:induction false} LeqPrefix(a: seq<int>, b: seq<int>, k: nat)
    requires Leq(a, b) && k <= |a| && k <= |b|
    ensures Leq(a[..k], b[..k])
  {
    if k > 0 && a[0] == b[0] {
      LeqPrefix(a[1..], b[1..], k - 1);
      assert a[..k][1..] == a[1..][..k - 1] && b[..k][1..] == b[1..][..k - 1];
    }
  }

  ghost predicate Sorted(rows: seq<seq<int>>)
  {
    forall i, j :: 0 <= i <= j < |rows| ==> Leq(rows[i], rows[j])
  }

  /** Two sorted sequences that are rearrangements of each other are the same. */
  lemma {:induction false} SortedUnique(a: seq<seq<int>>, b: seq<seq<int>>, p: seq<nat>, j: nat)
    requires Sorted(a) && Sorted(b) && IsPermutation(p, |a|) && |b| == |a| && j < |a|
    requires forall i :: 0 <= i < |a| ==> b[i] == a[p[i]]
    ensures a[j] == b[j]
  {
    var k := OneReaches(p[..j + 1], j);
    LeqTransitive(a[j], b[k], b[j]);
    var n := |a|;
    var q := seq(n - j, i requires 0 <= i < n - j => n - 1 - p[j + i]);
    var l := OneReaches(q, n - 1 - j);
    LeqTransitive(b[j], b[j + l], a[j]);
    LeqAntisymmetric(a[j], b[j]);
  }

  // ----- the forward transform -----

  /** s rotated to the left by k. */
  function Rot(s: seq<int>, k: nat): (r: seq<int>)
    requires k <= |s|
    ensures |r| == |s|
  {
    s[k..] + s[..k]
  }

  function RotateLeft(x: seq<int>): seq<int>
    requires x != []
  {
    x[1..] + [x[0]]
  }

  function RotateRight(x: seq<int>): seq<int>
    requires x != []
  {
    [x[|x| - 1]] + x[..|x| - 1]
  }

  ghost function Rows(s: seq<int>, r: seq<nat>): (m: seq<seq<int>>)
    requires forall i :: 0 <= i < |r| ==> r[i] <= |s|
  {
    seq(|r|, i requires 0 <= i < |r| => Rot(s, r[i]))
  }

  /** r lists the rotations of s in sorted order. */
  ghost predicate SortsRotations(s: seq<int>, r: seq<nat>)
  {
    IsPermutation(r, |s|) && Sorted(Rows(s, r))
  }

  /** last is the last column of the sorted rotations, and row orig holds s. */
  ghost predicate IsTransform(s: seq<int>, r: seq<nat>, last: seq<int>, orig: nat)
  {
    && s != []
    && SortsRotations(s, r)
    && |last| == |s|
    && (forall i :: 0 <= i < |s| ==> last[i] == Rot(s, r[i])[|s| - 1])
    && orig < |s|
    && Rot(s, r[orig]) == s
  }

  // ----- what the decoder computes -----

  /** count bytes, read by following the links from pos. */
  function Follow(last: seq<int>, links: seq<nat>, pos: nat, count: nat): (out: seq<int>)
    requires |links| == |last| && pos < |last|
    requires forall i :: 0 <= i < |links| ==> links[i] < |links|
    decreases count
  {
    if count == 0 then [] else [last[pos]] + Follow(last, links, links[pos], count - 1)
  }

  // ----- the links lead from each rotation to the next -----

  lemma {:induction false} RotRight(s: seq<int>, k: nat)
    requires k < |s|
    ensures RotateRight(Rot(s, k)) == Rot(s, if k == 0 then |s| - 1 else k - 1)
  {
  }

  lemma {:induction false} RotLeft(s: seq<int>, k: nat)
    requires k < |s|
    ensures RotateLeft(Rot(s, k)) == Rot(s, k + 1)
    ensures Rot(s, k + 1)[|s| - 1] == s[k]
  {
    var x := Rot(s, k);
    assert x[0] == s[k] && s[..k + 1] == s[..k] + [s[k]];
    assert x[1..] == s[k + 1..] + s[..k];
  }

  /** Taken in the order of the links, the rows rotated right are sorted. */
  lemma {:induction false} RotatedSorted(s: seq<int>, r: seq<nat>, last: seq<int>, orig: nat, links: seq<nat>, p: nat, q: nat)
    requires IsTransform(s, r, last, orig) && IsStableSort(last, links) && p <= q < |s|
    ensures Leq(RotateRight(Rot(s, r[links[p]])), RotateRight(Rot(s, r[links[q]])))
  {
    var n, i, j := |s|, links[p], links[q];
    var x, y := Rot(s, r[i]), Rot(s, r[j]);
    assert RotateRight(x)[1..] == x[..n - 1] && RotateRight(y)[1..] == y[..n - 1];
    if last[i] == last[j] {
      assert i <= j;
      assert Rows(s, r)[i] == x && Rows(s, r)[j] == y;
      LeqPrefix(x, y, n - 1);
    }
  }

  /** Row links[j], rotated right, is row j, even where rows are equal. */
  lemma {:induction false} LinkRotates(s: seq<int>, r: seq<nat>, last: seq<int>, orig: nat, links: seq<nat>, j: nat)
    requires IsTransform(s, r, last, orig) && IsStableSort(last, links) && j < |s|
    ensures RotateRight(Rot(s, r[links[j]])) == Rot(s, r[j])
  {
    var n := |s|;
    var a := Rows(s, r);
    var b := seq(n, i requires 0 <= i < n => RotateRight(Rot(s, r[links[i]])));
    forall p, q | 0 <= p <= q < n ensures Leq(b[p], b[q]) {
      RotatedSorted(s, r, last, orig, links, p, q);
    }
    var prev := seq(n, i requires 0 <= i < n => if r[links[i]] == 0 then n - 1 else r[links[i]] - 1);
    assert IsPermutation(prev, n) by { PreviousIsPermutation(r, links, prev); }
    var p: seq<nat> := [];
    while |p| < n
      invariant |p| <= n
      invariant forall i :: 0 <= i < |p| ==> p[i] < n && r[p[i]] == prev[i]
      decreases n - |p|
    {
      var k := Reaches(r, n, prev[|p|]);
      p := p + [k];
    }
    forall i, i' | 0 <= i < i' < n ensures p[i] != p[i'] {
      assert prev[i] != prev[i'];
    }
    forall i | 0 <= i < n ensures b[i] == a[p[i]] {
      RotRight(s, r[links[i]]);
    }
    SortedUnique(a, b, p, j);
  }

  lemma {:induction false} PreviousIsPermutation(r: seq<nat>, links: seq<nat>, prev: seq<nat>)
    requires IsPermutation(r, |r|) && IsPermutation(links, |r|) && |prev| == |r|
    requires forall i :: 0 <= i < |r| ==> prev[i] == if r[links[i]] == 0 then |r| - 1 else r[links[i]] - 1
    ensures IsPermutation(prev, |r|)
  {
    forall i, j | 0 <= i < j < |r| ensures prev[i] != prev[j] {
      assert links[i] != links[j];
      assert r[links[i]] != r[links[j]];
    }
  }

  lemma {:induction false} RotateInverse(x: seq<int>, y: seq<int>)
    requires x != [] && |x| == |y| && RotateRight(x) == y
    ensures x == RotateLeft(y) && x[|x| - 1] == y[0]
  {
    assert y[1..] == x[..|x| - 1];
    assert x == x[..|x| - 1] + [x[|x| - 1]];
  }

  /** A link leads from a row holding s rotated by k to one holding it rotated by k + 1. */
  lemma {:induction false} NextRow(s: seq<int>, r: seq<nat>, last: seq<int>, orig: nat, links: seq<nat>, pos: nat, k: nat)
    requires IsTransform(s, r, last, orig) && IsStableSort(last, links) && pos < |s| && k < |s|
    requires Rot(s, r[pos]) == Rot(s, k)
    ensures Rot(s, r[links[pos]]) == Rot(s, k + 1) && last[links[pos]] == s[k]
  {
    LinkRotates(s, r, last, orig, links, pos);
    RotateInverse(Rot(s, r[links[pos]]), Rot(s, k));
    RotLeft(s, k);
  }

  lemma {:induction false} FollowReads(s: seq<int>, r: seq<nat>, last: seq<int>, orig: nat, links: seq<nat>, pos: nat, k: nat)
    requires IsTransform(s, r, last, orig) && IsStableSort(last, links) && pos < |s| && k < |s|
    requires Rot(s, r[pos]) == Rot(s, k + 1) && last[pos] == s[k]
    ensures Follow(last, links, pos, |s| - k) == s[k..]
    decreases |s| - k
  {
    var rest := Follow(last, links, links[pos], |s| - k - 1);
    assert rest == s[k + 1..] by {
      if k + 1 < |s| {
        NextRow(s, r, last, orig, links, pos, k + 1);
        FollowReads(s, r, last, orig, links, links[pos], k + 1);
      }
    }
    assert s[k..] == [s[k]] + s[k + 1..];
  }

  /** The decoder reads back exactly the block that was transformed. */
  lemma {:induction false} InverseTransform(s: seq<int>, r: seq<nat>, last: seq<int>, orig: nat, links: seq<nat>)
    requires IsTransform(s, r, last, orig) && IsStableSort(last, links)
    ensures Follow(last, links, links[orig], |s|) == s
  {
    assert Rot(s, 0) == s && s[0..] == s;
    assert Rot(s, r[links[orig]]) == Rot(s, 1) && last[links[orig]] == s[0] by { NextRow(s, r, last, orig, links, orig, 0); }
    FollowReads(s, r, last, orig, links, links[orig], 0);
  }

  // ----- every block has a transform -----

  lemma {:induction false} InsertRow(s: seq<int>, r: seq<nat>, k: nat) returns (q: seq<nat>)
    requires IsPermutation(r, k) && k < |s| && Sorted(Rows(s, r))
    ensures IsPermutation(q, k + 1) && Sorted(Rows(s, q))
  {
    var p, x := 0, Rot(s, k);
    while p < k && Leq(Rot(s, r[p]), x)
      invariant p <= k
      invariant forall i :: 0 <= i < p ==> Leq(Rot(s, r[i]), x)
    {
      p := p + 1;
    }
    q := r[..p] + [k] + r[p..];
    var a := Rows(s, r);
    assert Rows(s, q) == a[..p] + [x] + a[p..];
    assert Sorted(a[..p] + [x] + a[p..]) by {
      forall i | p <= i < k ensures Leq(x, a[i]) {
        LeqTotal(x, a[p]);
        LeqTransitive(x, a[p], a[i]);
      }
      SortedInsert(a, x, p);
    }
  }

  lemma {:induction false} SortedInsert(a: seq<seq<int>>, x: seq<int>, p: nat)
    requires Sorted(a) && p <= |a|
    requires forall i :: 0 <= i < p ==> Leq(a[i], x)
    requires forall i :: p <= i < |a| ==> Leq(x, a[i])
    ensures Sorted(a[..p] + [x] + a[p..])
  {
    LeqTotal(x, x);
  }

  lemma {:induction false} SortRotations(s: seq<int>, k: nat) returns (r: seq<nat>)
    requires k <= |s|
    ensures IsPermutation(r, k) && Sorted(Rows(s, r))
  {
    if k == 0 {
      r := [];
    } else {
      r := SortRotations(s, k - 1);
      r := InsertRow(s, r, k - 1);
    }
  }

  lemma {:induction false} TransformExists(s: seq<int>) returns (r: seq<nat>, last: seq<int>, orig: nat)
    requires s != []
    ensures IsTransform(s, r, last, orig)
  {
    r := SortRotations(s, |s|);
    last := seq(|s|, i requires 0 <= i < |s| => Rot(s, r[i])[|s| - 1]);
    orig := Reaches(r, |s|, 0);
    assert Rot(s, 0) == s;
  }

  // ----- burrows_wheeler_prep -----

  /** The block after the first i bytes have been linked: word p is its byte plus 256 times its link. */
  ghost function Linked(last: seq<int>, i: nat): (w: seq<int>)
    requires Bytes(last) && i <= |last|
    ensures |w| == |last|
  {
    if i == 0 then last else
    var w := Linked(last, i - 1);
    PlaceInRange(last, i - 1);
    var p := Place(last, i - 1);
    w[p := w[p] + 256 * (i - 1)]
  }

  /** No byte is linked into a word twice, so a word holds one link at most. */
  lemma {:induction false} LinkedWord(last: seq<int>, i: nat, p: nat)
    requires Bytes(last) && i <= |last| && p < |last|
    ensures var w := Linked(last, i);
            || (w[p] == last[p] && forall k :: 0 <= k < i ==> Place(last, k) != p)
            || (exists k :: 0 <= k < i && Place(last, k) == p && w[p] == last[p] + 256 * k)
  {
    if i > 0 {
      LinkedWord(last, i - 1, p);
      PlaceInRange(last, i - 1);
      forall k | 0 <= k < i - 1 ensures Place(last, k) != Place(last, i - 1) {
        if last[k] <= last[i - 1] { PlaceOrder(last, k, i - 1); } else { PlaceOrder(last, i - 1, k); }
      }
    }
  }

  lemma {:induction false} LinkedByte(last: seq<int>, i: nat, p: nat)
    requires Bytes(last) && i <= |last| && p < |last|
    ensures Linked(last, i)[p] >= 0 && Linked(last, i)[p] % 256 == last[p]
  {
    LinkedWord(last, i, p);
  }

  /** The links above the bytes. */
  ghost function LinksOf(words: seq<int>): (links: seq<nat>)
    ensures |links| == |words|
  {
    seq(|words|, p requires 0 <= p < |words| => if words[p] >= 0 then words[p] / 256 else 0)
  }

  /** What a finished block holds: its bytes, and the links of their stable sort. */
  ghost predicate IsLinked(words: seq<int>, last: seq<int>)
  {
    && |words| == |last|
    && (forall p :: 0 <= p < |last| ==> words[p] >= 0 && words[p] % 256 == last[p])
    && IsStableSort(last, LinksOf(words))
  }

  lemma {:induction false} LinkedAll(last: seq<int>)
    requires Bytes(last)
    ensures IsLinked(Linked(last, |last|), last)
  {
    var n := |last|;
    var w := Linked(last, n);
    forall p | 0 <= p < n ensures w[p] >= 0 && w[p] % 256 == last[p] {
      LinkedWord(last, n, p);
    }
    var links := LinksOf(w);
    forall i {:trigger Place(last, i)} | 0 <= i < n ensures Place(last, i) < n && links[Place(last, i)] == i {
      PlaceInRange(last, i);
      var p := Place(last, i);
      LinkedWord(last, n, p);
      var k :| 0 <= k < n && Place(last, k) == p && w[p] == last[p] + 256 * k;
      if k < i { DistinctPlaces(last, k, i); } else if i < k { DistinctPlaces(last, i, k); }
    }
    PlacesAreStableSort(last, links);
  }

  /** Counts below ii have become start positions. */
  ghost predicate Started(counts: seq<int>, last: seq<int>, ii: nat)
  {
    && |counts| == 256
    && forall c :: 0 <= c < 256 ==> counts[c] == if c < ii then Below(last, |last|, c) else Count(last, |last|, c)
  }

  lemma StartedNext(counts: seq<int>, last: seq<int>, ii: nat)
    requires Started(counts, last, ii) && ii < 256
    ensures Started(counts[ii := Below(last, |last|, ii)], last, ii + 1)
    ensures Below(last, |last|, ii + 1) == Below(last, |last|, ii) + counts[ii]
  {
  }

  /** The first loop of burrows_wheeler_prep: counts become starting positions. */
  method StartPositions(byteCount: array<int>, ghost last: seq<int>)
    requires byteCount.Length == 256 && forall c :: 0 <= c < 256 ==> byteCount[c] == Count(last, |last|, c)
    modifies byteCount
    ensures forall c :: 0 <= c < 256 ==> byteCount[c] == Below(last, |last|, c)
  {
    var jj := 0;
    for ii := 0 to 256
      invariant jj == Below(last, |last|, ii) && Started(byteCount[..], last, ii)
    {
      ghost var counts := byteCount[..];
      StartedNext(counts, last, ii);
      var kk := jj + byteCount[ii];
      byteCount[ii] := jj;
      assert byteCount[..] == counts[ii := jj];
      jj := kk;
    }
  }

  ghost predicate NextPlaces(byteCount: seq<int>, last: seq<int>, i: nat)
    requires i <= |last|
  {
    && |byteCount| == 256
    && forall c :: 0 <= c < 256 ==> byteCount[c] == Below(last, |last|, c) + Count(last, i, c)
  }

  /** One round of the second loop: the byte at ii is linked into the next place for its value.
      The source joins byte and link with a bitwise or; the upper bits of the word are clear at
      that point, which makes it addition. */
  method LinkByte(dbuf: array<int>, byteCount: array<int>, ii: nat, ghost last: seq<int>)
    requires Bytes(last) && ii < |last| <= dbuf.Length && dbuf != byteCount
    requires NextPlaces(byteCount[..], last, ii) && dbuf[..|last|] == Linked(last, ii)
    modifies dbuf, byteCount
    ensures NextPlaces(byteCount[..], last, ii + 1) && dbuf[..|last|] == Linked(last, ii + 1)
    ensures dbuf[|last|..] == old(dbuf[|last|..])
  {
    LinkedByte(last, ii, ii);
    PlaceInRange(last, ii);
    assert dbuf[ii] == dbuf[..|last|][ii];
    var uc := dbuf[ii] % 256;
    var p := byteCount[uc];
    assert p == Place(last, ii) by { assert byteCount[..][uc] == p; }
    assert dbuf[p] == dbuf[..|last|][p];
    ghost var counts := byteCount[..];
    dbuf[p] := dbuf[p] + 256 * ii;
    byteCount[uc] := p + 1;
    assert byteCount[..] == counts[uc := p + 1];
    assert dbuf[..|last|] == Linked(last, ii)[p := Linked(last, ii)[p] + 256 * ii];
  }

  /** burrows_wheeler_prep: each word of dbuf keeps its byte in the low eight bits and receives
      the link of its row above them. */
  method Prepare(dbuf: array<int>, byteCount: array<int>, writeCount: nat)
    requires writeCount <= dbuf.Length && byteCount.Length == 256 && dbuf != byteCount
    requires Bytes(dbuf[..writeCount])
    requires forall c :: 0 <= c < 256 ==> byteCount[c] == Count(dbuf[..writeCount], writeCount, c)
    modifies dbuf, byteCount
    ensures IsLinked(dbuf[..writeCount], old(dbuf[..writeCount]))
    ensures dbuf[writeCount..] == old(dbuf[writeCount..])
  {
    ghost var last := dbuf[..writeCount];
    StartPositions(byteCount, last);
    assert NextPlaces(byteCount[..], last, 0);
    for ii := 0 to writeCount
      invariant NextPlaces(byteCount[..], last, ii) && dbuf[..writeCount] == Linked(last, ii)
      invariant dbuf[writeCount..] == old(dbuf[writeCount..])
    {
      LinkByte(dbuf, byteCount, ii, last);
    }
    LinkedAll(last);
  }
}
