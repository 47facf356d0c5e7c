/** Bitwise operations on words written as sequences of bits, most significant first. */
module Words {
  import opened BitStream

  function Zeros(n: nat): (w: seq<Bit>)
    ensures |w| == n && forall i :: 0 <= i < n ==> w[i] == 0
  {
    seq(n, _ => 0)
  }

  function Add(a: Bit, b: Bit): Bit { if a == b then 0 else 1 }

  function Xor(a: seq<Bit>, b: seq<Bit>): (w: seq<Bit>)
    requires |a| == |b|
    ensures |w| == |a| && forall i :: 0 <= i < |a| ==> w[i] == Add(a[i], b[i])
  {
    seq(|a|, i requires 0 <= i < |a| => Add(a[i], b[i]))
  }

  function And(a: seq<Bit>, b: seq<Bit>): (w: seq<Bit>)
    requires |a| == |b|
    ensures |w| == |a| && forall i :: 0 <= i < |a| ==> w[i] == if a[i] == 1 then b[i] else 0
  {
    seq(|a|, i requires 0 <= i < |a| => if a[i] == 1 then b[i] else 0)
  }

  function Or(a: seq<Bit>, b: seq<Bit>): (w: seq<Bit>)
    requires |a| == |b|
    ensures |w| == |a| && forall i :: 0 <= i < |a| ==> w[i] == if a[i] == 1 then 1 else b[i]
  {
    seq(|a|, i requires 0 <= i < |a| => if a[i] == 1 then 1 else b[i])
  }

  function Invert(a: seq<Bit>): (w: seq<Bit>)
    ensures |w| == |a| && forall i :: 0 <= i < |a| ==> w[i] == 1 - a[i]
  {
    seq(|a|, i requires 0 <= i < |a| => 1 - a[i])
  }
}
