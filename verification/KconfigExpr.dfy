/**
 Kconfig dependency expressions: values, constant elimination, and the mutually
 recursive comparison and common-term elimination (kconfig/expr.h, kconfig/expr.c).

 Expressions are read over three values, n < m < y, written 0 < 1 < 2.
 */
module KconfigExpr {

  type Tri = x: int | 0 <= x <= 2
  const N: Tri := 0
  const M: Tri := 1
  const Y: Tri := 2

  /** The three constant symbols carry no type; every other symbol is boolean or tristate. */
  datatype Symbol = Yes | Mod | No | Boolean(name: string) | Tristate(name: string)

  datatype Op = And | Or

  /** Not has a single child; a comparison holds two symbols, not two expressions. */
  datatype Expr =
    | Sym(s: Symbol)
    | Not(e: Expr)
    | Bin(op: Op, l: Expr, r: Expr)
    | Cmp(equal: bool, left: Symbol, right: Symbol)

  /** A configuration gives boolean symbols n or y, and tristate symbols any value. */
  datatype Config = Config(bools: string -> bool, tris: string -> Tri)

  // ----- values -----

  function SymVal(s: Symbol, c: Config): (v: Tri)
  {
    match s
    case Yes => Y
    case Mod => M
    case No => N
    case Boolean(n) => if c.bools(n) then Y else N
    case Tristate(n) => c.tris(n)
  }

  function Apply(op: Op, a: Tri, b: Tri): (v: Tri)
  {
    match op
    case And => if a < b then a else b
    case Or => if a > b then a else b
  }

  function Val(e: Expr, c: Config): (v: Tri)
  {
    match e
    case Sym(s) => SymVal(s, c)
    case Not(x) => 2 - Val(x, c)
    case Bin(op, l, r) => Apply(op, Val(l, c), Val(r, c))
    case Cmp(eq, l, r) => if (SymVal(l, c) == SymVal(r, c)) == eq then Y else N
  }

  function Other(op: Op): Op { if op == And then Or else And }
  function Unit(op: Op): Symbol { if op == And then Yes else No }
  function Zero(op: Op): Symbol { if op == And then No else Yes }

  predicate IsOp(op: Op, e: Expr) { e.Bin? && e.op == op }
  predicate IsConst(e: Expr) { e == Sym(Yes) || e == Sym(No) }

  /** expr_type, as far as two expressions are compared by it. */
  predicate SameType(a: Expr, b: Expr)
  {
    match a
    case Sym(_) => b.Sym?
    case Not(_) => b.Not?
    case Bin(op, _, _) => IsOp(op, b)
    case Cmp(eq, _, _) => b.Cmp? && b.equal == eq
  }

  /** Number of nodes. */
  function Size(e: Expr): (n: nat)
    ensures n >= 1
  {
    match e
    case Sym(_) => 1
    case Not(x) => 1 + Size(x)
    case Bin(_, l, r) => 1 + Size(l) + Size(r)
    case Cmp(_, _, _) => 1
  }

  /** No symbol standing alone is m: the assignments on which NOT behaves classically. */
  ghost predicate Crisp(e: Expr, c: Config)
  {
    match e
    case Sym(s) => SymVal(s, c) != M
    case Not(x) => Crisp(x, c)
    case Bin(_, l, r) => Crisp(l, c) && Crisp(r, c)
    case Cmp(_, _, _) => true
  }

  lemma {:induction false} CrispValue(e: Expr, c: Config)
    requires Crisp(e, c)
    ensures Val(e, c) == N || Val(e, c) == Y
  {
    match e
    case Sym(_) =>
    case Cmp(_, _, _) =>
    case Not(x) => CrispValue(x, c);
    case Bin(_, l, r) => CrispValue(l, c); CrispValue(r, c);
  }

  // ----- constant elimination -----

  /** expr_eliminate_yn: y and n vanish from AND and OR, but not from below a NOT. */
  function EliminateYn(e: Expr): (r: Expr)
    ensures Size(r) <= Size(e)
  {
    if e.Bin? then
      var l, r := EliminateYn(e.l), EliminateYn(e.r);
      if l == Sym(Zero(e.op)) then l
      else if l == Sym(Unit(e.op)) then r
      else if r == Sym(Zero(e.op)) then r
      else if r == Sym(Unit(e.op)) then l
      else Bin(e.op, l, r)
    else e
  }

  /** No y or n is left as an operand of AND or OR. */
  predicate YnFree(e: Expr)
  {
    e.Bin? ==> !IsConst(e.l) && !IsConst(e.r) && YnFree(e.l) && YnFree(e.r)
  }

  lemma {:induction false} EliminateYnSound(e: Expr, c: Config)
    ensures Val(EliminateYn(e), c) == Val(e, c)
    ensures Crisp(e, c) ==> Crisp(EliminateYn(e), c)
  {
    if e.Bin? {
      EliminateYnSound(e.l, c);
      EliminateYnSound(e.r, c);
    }
  }

  /** What is left is free of constants; a node is lost exactly when there was one to remove. */
  lemma {:induction false} EliminateYnExact(e: Expr)
    ensures YnFree(EliminateYn(e))
    ensures Size(EliminateYn(e)) == Size(e) <==> YnFree(e)
    ensures YnFree(e) <==> EliminateYn(e) == e
  {
    if e.Bin? {
      EliminateYnExact(e.l);
      EliminateYnExact(e.r);
    }
  }

  // ----- comparison and common-term elimination -----

  /** __expr_eliminate_eq: equal terms of two op-chains become the unit of op in both. */
  function EliminatePairs(op: Op, e1: Expr, e2: Expr): (r: (Expr, Expr))
    ensures Size(r.0) <= Size(e1) && Size(r.1) <= Size(e2)
    decreases Size(e1) + Size(e2), if IsOp(op, e1) || IsOp(op, e2) then 0 else 3
  {
    if IsOp(op, e1) then
      var p := EliminatePairs(op, e1.l, e2);
      var q := EliminatePairs(op, e1.r, p.1);
      (Bin(op, p.0, q.0), q.1)
    else if IsOp(op, e2) then
      var p := EliminatePairs(op, e1, e2.l);
      var q := EliminatePairs(op, p.0, e2.r);
      (q.0, Bin(op, p.1, q.1))
    else if e1 == e2 && IsConst(e1) then (e1, e2)
    else if !ExprEq(e1, e2) then (e1, e2)
    else (Sym(Unit(op)), Sym(Unit(op)))
  }

  /** expr_eliminate_eq: first by the type of e1, then, if the types differ, by that of e2. */
  function EliminateEq(e1: Expr, e2: Expr): (r: (Expr, Expr))
    ensures Size(r.0) <= Size(e1) && Size(r.1) <= Size(e2)
    decreases Size(e1) + Size(e2), 1
  {
    var p := if e1.Bin? then EliminatePairs(e1.op, e1, e2) else (e1, e2);
    var q := if !SameType(p.0, p.1) && p.1.Bin? then EliminatePairs(p.1.op, p.0, p.1) else p;
    (EliminateYn(q.0), EliminateYn(q.1))
  }

  /** expr_eq; chains are compared by eliminating what they share. */
  predicate ExprEq(e1: Expr, e2: Expr)
    decreases Size(e1) + Size(e2), 2
  {
    SameType(e1, e2) &&
    match e1
    case Cmp(_, l, r) => l == e2.left && r == e2.right
    case Sym(s) => s == e2.s
    case Not(x) => ExprEq(x, e2.e)
    case Bin(_, _, _) =>
      var r := EliminateEq(e1, e2);
      r.0.Sym? && r.1.Sym? && r.0.s == r.1.s
  }

  lemma ApplyInterchange(op: Op, a: Tri, b: Tri, x: Tri, y: Tri)
    ensures Apply(op, Apply(op, a, x), Apply(op, b, y)) == Apply(op, Apply(op, a, b), Apply(op, x, y))
    ensures Apply(op, a, Apply(op, b, x)) == Apply(op, Apply(op, a, b), x)
  {
  }

  /** Both chains are the same common value x joined with what is left of each. */
  lemma {:induction false} EliminatePairsSound(op: Op, e1: Expr, e2: Expr, c: Config) returns (x: Tri)
    ensures var r := EliminatePairs(op, e1, e2);
            && Val(e1, c) == Apply(op, x, Val(r.0, c))
            && Val(e2, c) == Apply(op, x, Val(r.1, c))
    decreases Size(e1) + Size(e2), if IsOp(op, e1) || IsOp(op, e2) then 0 else 3
  {
    if IsOp(op, e1) {
      var p := EliminatePairs(op, e1.l, e2);
      var x1 := EliminatePairsSound(op, e1.l, e2, c);
      var q := EliminatePairs(op, e1.r, p.1);
      var x2 := EliminatePairsSound(op, e1.r, p.1, c);
      x := Apply(op, x1, x2);
      ApplyInterchange(op, x1, x2, Val(p.0, c), Val(q.0, c));
      ApplyInterchange(op, x1, x2, Val(q.1, c), N);
    } else if IsOp(op, e2) {
      var p := EliminatePairs(op, e1, e2.l);
      var x1 := EliminatePairsSound(op, e1, e2.l, c);
      var q := EliminatePairs(op, p.0, e2.r);
      var x2 := EliminatePairsSound(op, p.0, e2.r, c);
      x := Apply(op, x1, x2);
      ApplyInterchange(op, x1, x2, Val(p.1, c), Val(q.1, c));
      ApplyInterchange(op, x1, x2, Val(q.0, c), N);
    } else if ExprEq(e1, e2) && !(e1 == e2 && IsConst(e1)) {
      ExprEqSound(e1, e2, c);
      x := Val(e1, c);
    } else {
      x := SymVal(Unit(op), c);
    }
  }

  /** One step for each type involved: e1 and e2 are the same monotone context around the rests. */
  lemma {:induction false} EliminateEqSound(e1: Expr, e2: Expr, c: Config)
    returns (op1: Op, x1: Tri, op2: Op, x2: Tri)
    ensures var r := EliminateEq(e1, e2);
            && Val(e1, c) == Apply(op1, x1, Apply(op2, x2, Val(r.0, c)))
            && Val(e2, c) == Apply(op1, x1, Apply(op2, x2, Val(r.1, c)))
    decreases Size(e1) + Size(e2), 1
  {
    op1, x1, op2, x2 := And, Y, And, Y;
    var p := (e1, e2);
    if e1.Bin? {
      op1, p := e1.op, EliminatePairs(e1.op, e1, e2);
      x1 := EliminatePairsSound(e1.op, e1, e2, c);
    }
    var q := p;
    if !SameType(p.0, p.1) && p.1.Bin? {
      op2, q := p.1.op, EliminatePairs(p.1.op, p.0, p.1);
      x2 := EliminatePairsSound(p.1.op, p.0, p.1, c);
    }
    EliminateYnSound(q.0, c);
    EliminateYnSound(q.1, c);
  }

  /** Expressions that compare equal have the same value in every configuration. */
  lemma {:induction false} ExprEqSound(e1: Expr, e2: Expr, c: Config)
    requires ExprEq(e1, e2)
    ensures Val(e1, c) == Val(e2, c)
    decreases Size(e1) + Size(e2), 2
  {
    match e1
    case Cmp(_, _, _) =>
    case Sym(_) =>
    case Not(x) => ExprEqSound(x, e2.e, c);
    case Bin(_, _, _) =>
      var op1, x1, op2, x2 := EliminateEqSound(e1, e2, c);
  }

  // ----- an expression compares equal to itself -----

  /** A chain around a term, from the term outwards. */
  datatype Context = Top | LeftOf(r: Expr, up: Context) | RightOf(l: Expr, up: Context)

  ghost function Plug(op: Op, k: Context, e: Expr): (f: Expr)
    decreases k
  {
    match k
    case Top => e
    case LeftOf(r, up) => Plug(op, up, Bin(op, e, r))
    case RightOf(l, up) => Plug(op, up, Bin(op, l, e))
  }

  ghost predicate AllConst(op: Op, e: Expr) { if IsOp(op, e) then AllConst(op, e.l) && AllConst(op, e.r) else IsConst(e) }

  ghost predicate LeftConst(op: Op, k: Context)
    decreases k
  {
    match k
    case Top => true
    case LeftOf(_, up) => LeftConst(op, up)
    case RightOf(l, up) => AllConst(op, l) && LeftConst(op, up)
  }

  /** The chain with every term eliminated. */
  ghost function Cleared(op: Op, e: Expr): (r: Expr)
    ensures AllConst(op, r)
  {
    if IsOp(op, e) then Bin(op, Cleared(op, e.l), Cleared(op, e.r)) else if IsConst(e) then e else Sym(Unit(op))
  }

  lemma {:induction false} KeepsConsts(op: Op, t: Expr, e: Expr)
    requires !IsOp(op, t) && AllConst(op, e)
    ensures EliminatePairs(op, t, e) == (t, e)
  {
    if IsOp(op, e) {
      KeepsConsts(op, t, e.l);
      KeepsConsts(op, t, e.r);
    }
  }

  lemma {:induction false} ConstKeeps(op: Op, t: Expr, e: Expr)
    requires IsConst(t)
    ensures EliminatePairs(op, t, e) == (t, e)
  {
    if IsOp(op, e) {
      ConstKeeps(op, t, e.l);
      ConstKeeps(op, t, e.r);
    }
  }

  /** A term that is eliminated against x is so against the chain around x. */
  lemma {:induction false} PairInContext(op: Op, k: Context, t: Expr, x: Expr, t': Expr, x': Expr)
    requires !IsOp(op, t) && IsConst(t') && EliminatePairs(op, t, x) == (t', x') && LeftConst(op, k)
    ensures EliminatePairs(op, t, Plug(op, k, x)) == (t', Plug(op, k, x'))
    decreases k
  {
    match k
    case Top =>
    case LeftOf(r, up) =>
      ConstKeeps(op, t', r);
      PairInContext(op, up, t, Bin(op, x, r), t', Bin(op, x', r));
    case RightOf(l, up) =>
      KeepsConsts(op, t, l);
      PairInContext(op, up, t, Bin(op, l, x), t', Bin(op, l, x'));
  }

  /** The part e of a chain eliminates itself, once what is left of it has been eliminated. */
  lemma {:induction false} ChainAgainstItself(op: Op, e: Expr, k: Context)
    requires LeftConst(op, k)
    ensures EliminatePairs(op, e, Plug(op, k, e)) == (Cleared(op, e), Plug(op, k, Cleared(op, e)))
    decreases Size(e), if IsOp(op, e) then 0 else 2
  {
    if IsOp(op, e) {
      ChainAgainstItself(op, e.l, LeftOf(e.r, k));
      ChainAgainstItself(op, e.r, RightOf(Cleared(op, e.l), k));
    } else {
      ExprEqReflexive(e);
      PairInContext(op, k, e, e, Cleared(op, e), Cleared(op, e));
    }
  }

  lemma {:induction false} ConstsFold(op: Op, e: Expr)
    requires AllConst(op, e)
    ensures IsConst(EliminateYn(e))
  {
    if IsOp(op, e) {
      ConstsFold(op, e.l);
      ConstsFold(op, e.r);
    }
  }

  /** Every expression compares equal to itself, chains included. */
  lemma {:induction false} ExprEqReflexive(e: Expr)
    ensures ExprEq(e, e)
    decreases Size(e), 1
  {
    match e
    case Cmp(_, _, _) =>
    case Sym(_) =>
    case Not(x) => ExprEqReflexive(x);
    case Bin(op, _, _) =>
      ChainAgainstItself(op, e, Top);
      ConstsFold(op, Cleared(op, e));
  }

  /** If nothing but y is left of e2, then e1 is below e2 in every configuration. */
  lemma {:induction false} EliminateEqImplies(e1: Expr, e2: Expr, c: Config)
    requires EliminateEq(e1, e2).1 == Sym(Yes)
    ensures Val(e1, c) <= Val(e2, c)
  {
    var op1, x1, op2, x2 := EliminateEqSound(e1, e2, c);
  }
}
