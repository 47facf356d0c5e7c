/**
 Removal of redundant terms: joining of pairs, the two passes over all pairs of terms of a
 chain, and the loop that repeats them (kconfig/expr.c).

 Both passes walk one chain of AND (or OR) with two pointers into the same tree. Here the
 terms of the chain are a sequence, a pointer to a term is its index, a pointer to an inner
 node of the chain is a part of its spine with the index of its first term, and the test
 whether two pointers are the same is equality of indices.
 */
module KconfigDups {
  import opened KconfigExpr
  import opened KconfigTransform
  import opened Wrappers

  // ----- expr_join_or and expr_join_and -----

  predicate Typed(s: Symbol) { s.Boolean? || s.Tristate? }
  predicate Constant(s: Symbol) { !Typed(s) }

  /** The symbol both terms are about, when there is one. A negated comparison is accepted
      on the left but not on the right. */
  function Subject(e1: Expr, e2: Expr): (r: Option<Symbol>)
  {
    var s1 := match e1
      case Sym(s) => Some(s)
      case Cmp(_, l, _) => Some(l)
      case Not(Sym(s)) => Some(s)
      case Not(Cmp(_, l, _)) => Some(l)
      case _ => None;
    var s2 := match e2
      case Sym(s) => Some(s)
      case Cmp(_, l, _) => Some(l)
      case Not(Sym(s)) => Some(s)
      case _ => None;
    if s1.Some? && s1 == s2 && Typed(s1.value) then s1 else None
  }

  predicate Tests(e: Expr, equal: bool, s: Symbol) { e.Cmp? && e.equal == equal && e.right == s }

  predicate TestBoth(e1: Expr, e2: Expr, equal: bool, s: Symbol, t: Symbol)
  {
    (Tests(e1, equal, s) && Tests(e2, equal, t)) || (Tests(e1, equal, t) && Tests(e2, equal, s))
  }

  predicate AloneAnd(e1: Expr, e2: Expr, equal: bool, s: Symbol)
  {
    (e1.Sym? && Tests(e2, equal, s)) || (e2.Sym? && Tests(e1, equal, s))
  }

  function JoinOr(e1: Expr, e2: Expr): (r: Option<Expr>)
  {
    if ExprEq(e1, e2) then Some(e1) else
    var a := Subject(e1, e2);
    if a.None? then None
    else if a.value.Tristate? then
      if TestBoth(e1, e2, true, Yes, Mod) then Some(Cmp(false, a.value, No))
      else if TestBoth(e1, e2, true, Yes, No) then Some(Cmp(false, a.value, Mod))
      else if TestBoth(e1, e2, true, Mod, No) then Some(Cmp(false, a.value, Yes))
      else None
    else if (e1 == Not(Sym(a.value)) && e2.Sym?) || (e2 == Not(Sym(a.value)) && e1.Sym?) then
      Some(Sym(Yes))
    else None
  }

  function JoinAnd(e1: Expr, e2: Expr): (r: Option<Expr>)
  {
    if ExprEq(e1, e2) then Some(e1) else
    var a := Subject(e1, e2);
    if a.None? then None
    else if AloneAnd(e1, e2, true, Yes) then Some(Cmp(true, a.value, Yes))
    else if AloneAnd(e1, e2, false, No) then Some(Sym(a.value))
    else if AloneAnd(e1, e2, false, Mod) then Some(Cmp(true, a.value, Yes))
    else if a.value.Boolean? then None
    else if e1.Cmp? && e2.Cmp? && e1.equal && !e2.equal && Constant(e1.right) && Constant(e2.right) then
      Some(if e1.right != e2.right then Cmp(true, a.value, e1.right) else Sym(No))
    else if e1.Cmp? && e2.Cmp? && !e1.equal && e2.equal && Constant(e1.right) && Constant(e2.right) then
      Some(if e1.right != e2.right then Cmp(true, a.value, e2.right) else Sym(No))
    else if TestBoth(e1, e2, false, Yes, No) then Some(Cmp(true, a.value, Mod))
    else if TestBoth(e1, e2, false, Yes, Mod) then Some(Cmp(true, a.value, No))
    else if TestBoth(e1, e2, false, Mod, No) then Some(Cmp(true, a.value, Yes))
    else None
  }

  function Join(op: Op, e1: Expr, e2: Expr): (r: Option<Expr>)
    ensures r.Some? ==> r.value == e1 || (!r.value.Bin? && Size(r.value) == 1)
  {
    if op == Or then JoinOr(e1, e2) else JoinAnd(e1, e2)
  }

  lemma {:induction false} JoinOrSound(e1: Expr, e2: Expr, c: Config)
    requires JoinOr(e1, e2).Some?
    ensures Val(JoinOr(e1, e2).value, c) == Apply(Or, Val(e1, c), Val(e2, c))
    ensures Crisp(e1, c) && Crisp(e2, c) ==> Crisp(JoinOr(e1, e2).value, c)
    ensures NormalForm(e1) && NormalForm(e2) ==> NormalForm(JoinOr(e1, e2).value)
  {
    if ExprEq(e1, e2) {
      ExprEqSound(e1, e2, c);
    }
  }

  lemma {:induction false} JoinAndSound(e1: Expr, e2: Expr, c: Config)
    requires JoinAnd(e1, e2).Some?
    ensures Val(JoinAnd(e1, e2).value, c) == Apply(And, Val(e1, c), Val(e2, c))
    ensures Crisp(e1, c) && Crisp(e2, c) ==> Crisp(JoinAnd(e1, e2).value, c)
    ensures NormalForm(e1) && NormalForm(e2) ==> NormalForm(JoinAnd(e1, e2).value)
  {
    if ExprEq(e1, e2) {
      ExprEqSound(e1, e2, c);
    }
  }

  /** A joined pair has the value of the two terms together, in every configuration. */
  lemma {:induction false} JoinSound(op: Op, e1: Expr, e2: Expr, c: Config)
    requires Join(op, e1, e2).Some?
    ensures Val(Join(op, e1, e2).value, c) == Apply(op, Val(e1, c), Val(e2, c))
    ensures Crisp(e1, c) && Crisp(e2, c) ==> Crisp(Join(op, e1, e2).value, c)
    ensures NormalForm(e1) && NormalForm(e2) ==> NormalForm(Join(op, e1, e2).value)
  {
    if op == Or {
      JoinOrSound(e1, e2, c);
    } else {
      JoinAndSound(e1, e2, c);
    }
  }

  /** x and y are p and q, in either order. */
  predicate Either(x: Expr, y: Expr, p: Expr, q: Expr) { (x == p && y == q) || (x == q && y == p) }

  function Eq(a: Symbol, b: Symbol): (e: Expr) { Cmp(true, a, b) }
  function Ne(a: Symbol, b: Symbol): (e: Expr) { Cmp(false, a, b) }

  /** The terms x and y about the symbol a make up the one term z. */
  ghost predicate Rule(op: Op, a: Symbol, x: Expr, y: Expr, z: Expr)
  {
    match op
    case Or =>
      || (a.Tristate? && Either(x, y, Eq(a, Yes), Eq(a, Mod)) && z == Ne(a, No))
      || (a.Tristate? && Either(x, y, Eq(a, Yes), Eq(a, No)) && z == Ne(a, Mod))
      || (a.Tristate? && Either(x, y, Eq(a, Mod), Eq(a, No)) && z == Ne(a, Yes))
      || (a.Boolean? && Either(x, y, Sym(a), Not(Sym(a))) && z == Sym(Yes))
    case And =>
      || (Typed(a) && Either(x, y, Sym(a), Eq(a, Yes)) && z == Eq(a, Yes))
      || (Typed(a) && Either(x, y, Sym(a), Ne(a, No)) && z == Sym(a))
      || (Typed(a) && Either(x, y, Sym(a), Ne(a, Mod)) && z == Eq(a, Yes))
      || (a.Tristate? && exists b, c :: Constant(b) && Constant(c) && Either(x, y, Eq(a, b), Ne(a, c))
                                        && z == if b == c then Sym(No) else Eq(a, b))
      || (a.Tristate? && Either(x, y, Ne(a, Yes), Ne(a, No)) && z == Eq(a, Mod))
      || (a.Tristate? && Either(x, y, Ne(a, Yes), Ne(a, Mod)) && z == Eq(a, No))
      || (a.Tristate? && Either(x, y, Ne(a, Mod), Ne(a, No)) && z == Eq(a, Yes))
  }

  /** Two terms make up the one term z: one of two equal ones, or by a rule. */
  ghost predicate MakeUp(op: Op, x: Expr, y: Expr, z: Expr)
  {
    (ExprEq(x, y) && z == x) || exists a :: Rule(op, a, x, y, z)
  }

  lemma {:induction false} OrRuleJoins(a: Symbol, x: Expr, y: Expr, z: Expr)
    requires Rule(Or, a, x, y, z)
    ensures JoinOr(x, y) == Some(z)
  {
  }

  lemma {:induction false} AndRuleJoins(a: Symbol, x: Expr, y: Expr, z: Expr)
    requires Rule(And, a, x, y, z)
    ensures JoinAnd(x, y) == Some(z)
  {
    assert Subject(x, y) == Some(a) && !ExprEq(x, y);
  }

  lemma {:induction false} JoinOrRule(x: Expr, y: Expr)
    requires JoinOr(x, y).Some? && !ExprEq(x, y)
    ensures Rule(Or, Subject(x, y).value, x, y, JoinOr(x, y).value)
  {
  }

  lemma {:induction false} JoinAndRule(x: Expr, y: Expr)
    requires JoinAnd(x, y).Some? && !ExprEq(x, y)
    ensures Rule(And, Subject(x, y).value, x, y, JoinAnd(x, y).value)
  {
  }

  /** The pairs that are joined, and what they become. */
  lemma {:induction false} JoinExact(op: Op, x: Expr, y: Expr, z: Expr)
    ensures Join(op, x, y) == Some(z) <==> MakeUp(op, x, y, z)
  {
    if a :| Rule(op, a, x, y, z) {
      if op == Or { OrRuleJoins(a, x, y, z); } else { AndRuleJoins(a, x, y, z); }
    } else if !ExprEq(x, y) && Join(op, x, y) == Some(z) {
      if op == Or { JoinOrRule(x, y); } else { JoinAndRule(x, y); }
    }
  }

  // ----- chains of terms -----

  /** The inner nodes of a chain. */
  datatype Spine = Leaf | Node(left: Spine, right: Spine)

  function Width(s: Spine): (n: nat)
    ensures n >= 1
  {
    match s case Leaf => 1 case Node(l, r) => Width(l) + Width(r)
  }

  function SpineOf(op: Op, e: Expr): (s: Spine)
  {
    if IsOp(op, e) then Node(SpineOf(op, e.l), SpineOf(op, e.r)) else Leaf
  }

  function Terms(op: Op, e: Expr): (ts: seq<Expr>)
    ensures |ts| == Width(SpineOf(op, e))
    ensures forall k :: 0 <= k < |ts| ==> !IsOp(op, ts[k])
    ensures forall k :: 0 <= k < |ts| ==> Size(ts[k]) <= Size(e)
    ensures IsOp(op, e) ==> |ts| >= 2 && forall k :: 0 <= k < |ts| ==> Size(ts[k]) < Size(e)
  {
    if IsOp(op, e) then Terms(op, e.l) + Terms(op, e.r) else [e]
  }

  function Build(op: Op, s: Spine, ts: seq<Expr>): (e: Expr)
    requires |ts| == Width(s)
  {
    match s
    case Leaf => ts[0]
    case Node(l, r) => Bin(op, Build(op, l, ts[..Width(l)]), Build(op, r, ts[Width(l)..]))
  }

  lemma {:induction false} BuildTerms(op: Op, e: Expr)
    ensures Build(op, SpineOf(op, e), Terms(op, e)) == e
  {
    if IsOp(op, e) {
      BuildTerms(op, e.l);
      BuildTerms(op, e.r);
      var ts := Terms(op, e);
      assert ts[..|Terms(op, e.l)|] == Terms(op, e.l) && ts[|Terms(op, e.l)|..] == Terms(op, e.r);
    }
  }

  ghost function SumSize(ts: seq<Expr>): (n: nat)
  {
    if ts == [] then 0 else Size(ts[0]) + SumSize(ts[1..])
  }

  lemma {:induction false} SumSizeConcat(a: seq<Expr>, b: seq<Expr>)
    ensures SumSize(a + b) == SumSize(a) + SumSize(b)
  {
    if a == [] {
      assert a + b == b;
    } else {
      assert (a + b)[1..] == a[1..] + b;
      SumSizeConcat(a[1..], b);
    }
  }

  lemma {:induction false} SumSizeUpdate(ts: seq<Expr>, i: nat, x: Expr)
    requires i < |ts|
    ensures SumSize(ts[i := x]) == SumSize(ts) - Size(ts[i]) + Size(x)
  {
    assert ts == ts[..i] + ([ts[i]] + ts[i + 1..]);
    assert ts[i := x] == ts[..i] + ([x] + ts[i + 1..]);
    SumSizeConcat(ts[..i], [ts[i]] + ts[i + 1..]);
    SumSizeConcat(ts[..i], [x] + ts[i + 1..]);
  }

  lemma {:induction false} BuildSize(op: Op, s: Spine, ts: seq<Expr>)
    requires |ts| == Width(s)
    ensures Size(Build(op, s, ts)) == SumSize(ts) + Width(s) - 1
  {
    match s
    case Leaf => assert ts == [ts[0]]; assert SumSize(ts[1..]) == 0;
    case Node(l, r) =>
      assert ts == ts[..Width(l)] + ts[Width(l)..];
      SumSizeConcat(ts[..Width(l)], ts[Width(l)..]);
      BuildSize(op, l, ts[..Width(l)]);
      BuildSize(op, r, ts[Width(l)..]);
  }

  /** v is the value of the chain of the terms: the largest for OR, the smallest for AND. */
  ghost predicate Extreme(op: Op, ts: seq<Expr>, c: Config, v: Tri)
  {
    && (forall k :: 0 <= k < |ts| ==> Apply(op, Val(ts[k], c), v) == v)
    && (exists k :: 0 <= k < |ts| && Val(ts[k], c) == v)
  }

  lemma {:induction false} OneExtreme(op: Op, ts: seq<Expr>, c: Config)
    requires |ts| == 1
    ensures Extreme(op, ts, c, Val(ts[0], c))
  {
  }

  lemma {:induction false} BuildVal(op: Op, s: Spine, ts: seq<Expr>, c: Config)
    requires |ts| == Width(s)
    ensures Extreme(op, ts, c, Val(Build(op, s, ts), c))
  {
    match s
    case Leaf => OneExtreme(op, ts, c);
    case Node(l, r) =>
      var us, vs := ts[..Width(l)], ts[Width(l)..];
      var a, b := Build(op, l, us), Build(op, r, vs);
      BuildVal(op, l, us, c);
      BuildVal(op, r, vs, c);
      assert Build(op, s, ts) == Bin(op, a, b) && ts == us + vs;
      ExtremeJoin(op, us, vs, c, Val(a, c), Val(b, c));
  }

  lemma {:induction false} ExtremeJoin(op: Op, ts: seq<Expr>, us: seq<Expr>, c: Config, a: Tri, b: Tri)
    requires Extreme(op, ts, c, a) && Extreme(op, us, c, b)
    ensures Extreme(op, ts + us, c, Apply(op, a, b))
  {
    var vs := ts + us;
    var i :| 0 <= i < |ts| && Val(ts[i], c) == a;
    var j :| 0 <= j < |us| && Val(us[j], c) == b;
    assert vs[i] == ts[i] && vs[|ts| + j] == us[j];
    forall k | 0 <= k < |vs| ensures Apply(op, Val(vs[k], c), Apply(op, a, b)) == Apply(op, a, b) {
      assert vs[k] == if k < |ts| then ts[k] else us[k - |ts|];
    }
  }

  ghost function ChainVal(op: Op, ts: seq<Expr>, c: Config): (v: Tri)
  {
    if ts == [] then SymVal(Unit(op), c) else Apply(op, Val(ts[0], c), ChainVal(op, ts[1..], c))
  }

  lemma {:induction false} ChainValExtreme(op: Op, ts: seq<Expr>, c: Config)
    requires ts != []
    ensures Extreme(op, ts, c, ChainVal(op, ts, c))
  {
    if |ts| > 1 {
      ChainValExtreme(op, ts[1..], c);
      var k :| 0 <= k < |ts[1..]| && Val(ts[1..][k], c) == ChainVal(op, ts[1..], c);
      assert ts[k + 1] == ts[1..][k];
      forall k | 1 <= k < |ts| ensures ts[k] == ts[1..][k - 1] { }
    } else {
      assert ts[1..] == [];
    }
  }

  /** There is only one extreme. */
  lemma {:induction false} ExtremeIsVal(op: Op, ts: seq<Expr>, c: Config, v: Tri)
    requires Extreme(op, ts, c, v)
    ensures v == ChainVal(op, ts, c)
  {
    ChainValExtreme(op, ts, c);
  }

  // ----- the terms of one chain while it is rewritten -----

  /** At least two terms, none of the chain's own type, together no larger than the chain. */
  ghost predicate Chain(op: Op, ts: seq<Expr>, bound: nat)
  {
    && |ts| >= 2
    && SumSize(ts) + |ts| - 1 <= bound
    && forall k :: 0 <= k < |ts| ==> !IsOp(op, ts[k])
  }

  lemma {:induction false} TermInChain(op: Op, ts: seq<Expr>, bound: nat, i: nat)
    requires Chain(op, ts, bound) && i < |ts|
    ensures Size(ts[i]) < bound
  {
    SumSizeUpdate(ts, i, Sym(Yes));
    SumSizeAtLeast(ts[i := Sym(Yes)]);
  }

  lemma {:induction false} SumSizeAtLeast(ts: seq<Expr>)
    ensures SumSize(ts) >= |ts|
  {
    if ts != [] {
      SumSizeAtLeast(ts[1..]);
    }
  }

  lemma {:induction false} TermsChain(op: Op, e: Expr)
    requires IsOp(op, e)
    ensures Chain(op, Terms(op, e), Size(e))
  {
    BuildTerms(op, e);
    BuildSize(op, SpineOf(op, e), Terms(op, e));
  }

  ghost predicate Dirty(e: Expr) { IsConst(e) || !YnFree(e) }
  ghost predicate DirtyTerms(ts: seq<Expr>) { exists k :: 0 <= k < |ts| && Dirty(ts[k]) }
  ghost predicate NormalTerms(ts: seq<Expr>) { forall k :: 0 <= k < |ts| ==> NormalForm(ts[k]) }
  ghost predicate CrispTerms(ts: seq<Expr>, c: Config) { forall k :: 0 <= k < |ts| ==> Crisp(ts[k], c) }

  lemma {:induction false} BuildDirty(op: Op, s: Spine, ts: seq<Expr>)
    requires |ts| == Width(s)
    ensures Dirty(Build(op, s, ts)) <==> DirtyTerms(ts)
  {
    match s
    case Leaf =>
    case Node(l, r) =>
      var w := Width(l);
      BuildDirty(op, l, ts[..w]);
      BuildDirty(op, r, ts[w..]);
      forall k | 0 <= k < |ts| ensures ts[k] == if k < w then ts[..w][k] else ts[w..][k - w] { }
  }

  lemma {:induction false} BuildCrisp(op: Op, s: Spine, ts: seq<Expr>, c: Config)
    requires |ts| == Width(s)
    ensures Crisp(Build(op, s, ts), c) <==> CrispTerms(ts, c)
  {
    match s
    case Leaf =>
    case Node(l, r) =>
      var w := Width(l);
      BuildCrisp(op, l, ts[..w], c);
      BuildCrisp(op, r, ts[w..], c);
      forall k | 0 <= k < |ts| ensures ts[k] == if k < w then ts[..w][k] else ts[w..][k - w] { }
  }

  lemma {:induction false} BuildNormal(op: Op, s: Spine, ts: seq<Expr>)
    requires |ts| == Width(s)
    ensures NormalForm(Build(op, s, ts)) <==> NormalTerms(ts)
  {
    match s
    case Leaf =>
    case Node(l, r) =>
      var w := Width(l);
      BuildNormal(op, l, ts[..w]);
      BuildNormal(op, r, ts[w..]);
      forall k | 0 <= k < |ts| ensures ts[k] == if k < w then ts[..w][k] else ts[w..][k - w] { }
  }

  // ----- expr_eliminate_dups1 -----

  /** One pair of terms: the left one is first freed of duplicates itself. Joined, the left
      becomes the unit of the chain and the right the joined term. */
  function Pair1(op: Op, ts: seq<Expr>, i: nat, j: nat, ghost bound: nat): (r: (seq<Expr>, nat))
    requires Chain(op, ts, bound) && i < |ts| && j < |ts|
    ensures |r.0| == |ts| && Chain(op, r.0, bound)
    decreases bound, 0, 0
  {
    if i == j then (ts, 0) else
    TermInChain(op, ts, bound, i);
    var p := if ts[i].Bin? then Dups1(ts[i]) else (ts[i], 0);
    var t := Join(op, p.0, ts[j]);
    SumSizeUpdate(ts, i, p.0);
    if t.None? then (ts[i := p.0], p.1) else
    SumSizeUpdate(ts, i, Sym(Unit(op)));
    SumSizeUpdate(ts[i := Sym(Unit(op))], j, t.value);
    (ts[i := Sym(Unit(op))][j := t.value], p.1 + 1)
  }

  /** The right pointer walks the part s2 of the chain that starts at term j. */
  function Right1(op: Op, ts: seq<Expr>, i: nat, s2: Spine, j: nat, ghost bound: nat): (r: (seq<Expr>, nat))
    requires Chain(op, ts, bound) && i < |ts| && j + Width(s2) <= |ts|
    ensures |r.0| == |ts| && Chain(op, r.0, bound)
    decreases bound, 1, s2
  {
    match s2
    case Leaf => Pair1(op, ts, i, j, bound)
    case Node(l, r) =>
      var p := Right1(op, ts, i, l, j, bound);
      var q := Right1(op, p.0, i, r, j + Width(l), bound);
      (q.0, p.1 + q.1)
  }

  /** The left pointer walks the part s1 of the chain s that starts at term i. */
  function Left1(op: Op, ts: seq<Expr>, s1: Spine, i: nat, s: Spine, ghost bound: nat): (r: (seq<Expr>, nat))
    requires Chain(op, ts, bound) && i + Width(s1) <= |ts| == Width(s)
    ensures |r.0| == |ts| && Chain(op, r.0, bound)
    decreases bound, 2, s1
  {
    match s1
    case Leaf => Right1(op, ts, i, s, 0, bound)
    case Node(l, r) =>
      var p := Left1(op, ts, l, i, s, bound);
      var q := Left1(op, p.0, r, i + Width(l), s, bound);
      (q.0, p.1 + q.1)
  }

  /** expr_eliminate_dups1 with both pointers at the root, and the number of rewrites. */
  function Dups1(e: Expr): (r: (Expr, nat))
    requires e.Bin?
    ensures IsOp(e.op, r.0) && Size(r.0) <= Size(e)
    decreases Size(e), 3, 0
  {
    var s := SpineOf(e.op, e);
    TermsChain(e.op, e);
    var p := Left1(e.op, Terms(e.op, e), s, 0, s, Size(e));
    BuildSize(e.op, s, p.0);
    (Build(e.op, s, p.0), p.1)
  }

  /** What a pass may do to the terms of a chain: the value stays (always, or unless it is m), crisp terms
      stay crisp and normal forms normal, a counted rewrite leaves a constant behind, and a pass that
      counts none changes nothing. */
  ghost predicate Kept(always: bool, op: Op, ts: seq<Expr>, us: seq<Expr>, n: nat, c: Config)
  {
    && (always || ChainVal(op, ts, c) != M ==> ChainVal(op, us, c) == ChainVal(op, ts, c))
    && (CrispTerms(ts, c) ==> CrispTerms(us, c)) && (NormalTerms(ts) ==> NormalTerms(us))
    && (n > 0 || DirtyTerms(ts) ==> DirtyTerms(us))
    && (n == 0 ==> us == ts)
  }

  ghost predicate KeptExpr(always: bool, e: Expr, f: Expr, n: nat, c: Config)
  {
    && (always || Val(e, c) != M ==> Val(f, c) == Val(e, c))
    && (Crisp(e, c) ==> Crisp(f, c)) && (NormalForm(e) ==> NormalForm(f))
    && (n > 0 || Dirty(e) ==> Dirty(f))
    && (n == 0 ==> f == e)
  }

  /** A chain that is not m keeps its value when a term that is m changes: another term decides it. */
  lemma {:induction false} ExtremeUpdate(op: Op, ts: seq<Expr>, i: nat, x: Expr, c: Config, v: Tri)
    requires i < |ts| && Extreme(op, ts, c, v) && (Val(x, c) == Val(ts[i], c) || (v != M && Val(ts[i], c) == M))
    ensures Extreme(op, ts[i := x], c, v)
  {
    var us := ts[i := x];
    var k :| 0 <= k < |ts| && Val(ts[k], c) == v;
    assert Val(us[k], c) == v;
    assert Apply(op, Val(ts[i], c), v) == v;
    assert Apply(op, Val(us[i], c), v) == v;
    assert forall l :: 0 <= l < |ts| && l != i ==> us[l] == ts[l];
  }

  lemma {:induction false} KeptUpdate(always: bool, op: Op, ts: seq<Expr>, i: nat, x: Expr, n: nat, c: Config)
    requires i < |ts| && KeptExpr(always, ts[i], x, n, c)
    ensures Kept(always, op, ts, ts[i := x], n, c)
  {
    var us := ts[i := x];
    var v := ChainVal(op, ts, c);
    if always || v != M {
      ChainValExtreme(op, ts, c);
      ExtremeUpdate(op, ts, i, x, c, v);
      ExtremeIsVal(op, us, c, v);
    }
    if n > 0 || DirtyTerms(ts) {
      if n > 0 || Dirty(ts[i]) {
        assert Dirty(us[i]);
      } else {
        var k :| 0 <= k < |ts| && Dirty(ts[k]);
        assert Dirty(us[k]);
      }
    }
  }

  lemma {:induction false} KeptJoin(always: bool, op: Op, ts: seq<Expr>, i: nat, j: nat, t: Expr, n: nat, c: Config)
    requires i < |ts| && j < |ts| && i != j && n > 0
    requires Val(t, c) == Apply(op, Val(ts[i], c), Val(ts[j], c))
    requires Crisp(ts[i], c) && Crisp(ts[j], c) ==> Crisp(t, c)
    requires NormalForm(ts[i]) && NormalForm(ts[j]) ==> NormalForm(t)
    ensures Kept(always, op, ts, ts[i := Sym(Unit(op))][j := t], n, c)
  {
    var us := ts[i := Sym(Unit(op))][j := t];
    var v := ChainVal(op, ts, c);
    ChainValExtreme(op, ts, c);
    ExtremeJoined(op, ts, i, j, t, c, v);
    ExtremeIsVal(op, us, c, v);
    assert Dirty(us[i]);
  }

  lemma {:induction false} ExtremeJoined(op: Op, ts: seq<Expr>, i: nat, j: nat, t: Expr, c: Config, v: Tri)
    requires i < |ts| && j < |ts| && i != j && Extreme(op, ts, c, v)
    requires Val(t, c) == Apply(op, Val(ts[i], c), Val(ts[j], c))
    ensures Extreme(op, ts[i := Sym(Unit(op))][j := t], c, v)
  {
    var us := ts[i := Sym(Unit(op))][j := t];
    var k :| 0 <= k < |ts| && Val(ts[k], c) == v;
    assert Apply(op, Val(ts[i], c), v) == v && Apply(op, Val(ts[j], c), v) == v;
    assert Val(us[if k == i then j else k], c) == v;
    assert Apply(op, Val(us[i], c), v) == v && Apply(op, Val(us[j], c), v) == v;
    assert forall l :: 0 <= l < |ts| && l != i && l != j ==> us[l] == ts[l];
  }

  lemma {:induction false} KeptTrans(always: bool, op: Op, ts: seq<Expr>, us: seq<Expr>, vs: seq<Expr>, m: nat, n: nat, c: Config)
    requires Kept(always, op, ts, us, m, c) && Kept(always, op, us, vs, n, c)
    ensures Kept(always, op, ts, vs, m + n, c)
  {
  }

  lemma {:induction false} KeptBuild(always: bool, e: Expr, us: seq<Expr>, n: nat, c: Config)
    requires e.Bin? && |us| == |Terms(e.op, e)| && Kept(always, e.op, Terms(e.op, e), us, n, c)
    ensures KeptExpr(always, e, Build(e.op, SpineOf(e.op, e), us), n, c)
  {
    var op, s, ts := e.op, SpineOf(e.op, e), Terms(e.op, e);
    BuildTerms(op, e);
    BuildVal(op, s, ts, c);
    BuildVal(op, s, us, c);
    BuildCrisp(op, s, ts, c);
    ExtremeIsVal(op, ts, c, Val(e, c));
    ExtremeIsVal(op, us, c, Val(Build(op, s, us), c));
    BuildCrisp(op, s, us, c);
    BuildNormal(op, s, ts);
    BuildNormal(op, s, us);
    BuildDirty(op, s, ts);
    BuildDirty(op, s, us);
  }

  lemma {:induction false} Pair1Kept(op: Op, ts: seq<Expr>, i: nat, j: nat, bound: nat, c: Config)
    requires Chain(op, ts, bound) && i < |ts| && j < |ts|
    ensures var r := Pair1(op, ts, i, j, bound); Kept(true, op, ts, r.0, r.1, c)
    decreases bound, 0, 0
  {
    if i != j {
      TermInChain(op, ts, bound, i);
      var p := if ts[i].Bin? then Dups1(ts[i]) else (ts[i], 0);
      if ts[i].Bin? {
        Dups1Kept(ts[i], c);
      }
      KeptUpdate(true, op, ts, i, p.0, p.1, c);
      var t := Join(op, p.0, ts[j]);
      if t.Some? {
        JoinSound(op, p.0, ts[j], c);
        KeptJoin(true, op, ts, i, j, t.value, p.1 + 1, c);
      }
    }
  }

  lemma {:induction false} Right1Kept(op: Op, ts: seq<Expr>, i: nat, s2: Spine, j: nat, bound: nat, c: Config)
    requires Chain(op, ts, bound) && i < |ts| && j + Width(s2) <= |ts|
    ensures var r := Right1(op, ts, i, s2, j, bound); Kept(true, op, ts, r.0, r.1, c)
    decreases bound, 1, s2
  {
    match s2
    case Leaf => Pair1Kept(op, ts, i, j, bound, c);
    case Node(l, r) =>
      var p := Right1(op, ts, i, l, j, bound);
      var q := Right1(op, p.0, i, r, j + Width(l), bound);
      assert Right1(op, ts, i, s2, j, bound) == (q.0, p.1 + q.1);
      assert Kept(true, op, ts, q.0, p.1 + q.1, c) by {
        Right1Kept(op, ts, i, l, j, bound, c);
        Right1Kept(op, p.0, i, r, j + Width(l), bound, c);
        KeptTrans(true, op, ts, p.0, q.0, p.1, q.1, c);
      }
  }

  lemma {:induction false} Left1Kept(op: Op, ts: seq<Expr>, s1: Spine, i: nat, s: Spine, bound: nat, c: Config)
    requires Chain(op, ts, bound) && i + Width(s1) <= |ts| == Width(s)
    ensures var r := Left1(op, ts, s1, i, s, bound); Kept(true, op, ts, r.0, r.1, c)
    decreases bound, 2, s1
  {
    match s1
    case Leaf => Right1Kept(op, ts, i, s, 0, bound, c);
    case Node(l, r) =>
      var k := i + Width(l);
      var p := Left1(op, ts, l, i, s, bound);
      var q := Left1(op, p.0, r, k, s, bound);
      assert Left1(op, ts, s1, i, s, bound) == (q.0, p.1 + q.1);
      assert Kept(true, op, ts, q.0, p.1 + q.1, c) by {
        Left1Kept(op, ts, l, i, s, bound, c);
        Left1Kept(op, p.0, r, k, s, bound, c);
        KeptTrans(true, op, ts, p.0, q.0, p.1, q.1, c);
      }
  }

  /** The first pass keeps the value in every configuration. */
  lemma {:induction false} Dups1Kept(e: Expr, c: Config)
    requires e.Bin?
    ensures var r := Dups1(e); KeptExpr(true, e, r.0, r.1, c)
    decreases Size(e), 3, 0
  {
    var s, ts := SpineOf(e.op, e), Terms(e.op, e);
    TermsChain(e.op, e);
    var p := Left1(e.op, ts, s, 0, s, Size(e));
    Left1Kept(e.op, ts, s, 0, s, Size(e), c);
    KeptBuild(true, e, p.0, p.1, c);
  }

  // ----- expr_eliminate_dups2 -----

  /** Term i against e2, which is another term or an inner node of the chain (and may then
      contain term i). When everything the negation of term i consists of is found in e2, the
      two exclude each other and term i becomes the zero of the chain. */
  function Step2(op: Op, ts: seq<Expr>, i: nat, s2: Spine, j: nat, ghost bound: nat): (r: (seq<Expr>, nat))
    requires Chain(op, ts, bound) && i < |ts| && j + Width(s2) <= |ts|
    ensures |r.0| == |ts| && Chain(op, r.0, bound)
    decreases bound, 0, s2
  {
    if !ts[i].Bin? then (ts, 0) else
    TermInChain(op, ts, bound, i);
    var p := Dups2(ts[i]);
    SumSizeUpdate(ts, i, p.0);
    var us := ts[i := p.0];
    var t := ExtractCommon(op, Transform(Not(p.0)), Build(op, s2, us[j..j + Width(s2)]));
    if t.1 != Sym(Unit(op)) then (us, p.1) else
    SumSizeUpdate(us, i, Sym(Zero(op)));
    (us[i := Sym(Zero(op))], p.1 + 1)
  }

  /** The right pointer visits the parts of s2 and then s2 itself. */
  function Right2(op: Op, ts: seq<Expr>, i: nat, s2: Spine, j: nat, ghost bound: nat): (r: (seq<Expr>, nat))
    requires Chain(op, ts, bound) && i < |ts| && j + Width(s2) <= |ts|
    ensures |r.0| == |ts| && Chain(op, r.0, bound)
    decreases bound, 1, s2, 1
  {
    var p := Halves2(op, ts, i, s2, j, bound);
    if s2.Leaf? && i == j then p else
    var t := Step2(op, p.0, i, s2, j, bound);
    (t.0, p.1 + t.1)
  }

  /** The two halves of e2, when it has any, before e2 itself. */
  function Halves2(op: Op, ts: seq<Expr>, i: nat, s2: Spine, j: nat, ghost bound: nat): (r: (seq<Expr>, nat))
    requires Chain(op, ts, bound) && i < |ts| && j + Width(s2) <= |ts|
    ensures |r.0| == |ts| && Chain(op, r.0, bound)
    decreases bound, 1, s2, 0
  {
    match s2
    case Leaf => (ts, 0)
    case Node(l, r) =>
      var p := Right2(op, ts, i, l, j, bound);
      var q := Right2(op, p.0, i, r, j + Width(l), bound);
      (q.0, p.1 + q.1)
  }

  function Left2(op: Op, ts: seq<Expr>, s1: Spine, i: nat, s: Spine, ghost bound: nat): (r: (seq<Expr>, nat))
    requires Chain(op, ts, bound) && i + Width(s1) <= |ts| == Width(s)
    ensures |r.0| == |ts| && Chain(op, r.0, bound)
    decreases bound, 2, s1
  {
    match s1
    case Leaf => Right2(op, ts, i, s, 0, bound)
    case Node(l, r) =>
      var p := Left2(op, ts, l, i, s, bound);
      var q := Left2(op, p.0, r, i + Width(l), s, bound);
      (q.0, p.1 + q.1)
  }

  /** expr_eliminate_dups2 with both pointers at the root, and the number of rewrites. */
  function Dups2(e: Expr): (r: (Expr, nat))
    requires e.Bin?
    ensures IsOp(e.op, r.0) && Size(r.0) <= Size(e)
    decreases Size(e), 3, 0
  {
    var s := SpineOf(e.op, e);
    TermsChain(e.op, e);
    var p := Left2(e.op, Terms(e.op, e), s, 0, s, Size(e));
    BuildSize(e.op, s, p.0);
    (Build(e.op, s, p.0), p.1)
  }

  /** The extreme of a chain that contains a value and, in another part, its opposite, if it is not m. */
  lemma OpposedTerms(op: Op, t: Tri, e2: Tri, common: Tri, rest: Tri, v: Tri, c: Config)
    requires v != M
    requires 2 - t == Apply(op, common, SymVal(Unit(op), c)) && e2 == Apply(op, common, rest)
    requires Apply(op, t, v) == v && Apply(op, e2, v) == v
    ensures v == SymVal(Zero(op), c)
  {
  }

  /** What the negation of t has in common with e2 is all of it. */
  lemma {:induction false} SharedNegation(op: Op, t: Expr, e2: Expr, c: Config) returns (common: Tri, rest: Tri)
    requires ExtractCommon(op, Transform(Not(t)), e2).1 == Sym(Unit(op))
    ensures 2 - Val(t, c) == Apply(op, common, SymVal(Unit(op), c)) && Val(e2, c) == Apply(op, common, rest)
  {
    var f := Transform(Not(t));
    var r := ExtractCommon(op, f, e2);
    ExtractCommonSound(op, f, e2, c);
    TransformSound(Not(t), c);
    common, rest := AccVal(op, r.0, c), Val(r.2, c);
  }

  lemma {:induction false} TermBounded(op: Op, ts: seq<Expr>, i: nat, c: Config, v: Tri)
    requires i < |ts| && Extreme(op, ts, c, v)
    ensures Apply(op, Val(ts[i], c), v) == v
  {
  }

  /** A term whose negation is contained in another part of the chain makes the chain its zero, or m. */
  lemma {:induction false} ExclusionDecides(op: Op, ts: seq<Expr>, i: nat, s2: Spine, j: nat, c: Config, v: Tri)
    requires i < |ts| && j + Width(s2) <= |ts|
    requires ExtractCommon(op, Transform(Not(ts[i])), Build(op, s2, ts[j..j + Width(s2)])).1 == Sym(Unit(op))
    requires Extreme(op, ts, c, v) && v != M
    ensures v == SymVal(Zero(op), c)
  {
    var t, e2 := ts[i], Build(op, s2, ts[j..j + Width(s2)]);
    PartBounded(op, ts, s2, j, c, v);
    TermBounded(op, ts, i, c, v);
    var common, rest := SharedNegation(op, t, e2, c);
    OpposedTerms(op, Val(t, c), Val(e2, c), common, rest, v, c);
  }

  lemma {:induction false} PartBounded(op: Op, ts: seq<Expr>, s2: Spine, j: nat, c: Config, v: Tri)
    requires j + Width(s2) <= |ts| && Extreme(op, ts, c, v)
    ensures var x := Val(Build(op, s2, ts[j..j + Width(s2)]), c); Apply(op, x, v) == v
  {
    var part := ts[j..j + Width(s2)];
    BuildVal(op, s2, part, c);
    PartExtreme(op, ts, part, j, c, Val(Build(op, s2, part), c), v);
  }

  lemma {:induction false} PartExtreme(op: Op, ts: seq<Expr>, part: seq<Expr>, j: nat, c: Config, x: Tri, v: Tri)
    requires j + |part| <= |ts| && part == ts[j..j + |part|] && Extreme(op, part, c, x) && Extreme(op, ts, c, v)
    ensures Apply(op, x, v) == v
  {
    var k :| 0 <= k < |part| && Val(part[k], c) == x;
    assert part[k] == ts[j + k];
  }

  lemma {:induction false} KeptExclusion(op: Op, ts: seq<Expr>, i: nat, s2: Spine, j: nat, n: nat, c: Config)
    requires i < |ts| && j + Width(s2) <= |ts| && n > 0
    requires ExtractCommon(op, Transform(Not(ts[i])), Build(op, s2, ts[j..j + Width(s2)])).1 == Sym(Unit(op))
    ensures Kept(false, op, ts, ts[i := Sym(Zero(op))], n, c)
  {
    var us := ts[i := Sym(Zero(op))];
    ExclusionExact(op, ts, i, s2, j, c);
    assert Dirty(us[i]);
  }

  /** Every exclusion keeps the value of its chain in exactly those configurations in which it is not m. */
  lemma {:induction false} ExclusionExact(op: Op, ts: seq<Expr>, i: nat, s2: Spine, j: nat, c: Config)
    requires i < |ts| && j + Width(s2) <= |ts|
    requires ExtractCommon(op, Transform(Not(ts[i])), Build(op, s2, ts[j..j + Width(s2)])).1 == Sym(Unit(op))
    ensures ChainVal(op, ts[i := Sym(Zero(op))], c) == ChainVal(op, ts, c) <==> ChainVal(op, ts, c) != M
  {
    var us, v, z := ts[i := Sym(Zero(op))], ChainVal(op, ts, c), SymVal(Zero(op), c);
    ChainValExtreme(op, ts, c);
    if v != M {
      ExclusionDecides(op, ts, i, s2, j, c, v);
    }
    assert Val(us[i], c) == z && forall k :: 0 <= k < |us| ==> Apply(op, Val(us[k], c), z) == z;
    ExtremeIsVal(op, us, c, z);
  }

  lemma {:induction false} Step2Kept(op: Op, ts: seq<Expr>, i: nat, s2: Spine, j: nat, bound: nat, c: Config)
    requires Chain(op, ts, bound) && i < |ts| && j + Width(s2) <= |ts|
    ensures var r := Step2(op, ts, i, s2, j, bound); Kept(false, op, ts, r.0, r.1, c)
    decreases bound, 0, s2
  {
    if ts[i].Bin? {
      TermInChain(op, ts, bound, i);
      var p := Dups2(ts[i]);
      Dups2Kept(ts[i], c);
      TermKept(op, ts, i, p.0, p.1, s2, j, c);
    }
  }

  /** A term that has been rewritten, and is excluded or not. */
  lemma {:induction false} TermKept(op: Op, ts: seq<Expr>, i: nat, x: Expr, n: nat, s2: Spine, j: nat, c: Config)
    requires i < |ts| && j + Width(s2) <= |ts| && KeptExpr(false, ts[i], x, n, c)
    ensures var us := ts[i := x];
            && Kept(false, op, ts, us, n, c)
            && (ExtractCommon(op, Transform(Not(x)), Build(op, s2, us[j..j + Width(s2)])).1 == Sym(Unit(op)) ==>
                  Kept(false, op, ts, us[i := Sym(Zero(op))], n + 1, c))
  {
    var us := ts[i := x];
    KeptUpdate(false, op, ts, i, x, n, c);
    if ExtractCommon(op, Transform(Not(x)), Build(op, s2, us[j..j + Width(s2)])).1 == Sym(Unit(op)) {
      KeptExclusion(op, us, i, s2, j, 1, c);
      KeptTrans(false, op, ts, us, us[i := Sym(Zero(op))], n, 1, c);
    }
  }

  lemma {:induction false} Right2Kept(op: Op, ts: seq<Expr>, i: nat, s2: Spine, j: nat, bound: nat, c: Config)
    requires Chain(op, ts, bound) && i < |ts| && j + Width(s2) <= |ts|
    ensures var r := Right2(op, ts, i, s2, j, bound); Kept(false, op, ts, r.0, r.1, c)
    decreases bound, 1, s2, 1
  {
    Halves2Kept(op, ts, i, s2, j, bound, c);
    if !(s2.Leaf? && i == j) {
      var p := Halves2(op, ts, i, s2, j, bound);
      var t := Step2(op, p.0, i, s2, j, bound);
      assert Right2(op, ts, i, s2, j, bound) == (t.0, p.1 + t.1);
      Step2Kept(op, p.0, i, s2, j, bound, c);
      KeptTrans(false, op, ts, p.0, t.0, p.1, t.1, c);
    }
  }

  lemma {:induction false} Halves2Kept(op: Op, ts: seq<Expr>, i: nat, s2: Spine, j: nat, bound: nat, c: Config)
    requires Chain(op, ts, bound) && i < |ts| && j + Width(s2) <= |ts|
    ensures var r := Halves2(op, ts, i, s2, j, bound); Kept(false, op, ts, r.0, r.1, c)
    decreases bound, 1, s2, 0
  {
    if s2.Node? {
      var k := j + Width(s2.left);
      var p := Right2(op, ts, i, s2.left, j, bound);
      var q := Right2(op, p.0, i, s2.right, k, bound);
      assert Halves2(op, ts, i, s2, j, bound) == (q.0, p.1 + q.1);
      assert Kept(false, op, ts, q.0, p.1 + q.1, c) by {
        Right2Kept(op, ts, i, s2.left, j, bound, c);
        Right2Kept(op, p.0, i, s2.right, k, bound, c);
        KeptTrans(false, op, ts, p.0, q.0, p.1, q.1, c);
      }
    }
  }

  lemma {:induction false} Left2Kept(op: Op, ts: seq<Expr>, s1: Spine, i: nat, s: Spine, bound: nat, c: Config)
    requires Chain(op, ts, bound) && i + Width(s1) <= |ts| == Width(s)
    ensures var r := Left2(op, ts, s1, i, s, bound); Kept(false, op, ts, r.0, r.1, c)
    decreases bound, 2, s1
  {
    match s1
    case Leaf => Right2Kept(op, ts, i, s, 0, bound, c);
    case Node(l, r) =>
      var k := i + Width(l);
      var p := Left2(op, ts, l, i, s, bound);
      var q := Left2(op, p.0, r, k, s, bound);
      assert Left2(op, ts, s1, i, s, bound) == (q.0, p.1 + q.1);
      assert Kept(false, op, ts, q.0, p.1 + q.1, c) by {
        Left2Kept(op, ts, l, i, s, bound, c);
        Left2Kept(op, p.0, r, k, s, bound, c);
        KeptTrans(false, op, ts, p.0, q.0, p.1, q.1, c);
      }
  }

  /** The second pass keeps every value that is not m, in every configuration. */
  lemma {:induction false} Dups2Kept(e: Expr, c: Config)
    requires e.Bin?
    ensures var r := Dups2(e); KeptExpr(false, e, r.0, r.1, c)
    decreases Size(e), 3, 0
  {
    var s, ts := SpineOf(e.op, e), Terms(e.op, e);
    TermsChain(e.op, e);
    var p := Left2(e.op, ts, s, 0, s, Size(e));
    Left2Kept(e.op, ts, s, 0, s, Size(e), c);
    KeptBuild(false, e, p.0, p.1, c);
  }

  // ----- expr_eliminate_dups -----

  /** A configuration of no importance: what a pass counts does not depend on one. */
  ghost const AllNo := Config((_: string) => false, (_: string) => N)

  /** Both passes over a chain, with the number of rewrites. */
  function Pass(e: Expr): (r: (Expr, nat))
    requires e.Bin?
    ensures Size(r.0) <= Size(e)
  {
    var p := Dups1(e);
    var q := Dups2(p.0);
    (q.0, p.1 + q.1)
  }

  lemma {:induction false} PassKept(e: Expr, c: Config)
    requires e.Bin?
    ensures var r := Pass(e); KeptExpr(false, e, r.0, r.1, c)
  {
    Dups1Kept(e, c);
    Dups2Kept(Dups1(e).0, c);
  }

  /** Every pass that counts a rewrite loses a node once constants are eliminated. */
  lemma {:induction false} PassShrinks(e: Expr)
    requires e.Bin? && Pass(e).1 > 0
    ensures Size(EliminateYn(Pass(e).0)) < Size(e)
  {
    PassKept(e, AllNo);
    EliminateYnExact(Pass(e).0);
  }

  /** What the loop computes. */
  function Deduped(e: Expr): (r: Expr)
    decreases Size(e)
  {
    if !e.Bin? then e else
    var p := Pass(e);
    if p.1 == 0 then p.0 else
    PassShrinks(e);
    Deduped(EliminateYn(p.0))
  }

  // ----- nothing is left to join -----

  /** In every chain, down to the first term that is not a chain itself, no two terms make up one. */
  ghost predicate DupFree(e: Expr)
    decreases Size(e)
  {
    e.Bin? ==>
    var ts := Terms(e.op, e);
    && (forall i, j, z :: 0 <= i < |ts| && 0 <= j < |ts| && i != j ==> !MakeUp(e.op, ts[i], ts[j], z))
    && (forall i :: 0 <= i < |ts| ==> DupFree(ts[i]))
  }

  /** A pass has found nothing to do at this pair of terms, nor within the first of them. */
  ghost predicate Quiet(op: Op, x: Expr, y: Expr) { Join(op, x, y).None? && (x.Bin? ==> Dups1(x).1 == 0) }

  lemma {:induction false} Pair1Quiet(op: Op, ts: seq<Expr>, i: nat, j: nat, bound: nat)
    requires Chain(op, ts, bound) && i < |ts| && j < |ts| && i != j && Pair1(op, ts, i, j, bound).1 == 0
    ensures Quiet(op, ts[i], ts[j])
  {
    TermInChain(op, ts, bound, i);
    if ts[i].Bin? {
      Dups1Kept(ts[i], AllNo);
    }
  }

  lemma {:induction false} Right1Quiet(op: Op, ts: seq<Expr>, i: nat, s2: Spine, j: nat, bound: nat, k: nat)
    requires Chain(op, ts, bound) && i < |ts| && j + Width(s2) <= |ts| && Right1(op, ts, i, s2, j, bound).1 == 0
    requires j <= k < j + Width(s2) && k != i
    ensures Quiet(op, ts[i], ts[k])
    decreases s2
  {
    match s2
    case Leaf => Pair1Quiet(op, ts, i, j, bound);
    case Node(l, r) =>
      Right1Kept(op, ts, i, l, j, bound, AllNo);
      if k < j + Width(l) {
        Right1Quiet(op, ts, i, l, j, bound, k);
      } else {
        Right1Quiet(op, ts, i, r, j + Width(l), bound, k);
      }
  }

  lemma {:induction false} Left1Quiet(op: Op, ts: seq<Expr>, s1: Spine, i: nat, s: Spine, bound: nat, k: nat, m: nat)
    requires Chain(op, ts, bound) && i + Width(s1) <= |ts| == Width(s) && Left1(op, ts, s1, i, s, bound).1 == 0
    requires i <= k < i + Width(s1) && m < |ts| && m != k
    ensures Quiet(op, ts[k], ts[m])
    decreases s1
  {
    match s1
    case Leaf => Right1Quiet(op, ts, i, s, 0, bound, m);
    case Node(l, r) =>
      Left1Kept(op, ts, l, i, s, bound, AllNo);
      if k < i + Width(l) {
        Left1Quiet(op, ts, l, i, s, bound, k, m);
      } else {
        Left1Quiet(op, ts, r, i + Width(l), s, bound, k, m);
      }
  }

  lemma {:induction false} QuietPair(e: Expr, i: nat, j: nat)
    requires e.Bin? && Dups1(e).1 == 0 && i < |Terms(e.op, e)| && j < |Terms(e.op, e)| && i != j
    ensures Quiet(e.op, Terms(e.op, e)[i], Terms(e.op, e)[j])
  {
    var s := SpineOf(e.op, e);
    TermsChain(e.op, e);
    Left1Quiet(e.op, Terms(e.op, e), s, 0, s, Size(e), i, j);
  }

  lemma {:induction false} QuietDupFree(e: Expr)
    requires e.Bin? ==> Dups1(e).1 == 0
    ensures DupFree(e)
    decreases Size(e)
  {
    if e.Bin? {
      var ts := Terms(e.op, e);
      forall i, j, z | 0 <= i < |ts| && 0 <= j < |ts| && i != j ensures !MakeUp(e.op, ts[i], ts[j], z) {
        QuietPair(e, i, j);
        JoinExact(e.op, ts[i], ts[j], z);
      }
      forall i | 0 <= i < |ts| ensures DupFree(ts[i]) {
        QuietPair(e, i, if i == 0 then 1 else 0);
        QuietDupFree(ts[i]);
      }
    }
  }

  /** The loop stops when no two terms of a chain compare equal or make up one by a rule. */
  lemma {:induction false} DedupedDupFree(e: Expr)
    ensures DupFree(Deduped(e))
    decreases Size(e)
  {
    if e.Bin? {
      PassKept(e, AllNo);
      if Pass(e).1 > 0 {
        PassShrinks(e);
        DedupedDupFree(EliminateYn(Pass(e).0));
      } else {
        QuietDupFree(e);
      }
    }
  }

  // ----- the loop -----

  /** In every configuration, a value that is y or n is kept. */
  lemma {:induction false} DedupedSound(e: Expr, c: Config)
    ensures Val(e, c) != M ==> Val(Deduped(e), c) == Val(e, c)
    ensures Crisp(e, c) ==> Crisp(Deduped(e), c)
    decreases Size(e)
  {
    if e.Bin? {
      PassKept(e, c);
      var p := Pass(e);
      if p.1 > 0 {
        PassShrinks(e);
        EliminateYnSound(p.0, c);
        DedupedSound(EliminateYn(p.0), c);
      }
    }
  }

  /** expr_eliminate_dups: passes are repeated until one counts no rewrite. */
  method EliminateDups(e: Expr) returns (r: Expr)
    ensures r == Deduped(e)
    ensures Size(r) <= Size(e)
    ensures forall c :: Val(e, c) != M ==> Val(r, c) == Val(e, c)
    ensures forall c :: Crisp(e, c) ==> Crisp(r, c)
    ensures DupFree(r)
  {
    r := Passes(e);
    DedupedDupFree(e);
    forall c ensures (Val(e, c) != M ==> Val(r, c) == Val(e, c)) && (Crisp(e, c) ==> Crisp(r, c)) {
      DedupedSound(e, c);
    }
  }

  /** The loop. */
  method Passes(e: Expr) returns (r: Expr)
    ensures r == Deduped(e) && Size(r) <= Size(e)
  {
    r := e;
    while true
      invariant Size(r) <= Size(e)
      invariant Deduped(r) == Deduped(e)
      decreases Size(r)
    {
      var transCount := 0;
      ghost var before := r;
      if r.Bin? {
        var p := Dups1(r);
        var q := Dups2(p.0);
        r, transCount := q.0, p.1 + q.1;
      }
      if transCount == 0 {
        if before.Bin? { PassKept(before, AllNo); }
        return;
      }
      PassShrinks(before);
      r := EliminateYn(r);
    }
  }

  lemma {:induction false} EliminateYnNormal(e: Expr)
    requires NormalForm(e)
    ensures NormalForm(EliminateYn(e))
  {
    if e.Bin? {
      EliminateYnNormal(e.l);
      EliminateYnNormal(e.r);
    }
  }

  lemma {:induction false} DedupedNormal(e: Expr)
    requires NormalForm(e)
    ensures NormalForm(Deduped(e))
    decreases Size(e)
  {
    if e.Bin? {
      PassKept(e, AllNo);
      var p := Pass(e);
      if p.1 > 0 {
        PassShrinks(e);
        EliminateYnNormal(p.0);
        DedupedNormal(EliminateYn(p.0));
      }
    }
  }

  /** What the loop returns has nothing left to rewrite: running it again changes nothing. */
  lemma {:induction false} DedupedIdempotent(e: Expr)
    ensures Deduped(Deduped(e)) == Deduped(e)
    decreases Size(e)
  {
    if e.Bin? {
      PassKept(e, AllNo);
      if Pass(e).1 > 0 {
        PassShrinks(e);
        DedupedIdempotent(EliminateYn(Pass(e).0));
      }
    }
  }

  /** Terms that are not chains themselves are left alone by the second pass. */
  lemma {:induction false} Right2Flat(op: Op, ts: seq<Expr>, i: nat, s2: Spine, j: nat, bound: nat)
    requires Chain(op, ts, bound) && i < |ts| && j + Width(s2) <= |ts|
    requires !ts[i].Bin?
    ensures Right2(op, ts, i, s2, j, bound) == (ts, 0)
  {
    if s2.Node? {
      Right2Flat(op, ts, i, s2.left, j, bound);
      Right2Flat(op, ts, i, s2.right, j + Width(s2.left), bound);
    }
  }

  lemma {:induction false} Left2Flat(op: Op, ts: seq<Expr>, s1: Spine, i: nat, s: Spine, bound: nat)
    requires Chain(op, ts, bound) && i + Width(s1) <= |ts| == Width(s)
    requires forall k :: i <= k < i + Width(s1) ==> !ts[k].Bin?
    ensures Left2(op, ts, s1, i, s, bound) == (ts, 0)
  {
    match s1
    case Leaf => Right2Flat(op, ts, i, s, 0, bound);
    case Node(l, r) =>
      Left2Flat(op, ts, l, i, s, bound);
      Left2Flat(op, ts, r, i + Width(l), s, bound);
  }

  lemma {:induction false} TermsOfPair(op: Op, x: Expr, y: Expr)
    requires !IsOp(op, x) && !IsOp(op, y)
    ensures Terms(op, Bin(op, x, y)) == [x, y] && SpineOf(op, Bin(op, x, y)) == Node(Leaf, Leaf)
  {
    assert Terms(op, x) == [x] && Terms(op, y) == [y];
  }

  lemma {:induction false} Dups2Flat(op: Op, x: Expr, y: Expr)
    requires !x.Bin? && !y.Bin?
    ensures Dups2(Bin(op, x, y)) == (Bin(op, x, y), 0)
  {
    var e := Bin(op, x, y);
    var s, ts := SpineOf(op, e), Terms(op, e);
    TermsOfPair(op, x, y);
    TermsChain(op, e);
    Left2Flat(op, ts, s, 0, s, Size(e));
    BuildTerms(op, e);
  }

  /** A chain of two terms that do not join is already free of duplicates. */
  lemma {:induction false} DedupedFlat(op: Op, x: Expr, y: Expr)
    requires !x.Bin? && !y.Bin? && Join(op, x, y).None? && Join(op, y, x).None?
    ensures Deduped(Bin(op, x, y)) == Bin(op, x, y)
  {
    var e := Bin(op, x, y);
    var s, ts, n := SpineOf(op, e), Terms(op, e), Size(e);
    TermsOfPair(op, x, y);
    TermsChain(op, e);
    assert Left1(op, ts, s, 0, s, n) == (ts, 0) by {
      assert ts[0 := x] == ts && ts[1 := y] == ts;
      assert Pair1(op, ts, 0, 1, n) == (ts, 0);
      assert Pair1(op, ts, 1, 0, n) == (ts, 0);
      assert Right1(op, ts, 0, Leaf, 0, n) == (ts, 0);
      assert Right1(op, ts, 0, Leaf, 0 + Width(Leaf), n) == (ts, 0);
      assert Right1(op, ts, 1, Leaf, 0, n) == (ts, 0);
      assert Right1(op, ts, 1, Leaf, 0 + Width(Leaf), n) == (ts, 0);
      assert Right1(op, ts, 0, s, 0, n) == (ts, 0) && Right1(op, ts, 1, s, 0, n) == (ts, 0);
    }
    assert Dups1(e) == (e, 0) by { BuildTerms(op, e); }
    Dups2Flat(op, x, y);
  }

  lemma {:induction false} JoinWithUnit(op: Op, z: Expr)
    requires !z.Bin?
    ensures var r := Join(op, z, Sym(Unit(op))); r.Some? ==> z == Sym(Unit(op)) && r.value == z
  {
  }

  lemma {:induction false} FirstPair(op: Op, ts: seq<Expr>, z: Expr, n: nat)
    requires |ts| == 2 && Chain(op, ts, n) && !ts[0].Bin? && Join(op, ts[0], ts[1]) == Some(z)
    ensures Right1(op, ts, 0, Node(Leaf, Leaf), 0, n) == ([Sym(Unit(op)), z], 1)
  {
    assert ts[0 := Sym(Unit(op))][1 := z] == [Sym(Unit(op)), z];
    assert Pair1(op, ts, 0, 1, n) == ([Sym(Unit(op)), z], 1);
    assert Right1(op, ts, 0, Leaf, 0, n) == (ts, 0);
    assert Right1(op, ts, 0, Leaf, 0 + Width(Leaf), n) == ([Sym(Unit(op)), z], 1);
  }

  lemma {:induction false} SecondPair(op: Op, us: seq<Expr>, z: Expr, n: nat)
    requires us == [Sym(Unit(op)), z] && Chain(op, us, n) && !z.Bin?
    ensures Right1(op, us, 1, Node(Leaf, Leaf), 0, n).0 == us
  {
    JoinWithUnit(op, z);
    var q := Pair1(op, us, 1, 0, n);
    assert us[1 := z] == us && us[1 := Sym(Unit(op))][0 := z] == [z, Sym(Unit(op))];
    assert q.0 == us;
    assert Right1(op, us, 1, Leaf, 0, n) == q;
    assert Right1(op, us, 1, Leaf, 0 + Width(Leaf), n) == (us, 0);
  }

  /** The pass over a chain of two terms that make up z. */
  lemma {:induction false} Dups1Pair(op: Op, x: Expr, y: Expr, z: Expr)
    requires !x.Bin? && !y.Bin? && Join(op, x, y) == Some(z)
    ensures var r := Dups1(Bin(op, x, y)); r.0 == Bin(op, Sym(Unit(op)), z) && r.1 > 0
  {
    var e, u, two := Bin(op, x, y), Sym(Unit(op)), Node(Leaf, Leaf);
    var ts, us, n := Terms(op, e), [u, z], Size(e);
    TermsOfPair(op, x, y);
    TermsChain(op, e);
    FirstPair(op, ts, z, n);
    SecondPair(op, us, z, n);
    assert Left1(op, ts, Leaf, 0, two, n) == (us, 1);
    assert Left1(op, us, Leaf, 0 + Width(Leaf), two, n).0 == us;
    assert us[..1] == [u] && us[1..] == [z];
    assert Build(op, two, us) == Bin(op, u, z);
  }

  lemma {:induction false} DedupedOnce(e: Expr, z: Expr)
    requires e.Bin? && !z.Bin? && Pass(e).1 > 0 && EliminateYn(Pass(e).0) == z
    ensures Deduped(e) == z
  {
  }

  lemma {:induction false} DedupedJoined(op: Op, x: Expr, y: Expr, z: Expr)
    requires !x.Bin? && !y.Bin? && Join(op, x, y) == Some(z)
    ensures Deduped(Bin(op, x, y)) == z
  {
    Dups1Pair(op, x, y, z);
    Dups2Flat(op, Sym(Unit(op)), z);
    assert EliminateYn(Bin(op, Sym(Unit(op)), z)) == z;
    DedupedOnce(Bin(op, x, y), z);
  }

  /** Two terms that make up one are replaced by it: FOO && FOO by FOO, FOO || !FOO by y. */
  lemma {:induction false} DedupedPair(op: Op, x: Expr, y: Expr, z: Expr)
    requires !x.Bin? && !y.Bin? && MakeUp(op, x, y, z)
    ensures Deduped(Bin(op, x, y)) == z
  {
    JoinExact(op, x, y, z);
    DedupedJoined(op, x, y, z);
  }

  lemma {:induction false} NegatedSymbolsEq(a: Symbol, b: Symbol)
    requires a != b
    ensures var na, nb, y := Not(Sym(a)), Not(Sym(b)), Sym(Yes);
            ExprEq(na, na) && ExprEq(nb, nb) && !ExprEq(na, nb) && !ExprEq(nb, y) && !ExprEq(y, nb)
  {
    var sa, sb := Sym(a), Sym(b);
    assert ExprEq(sa, sa) && ExprEq(sb, sb) && !ExprEq(sa, sb);
    var na, nb := Not(sa), Not(sb);
    assert ExprEq(na, na) == ExprEq(sa, sa);
    assert ExprEq(nb, nb) == ExprEq(sb, sb);
    assert ExprEq(na, nb) == ExprEq(sa, sb);
  }

  /** !a && !b loses to itself everything, to either of its terms only that term. */
  lemma {:induction false} ExtractExample(a: Symbol, b: Symbol)
    requires a != b
    ensures var na, nb := Not(Sym(a)), Not(Sym(b));
            var f := Bin(And, na, nb);
            && ExtractCommon(And, f, na).1 == nb
            && ExtractCommon(And, f, nb).1 == na
            && ExtractCommon(And, f, f).1 == Sym(Yes)
  {
    var na, nb, y := Not(Sym(a)), Not(Sym(b)), Sym(Yes);
    var f := Bin(And, na, nb);
    NegatedSymbolsEq(a, b);
    assert EliminateYn(na) == na && EliminateYn(nb) == nb && EliminateYn(y) == y;
    assert EliminateYn(Bin(And, y, nb)) == nb && EliminateYn(Bin(And, na, y)) == na;
    assert EliminateYn(Bin(And, y, y)) == y;
    assert ExtractEq(And, None, f, na) == (Some(na), Bin(And, y, nb), y);
    assert ExtractEq(And, None, f, nb) == (Some(nb), Bin(And, na, y), y);
    assert ExtractEq(And, None, na, f) == (Some(na), y, Bin(And, y, nb));
    assert ExtractEq(And, Some(na), nb, Bin(And, y, nb)) == (Some(f), y, Bin(And, y, y));
    assert ExtractEq(And, None, f, f) == (Some(f), Bin(And, y, y), Bin(And, y, y));
  }

  lemma {:induction false} Step2Unfold(op: Op, ts: seq<Expr>, i: nat, s2: Spine, j: nat, bound: nat, e2: Expr)
    requires Chain(op, ts, bound) && i < |ts| && j + Width(s2) <= |ts|
    requires ts[i].Bin? && Dups2(ts[i]) == (ts[i], 0) && e2 == Build(op, s2, ts[j..j + Width(s2)])
    ensures Step2(op, ts, i, s2, j, bound) ==
            if ExtractCommon(op, Transform(Not(ts[i])), e2).1 == Sym(Unit(op))
            then (ts[i := Sym(Zero(op))], 1) else (ts, 0)
  {
    assert ts[i := ts[i]] == ts;
  }

  /** A single term x that does not exclude the term a || b leaves it alone. */
  lemma {:induction false} Right2Leaf(ts: seq<Expr>, j: nat, bound: nat)
    requires Chain(And, ts, bound) && 0 < j < |ts| && ts[0].Bin? && Dups2(ts[0]) == (ts[0], 0)
    requires ExtractCommon(And, Transform(Not(ts[0])), ts[j]).1 != Sym(Yes)
    ensures Right2(And, ts, 0, Leaf, j, bound) == (ts, 0)
  {
    assert ts[j..j + 1] == [ts[j]];
    Step2Unfold(And, ts, 0, Leaf, j, bound, ts[j]);
  }

  lemma {:induction false} Right2Pair(ts: seq<Expr>, bound: nat)
    requires Chain(And, ts, bound) && |ts| == 3 && ts[0].Bin? && Dups2(ts[0]) == (ts[0], 0) && !ts[1].Bin? && !ts[2].Bin?
    requires Right2(And, ts, 0, Leaf, 1, bound) == (ts, 0) && Right2(And, ts, 0, Leaf, 2, bound) == (ts, 0)
    requires ExtractCommon(And, Transform(Not(ts[0])), Bin(And, ts[1], ts[2])).1 == Sym(Yes)
    ensures Right2(And, ts, 0, Node(Leaf, Leaf), 1, bound) == (ts[0 := Sym(No)], 1)
  {
    var f, two := Bin(And, ts[1], ts[2]), Node(Leaf, Leaf);
    assert Build(And, two, ts[1..3]) == f by { assert Terms(And, f) == ts[1..3]; BuildTerms(And, f); }
    assert Halves2(And, ts, 0, two, 1, bound) == (ts, 0);
    Step2Unfold(And, ts, 0, two, 1, bound, f);
  }

  /** Only the part !a && !b excludes the term a || b, which then becomes n. */
  lemma {:induction false} Right2Example(a: Symbol, b: Symbol, ts: seq<Expr>, bound: nat)
    requires Typed(a) && Typed(b) && a != b
    requires ts == [Bin(Or, Sym(a), Sym(b)), Not(Sym(a)), Not(Sym(b))] && Chain(And, ts, bound)
    ensures Right2(And, ts, 0, Node(Leaf, Node(Leaf, Leaf)), 0, bound) == (ts[0 := Sym(No)], 1)
  {
    var f, two, us := Bin(And, ts[1], ts[2]), Node(Leaf, Leaf), ts[0 := Sym(No)];
    assert Transform(Not(ts[0])) == f by { NormalIsFixed(f); }
    Dups2Flat(Or, Sym(a), Sym(b));
    ExtractExample(a, b);
    Right2Leaf(ts, 1, bound);
    Right2Leaf(ts, 2, bound);
    Right2Pair(ts, bound);
    assert Right2(And, ts, 0, Leaf, 0, bound) == (ts, 0);
    assert Halves2(And, ts, 0, Node(Leaf, two), 0, bound) == (us, 1);
  }

  lemma {:induction false} Dups2Example(a: Symbol, b: Symbol)
    requires Typed(a) && Typed(b) && a != b
    ensures var e := Bin(And, Bin(Or, Sym(a), Sym(b)), Bin(And, Not(Sym(a)), Not(Sym(b))));
            Dups2(e) == (e.(l := Sym(No)), 1)
  {
    var f := Bin(And, Not(Sym(a)), Not(Sym(b)));
    var e := Bin(And, Bin(Or, Sym(a), Sym(b)), f);
    var two := Node(Leaf, Leaf);
    var s, n := Node(Leaf, two), Size(e);
    TermsOfPair(And, f.l, f.r);
    var ts := Terms(And, e);
    assert SpineOf(And, e) == s && ts == [e.l, f.l, f.r] by { assert Terms(And, e.l) == [e.l]; }
    TermsChain(And, e);
    Right2Example(a, b, ts, n);
    var us := ts[0 := Sym(No)];
    assert Left2(And, ts, s, 0, s, n) == (us, 1) by {
      assert Left2(And, ts, Leaf, 0, s, n) == (us, 1);
      Left2Flat(And, us, two, 1, s, n);
    }
    assert Build(And, s, us) == Bin(And, Sym(No), f) by {
      assert us[..1] == [Sym(No)] && us[1..] == Terms(And, f);
      BuildTerms(And, f);
      assert Build(And, Leaf, us[..1]) == Sym(No);
    }
  }

  /** The second pass is not exact on m. The chain (a || b) && (!a && !b) becomes n, which is
      its value in a configuration exactly when the larger of a and b is not m there. */
  lemma {:induction false} Dups2NotExact(a: Symbol, b: Symbol, c: Config)
    requires Typed(a) && Typed(b) && a != b
    ensures var e := Bin(And, Bin(Or, Sym(a), Sym(b)), Bin(And, Not(Sym(a)), Not(Sym(b))));
            Val(Dups2(e).0, c) == Val(e, c) <==> Val(e.l, c) != M
  {
    var e := Bin(And, Bin(Or, Sym(a), Sym(b)), Bin(And, Not(Sym(a)), Not(Sym(b))));
    Dups2Example(a, b);
    var na, nb := e.r.l, e.r.r;
    assert Val(na, c) == 2 - Val(na.e, c) && Val(nb, c) == 2 - Val(nb.e, c);
    assert Val(e.r, c) == Apply(And, Val(na, c), Val(nb, c));
    assert Val(e.l, c) == Apply(Or, Val(na.e, c), Val(nb.e, c));
  }
}
