/**
 Rewriting of dependency expressions: negation normal form, the reading of a dependency
 as a yes/no question, and extraction of common terms (kconfig/expr.c).
 */
module KconfigTransform {
  import opened KconfigExpr
  import opened Wrappers

  // ----- expr_transform -----

  /** Weighs a negation twice, so that pushing it inwards makes the expression lighter. */
  ghost function Weight(e: Expr): (n: nat)
    ensures n >= 1
  {
    match e
    case Sym(_) => 1
    case Not(x) => 2 * Weight(x)
    case Bin(_, l, r) => 1 + Weight(l) + Weight(r)
    case Cmp(_, _, _) => 2
  }

  lemma PushedIsLighter(op: Op, l: Expr, r: Expr)
    ensures Weight(Bin(Other(op), Not(l), Not(r))) == 2 * Weight(Bin(op, l, r)) - 1
  {
    assert Weight(Not(l)) == 2 * Weight(l) && Weight(Not(r)) == 2 * Weight(r);
  }

  /** Boolean symbols are never compared with a constant: the test is the symbol or its negation. */
  function TransformCmp(e: Expr): (r: Expr)
    requires e.Cmp?
  {
    if !e.left.Boolean? then e
    else if e.right == No then if e.equal then Not(Sym(e.left)) else Sym(e.left)
    else if e.right == Mod then if e.equal then Sym(No) else Sym(Yes)
    else if e.right == Yes then if e.equal then Sym(e.left) else Not(Sym(e.left))
    else e
  }

  /** expr_transform. */
  function Transform(e: Expr): (r: Expr)
    ensures Weight(r) <= Weight(e)
    decreases Weight(e)
  {
    match e
    case Sym(_) => e
    case Cmp(_, _, _) => TransformCmp(e)
    case Bin(op, l, r) => Bin(op, Transform(l), Transform(r))
    case Not(x) =>
      var y := Transform(x);
      match y
      case Not(z) => Transform(z)
      case Cmp(eq, l, r) => Cmp(!eq, l, r)
      case Bin(op, l, r) => PushedIsLighter(op, l, r); Transform(Bin(Other(op), Not(l), Not(r)))
      case Sym(s) =>
        if s == Yes then Sym(No)
        else if s == Mod then Sym(Mod)
        else if s == No then Sym(Yes)
        else e.(e := y)
  }

  /** Negation stands only over symbols that are not constants, and no boolean symbol is
      compared with a constant. */
  predicate NormalForm(e: Expr)
  {
    match e
    case Sym(_) => true
    case Not(x) => x.Sym? && (x.s.Boolean? || x.s.Tristate?)
    case Bin(_, l, r) => NormalForm(l) && NormalForm(r)
    case Cmp(_, l, r) => l.Boolean? ==> r.Boolean? || r.Tristate?
  }

  lemma {:induction false} TransformSound(e: Expr, c: Config)
    ensures Val(Transform(e), c) == Val(e, c)
    decreases Weight(e)
  {
    match e
    case Sym(_) =>
    case Cmp(_, _, _) =>
    case Bin(_, l, r) => TransformSound(l, c); TransformSound(r, c);
    case Not(x) =>
      TransformSound(x, c);
      match Transform(x)
      case Not(z) => TransformSound(z, c);
      case Bin(op, l, r) => PushedIsLighter(op, l, r); TransformSound(Bin(Other(op), Not(l), Not(r)), c);
      case _ =>
  }

  lemma {:induction false} TransformNormal(e: Expr)
    ensures NormalForm(Transform(e))
    decreases Weight(e)
  {
    match e
    case Sym(_) =>
    case Cmp(_, _, _) =>
    case Bin(_, l, r) => TransformNormal(l); TransformNormal(r);
    case Not(x) =>
      TransformNormal(x);
      match Transform(x)
      case Not(z) => TransformNormal(z);
      case Bin(op, l, r) => PushedIsLighter(op, l, r); TransformNormal(Bin(Other(op), Not(l), Not(r)));
      case _ =>
  }

  /** The fixed points are exactly the normal forms. */
  lemma {:induction false} TransformFixpoint(e: Expr)
    ensures Transform(e) == e <==> NormalForm(e)
  {
    TransformNormal(e);
    if NormalForm(e) {
      NormalIsFixed(e);
    }
  }

  lemma {:induction false} NormalIsFixed(e: Expr)
    requires NormalForm(e)
    ensures Transform(e) == e
  {
    if e.Bin? {
      NormalIsFixed(e.l);
      NormalIsFixed(e.r);
    }
  }

  lemma {:induction false} TransformIdempotent(e: Expr)
    ensures Transform(Transform(e)) == Transform(e)
  {
    TransformNormal(e);
    NormalIsFixed(Transform(e));
  }

  /** No lone symbol appears that was not there, apart from constants y and n. */
  lemma {:induction false} TransformCrisp(e: Expr, c: Config)
    requires Crisp(e, c)
    ensures Crisp(Transform(e), c)
    decreases Weight(e)
  {
    match e
    case Sym(_) =>
    case Cmp(_, _, _) =>
    case Bin(_, l, r) => TransformCrisp(l, c); TransformCrisp(r, c);
    case Not(x) =>
      TransformCrisp(x, c);
      match Transform(x)
      case Not(z) => TransformCrisp(z, c);
      case Bin(op, l, r) => PushedIsLighter(op, l, r); TransformCrisp(Bin(Other(op), Not(l), Not(r)), c);
      case _ =>
  }

  // ----- expr_trans_compare -----

  /** expr_trans_compare on an expression: asks whether e is (or is not) the constant sym. */
  function TransCompare(e: Expr, equal: bool, sym: Symbol): (r: Option<Expr>)
    ensures sym.Yes? || sym.Mod? || sym.No? ==> r.Some?
    decreases e
  {
    match e
    case Bin(op, l, r) =>
      var a, b := TransCompare(l, true, sym), TransCompare(r, true, sym);
      var x := if sym.Yes? then Bin(op, a.value, b.value)
               else if sym.No? then Bin(Other(op), a.value, b.value)
               else e;
      Some(if equal then x else Not(x))
    case Not(x) => TransCompare(x, !equal, sym)
    case Cmp(_, _, _) =>
      if sym.Yes? then Some(if equal then e else Not(e))
      else if sym.Mod? then Some(Sym(if equal then No else Yes))
      else if sym.No? then Some(if equal then Not(e) else e)
      else None
    case Sym(s) => Some(Cmp(equal, s, sym))
  }

  /** A missing dependency compares as the constant itself. */
  function TransCompareOpt(e: Option<Expr>, equal: bool, sym: Symbol): (r: Option<Expr>)
    ensures sym.Yes? || sym.Mod? || sym.No? ==> r.Some?
  {
    match e
    case Some(x) => TransCompare(x, equal, sym)
    case None => Some(if equal then Sym(sym) else Not(Sym(sym)))
  }

  /** The two-valued reading of e in which a lone symbol is true when it passes the test:
      against n, when it is not n; against y, when it is y. */
  ghost predicate Reading(e: Expr, c: Config, sym: Symbol)
  {
    match e
    case Sym(s) => if sym.No? then SymVal(s, c) != N else SymVal(s, c) == SymVal(sym, c)
    case Not(x) => !Reading(x, c, sym)
    case Bin(op, l, r) =>
      if op == And then Reading(l, c, sym) && Reading(r, c, sym)
      else Reading(l, c, sym) || Reading(r, c, sym)
    case Cmp(_, _, _) => Val(e, c) == Y
  }

  /** Compared with y or n, the result is y or n and decides exactly the reading, in every
      configuration. */
  lemma {:induction false} TransCompareReads(e: Expr, equal: bool, sym: Symbol, c: Config)
    requires sym.Yes? || sym.No?
    ensures var r := TransCompare(e, equal, sym).value;
            Val(r, c) == if Reading(e, c, sym) == (equal == sym.Yes?) then Y else N
    ensures Crisp(TransCompare(e, equal, sym).value, c)
  {
    match e
    case Sym(_) =>
    case Cmp(_, _, _) =>
    case Not(x) => TransCompareReads(x, !equal, sym, c);
    case Bin(_, l, r) => TransCompareReads(l, true, sym, c); TransCompareReads(r, true, sym, c);
  }

  /** No negation has an operand that is m. */
  ghost predicate NoModNegated(e: Expr, c: Config)
  {
    match e
    case Not(x) => Val(x, c) != M && NoModNegated(x, c)
    case Bin(_, l, r) => NoModNegated(l, c) && NoModNegated(r, c)
    case _ => true
  }

  /** Then, and in particular on two-valued configurations, the reading is the value. */
  lemma {:induction false} ReadingIsValue(e: Expr, c: Config, sym: Symbol)
    requires sym.Yes? || sym.No?
    requires NoModNegated(e, c)
    ensures Reading(e, c, sym) <==> if sym.No? then Val(e, c) != N else Val(e, c) == Y
  {
    match e
    case Sym(_) =>
    case Cmp(_, _, _) =>
    case Not(x) =>
      ReadingIsValue(x, c, sym);
    case Bin(_, l, r) => ReadingIsValue(l, c, sym); ReadingIsValue(r, c, sym);
  }

  lemma {:induction false} CrispNoModNegated(e: Expr, c: Config)
    requires Crisp(e, c)
    ensures NoModNegated(e, c)
  {
    match e
    case Sym(_) =>
    case Cmp(_, _, _) =>
    case Not(x) => CrispNoModNegated(x, c); CrispValue(x, c);
    case Bin(_, l, r) => CrispNoModNegated(l, c); CrispNoModNegated(r, c);
  }

  /** In every configuration, the reading agrees with the value where that is y or n. */
  lemma {:induction false} ReadingBounds(e: Expr, c: Config, sym: Symbol)
    requires sym.Yes? || sym.No?
    ensures Val(e, c) == Y ==> Reading(e, c, sym)
    ensures Val(e, c) == N ==> !Reading(e, c, sym)
  {
    match e
    case Sym(_) =>
    case Cmp(_, _, _) =>
    case Not(x) => ReadingBounds(x, c, sym);
    case Bin(_, l, r) => ReadingBounds(l, c, sym); ReadingBounds(r, c, sym);
  }

  /** Whether e is not n is answered right exactly if e is not m, or is read as true. */
  lemma {:induction false} TransCompareExact(e: Expr, c: Config)
    ensures (Val(TransCompare(e, false, No).value, c) == Y <==> Val(e, c) != N) <==> (Val(e, c) != M || Reading(e, c, No))
  {
    TransCompareReads(e, false, No, c);
    ReadingBounds(e, c, No);
  }

  /** Whether e is y is answered right exactly if e is not m, or is not read as true. */
  lemma {:induction false} TransCompareYesExact(e: Expr, c: Config)
    ensures (Val(TransCompare(e, true, Yes).value, c) == Y <==> Val(e, c) == Y) <==> (Val(e, c) != M || !Reading(e, c, Yes))
  {
    TransCompareReads(e, true, Yes, c);
    ReadingBounds(e, c, Yes);
  }

  /** A failing input: !t is m when t is, but "!t != n" comes out as n. */
  lemma {:induction false} TransCompareNotExact(t: Symbol, c: Config)
    requires SymVal(t, c) == M
    ensures Val(Not(Sym(t)), c) == M && Val(TransCompare(Not(Sym(t)), false, No).value, c) == N
  {
    TransCompareReads(Not(Sym(t)), false, No, c);
    assert Val(Not(Sym(t)), c) == 2 - Val(Sym(t), c);
    assert Reading(Sym(t), c, No);
  }

  // ----- expr_extract_eq -----

  /** Unit of op while nothing has been extracted. */
  ghost function AccVal(op: Op, acc: Option<Expr>, c: Config): Tri
  {
    match acc
    case None => SymVal(Unit(op), c)
    case Some(e) => Val(e, c)
  }

  /** expr_extract_eq: like elimination, but the shared terms are collected in acc. */
  function ExtractEq(op: Op, acc: Option<Expr>, e1: Expr, e2: Expr): (r: (Option<Expr>, Expr, Expr))
    decreases Size(e1) + Size(e2)
    ensures Size(r.1) <= Size(e1) && Size(r.2) <= Size(e2)
  {
    if IsOp(op, e1) then
      var p := ExtractEq(op, acc, e1.l, e2);
      var q := ExtractEq(op, p.0, e1.r, p.2);
      (q.0, Bin(op, p.1, q.1), q.2)
    else if IsOp(op, e2) then
      var p := ExtractEq(op, acc, e1, e2.l);
      var q := ExtractEq(op, p.0, p.1, e2.r);
      (q.0, q.1, Bin(op, p.2, q.2))
    else if ExprEq(e1, e2) then
      (Some(if acc.Some? then Bin(op, acc.value, e1) else e1), Sym(Unit(op)), Sym(Unit(op)))
    else (acc, e1, e2)
  }

  /** expr_extract_eq_and and expr_extract_eq_or. */
  function ExtractCommon(op: Op, e1: Expr, e2: Expr): (r: (Option<Expr>, Expr, Expr))
  {
    var r := ExtractEq(op, None, e1, e2);
    if r.0.Some? then (r.0, EliminateYn(r.1), EliminateYn(r.2)) else r
  }

  /** Two extractions in a row: from the two halves of one side, and twice from the other. */
  lemma TwoExtractions(op: Op, x1: Tri, x2: Tri, acc: Tri, l: Tri, r: Tri, rest: Tri)
    ensures Apply(op, Apply(op, x1, l), Apply(op, x2, r)) == Apply(op, Apply(op, x1, x2), Apply(op, l, r))
    ensures Apply(op, x1, Apply(op, x2, rest)) == Apply(op, Apply(op, x1, x2), rest)
    ensures Apply(op, Apply(op, acc, x1), x2) == Apply(op, acc, Apply(op, x1, x2))
  {
  }

  /** What r extracts has the value x: it is added to acc, and joined with each rest gives e1 and e2. */
  ghost predicate Extracted(op: Op, acc: Option<Expr>, e1: Expr, e2: Expr, r: (Option<Expr>, Expr, Expr), x: Tri, c: Config)
  {
    && AccVal(op, r.0, c) == Apply(op, AccVal(op, acc, c), x)
    && Val(e1, c) == Apply(op, x, Val(r.1, c)) && Val(e2, c) == Apply(op, x, Val(r.2, c))
  }

  lemma {:induction false} ExtractedLeft(op: Op, acc: Option<Expr>, l: Expr, r: Expr, e2: Expr, p: (Option<Expr>, Expr, Expr),
                                         q: (Option<Expr>, Expr, Expr), x1: Tri, x2: Tri, c: Config)
    requires Extracted(op, acc, l, e2, p, x1, c) && Extracted(op, p.0, r, p.2, q, x2, c)
    ensures Extracted(op, acc, Bin(op, l, r), e2, (q.0, Bin(op, p.1, q.1), q.2), Apply(op, x1, x2), c)
  {
    TwoExtractions(op, x1, x2, AccVal(op, acc, c), Val(p.1, c), Val(q.1, c), Val(q.2, c));
  }

  lemma {:induction false} ExtractedRight(op: Op, acc: Option<Expr>, e1: Expr, l: Expr, r: Expr, p: (Option<Expr>, Expr, Expr),
                                          q: (Option<Expr>, Expr, Expr), x1: Tri, x2: Tri, c: Config)
    requires Extracted(op, acc, e1, l, p, x1, c) && Extracted(op, p.0, p.1, r, q, x2, c)
    ensures Extracted(op, acc, e1, Bin(op, l, r), (q.0, q.1, Bin(op, p.2, q.2)), Apply(op, x1, x2), c)
  {
    TwoExtractions(op, x1, x2, AccVal(op, acc, c), Val(p.2, c), Val(q.2, c), Val(q.1, c));
  }

  lemma {:induction false} ExtractedTerm(op: Op, acc: Option<Expr>, e1: Expr, e2: Expr, c: Config) returns (x: Tri)
    requires !IsOp(op, e1) && !IsOp(op, e2)
    ensures Extracted(op, acc, e1, e2, ExtractEq(op, acc, e1, e2), x, c)
  {
    if ExprEq(e1, e2) {
      ExprEqSound(e1, e2, c);
      x := Val(e1, c);
    } else {
      x := SymVal(Unit(op), c);
    }
  }

  lemma {:induction false} ExtractEqSound(op: Op, acc: Option<Expr>, e1: Expr, e2: Expr, c: Config)
    returns (x: Tri)
    ensures Extracted(op, acc, e1, e2, ExtractEq(op, acc, e1, e2), x, c)
    decreases Size(e1) + Size(e2)
  {
    if IsOp(op, e1) {
      var p := ExtractEq(op, acc, e1.l, e2);
      var q := ExtractEq(op, p.0, e1.r, p.2);
      var x1 := ExtractEqSound(op, acc, e1.l, e2, c);
      var x2 := ExtractEqSound(op, p.0, e1.r, p.2, c);
      x := Apply(op, x1, x2);
      assert ExtractEq(op, acc, e1, e2) == (q.0, Bin(op, p.1, q.1), q.2);
      ExtractedLeft(op, acc, e1.l, e1.r, e2, p, q, x1, x2, c);
    } else if IsOp(op, e2) {
      var p := ExtractEq(op, acc, e1, e2.l);
      var q := ExtractEq(op, p.0, p.1, e2.r);
      var x1 := ExtractEqSound(op, acc, e1, e2.l, c);
      var x2 := ExtractEqSound(op, p.0, p.1, e2.r, c);
      x := Apply(op, x1, x2);
      assert ExtractEq(op, acc, e1, e2) == (q.0, q.1, Bin(op, p.2, q.2));
      ExtractedRight(op, acc, e1, e2.l, e2.r, p, q, x1, x2, c);
    } else {
      x := ExtractedTerm(op, acc, e1, e2, c);
    }
  }

  /** The extracted part joined with each remainder gives the expression back. */
  lemma {:induction false} ExtractCommonSound(op: Op, e1: Expr, e2: Expr, c: Config)
    ensures var r := ExtractCommon(op, e1, e2);
            && Val(e1, c) == Apply(op, AccVal(op, r.0, c), Val(r.1, c))
            && Val(e2, c) == Apply(op, AccVal(op, r.0, c), Val(r.2, c))
  {
    var r := ExtractEq(op, None, e1, e2);
    var x := ExtractEqSound(op, None, e1, e2, c);
    EliminateYnSound(r.1, c);
    EliminateYnSound(r.2, c);
  }
}
