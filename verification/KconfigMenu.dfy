/**
 How menu_finalize (kconfig/menu.c) uses the expression passes: the dependencies of an entry
 are joined with those of its parent, and a symbol adopts the entries that follow it for as
 long as their visibility depends on it.
 */
module KconfigMenu {
  import opened KconfigExpr
  import opened KconfigTransform
  import opened KconfigDups
  import opened Wrappers

  // ----- dependencies inherited from the parent -----

  /** expr_alloc_and: a missing dependency is always met. */
  function AllocAnd(a: Option<Expr>, b: Option<Expr>): (r: Option<Expr>)
  {
    if a.None? then b else if b.None? then a else Some(Bin(And, a.value, b.value))
  }

  function OptVal(e: Option<Expr>, c: Config): (v: Tri)
  {
    match e case None => Y case Some(x) => Val(x, c)
  }

  /** What two conditions come to together. */
  function Meet(a: Option<Expr>, b: Option<Expr>, c: Config): (v: Tri) { Apply(And, OptVal(a, c), OptVal(b, c)) }

  ghost predicate OptCrisp(e: Option<Expr>, c: Config) { e.Some? ==> Crisp(e.value, c) }

  ghost predicate OptNormal(e: Option<Expr>) { e.Some? ==> NormalForm(e.value) }

  /** The dependency of an entry below parentdep: the meet of both, freed of duplicates. */
  method InheritDep(parentdep: Option<Expr>, dep: Option<Expr>) returns (r: Option<Expr>)
    ensures forall c :: Meet(parentdep, dep, c) != M ==> OptVal(r, c) == Meet(parentdep, dep, c)
    ensures forall c :: OptCrisp(parentdep, c) && OptCrisp(dep, c) ==> OptCrisp(r, c)
    ensures OptNormal(parentdep) ==> OptNormal(r)
  {
    var t := if dep.None? then dep else Some(Transform(dep.value));
    r := AllocAnd(parentdep, t);
    if r.Some? {
      var d := EliminateDups(r.value);
      forall c
        ensures Meet(parentdep, dep, c) != M ==> Val(d, c) == Meet(parentdep, dep, c)
        ensures OptCrisp(parentdep, c) && OptCrisp(dep, c) ==> Crisp(d, c)
      {
        if dep.Some? {
          TransformSound(dep.value, c);
          if Crisp(dep.value, c) { TransformCrisp(dep.value, c); }
        }
      }
      if dep.Some? {
        TransformNormal(dep.value);
      }
      if OptNormal(parentdep) {
        DedupedNormal(r.value);
      }
      r := Some(d);
    }
  }

  /** expr_trans_bool: for entries that are not tristate, FOO != n becomes FOO. */
  function TransBool(e: Expr): (r: Expr)
  {
    match e
    case Bin(op, l, r) => Bin(op, TransBool(l), TransBool(r))
    case Not(x) => Not(TransBool(x))
    case Cmp(eq, l, r) => if !eq && l.Tristate? && r == No then Sym(l) else e
    case Sym(_) => e
  }

  /** In a normal form no test for n changes its answer, in any configuration; a y may become m. */
  lemma {:induction false} TransBoolSound(e: Expr, c: Config)
    requires NormalForm(e)
    ensures Val(TransBool(e), c) != N <==> Val(e, c) != N
    ensures Val(TransBool(e), c) <= Val(e, c) && NormalForm(TransBool(e))
  {
    match e
    case Bin(_, l, r) => TransBoolSound(l, c); TransBoolSound(r, c);
    case _ =>
  }

  /** Outside the normal form it fails: !(t != n) is n at m, but !t is m. */
  lemma {:induction false} TransBoolNegated(t: Symbol, c: Config)
    requires t.Tristate? && SymVal(t, c) == M
    ensures var e := Not(Cmp(false, t, No)); Val(e, c) == N && Val(TransBool(e), c) == M
  {
    var e := Not(Cmp(false, t, No));
    assert TransBool(e) == Not(Sym(t));
    assert Val(e, c) == 2 - Val(e.e, c) && Val(Not(Sym(t)), c) == 2 - Val(Sym(t), c);
  }

  /** The visibility of a prompt below basedep: joined like a dependency, and for entries that are not
      tristate with the tests against n dropped, which leaves where it is visible. */
  method InheritVisibility(basedep: Option<Expr>, visible: Option<Expr>, tristate: bool) returns (r: Option<Expr>)
    ensures tristate ==> forall c :: Meet(basedep, visible, c) != M ==> OptVal(r, c) == Meet(basedep, visible, c)
    ensures OptNormal(basedep) ==> OptNormal(r) && forall c :: Meet(basedep, visible, c) != M ==>
              (OptVal(r, c) != N <==> Meet(basedep, visible, c) != N)
  {
    r := InheritDep(basedep, visible);
    if !tristate && r.Some? {
      var d := r.value;
      r := Some(TransBool(d));
      if OptNormal(basedep) {
        TransBoolSound(d, AllNo);
        forall c ensures Val(TransBool(d), c) != N <==> Val(d, c) != N {
          TransBoolSound(d, c);
        }
      }
    }
  }

  // ----- adoption of the entries that follow -----

  /** expr_contains_symbol. */
  predicate Contains(e: Expr, s: Symbol)
  {
    match e
    case Bin(_, l, r) => Contains(l, s) || Contains(r, s)
    case Sym(t) => t == s
    case Cmp(_, l, r) => l == s || r == s
    case Not(x) => Contains(x, s)
  }

  ghost function Mentioned(e: Expr): (ss: set<Symbol>)
  {
    match e
    case Sym(s) => {s}
    case Not(x) => Mentioned(x)
    case Bin(_, l, r) => Mentioned(l) + Mentioned(r)
    case Cmp(_, l, r) => {l, r}
  }

  lemma {:induction false} ContainsExact(e: Expr, s: Symbol)
    ensures Contains(e, s) <==> s in Mentioned(e)
  {
    match e
    case Sym(_) =>
    case Cmp(_, _, _) =>
    case Not(x) => ContainsExact(x, s);
    case Bin(_, l, r) => ContainsExact(l, s); ContainsExact(r, s);
  }

  /** The value of an expression does not depend on a symbol that it does not contain. */
  lemma {:induction false} NotContainedKeeps(e: Expr, s: Symbol, c: Config, d: Config)
    requires !Contains(e, s) && forall t :: t != s ==> SymVal(t, c) == SymVal(t, d)
    ensures Val(e, c) == Val(e, d)
  {
    match e
    case Sym(_) =>
    case Cmp(_, _, _) =>
    case Not(x) => NotContainedKeeps(x, s, c, d);
    case Bin(_, l, r) => NotContainedKeeps(l, s, c, d); NotContainedKeeps(r, s, c, d);
  }

  /** expr_depends_symbol. */
  predicate DependsOn(e: Expr, s: Symbol)
  {
    match e
    case Bin(op, l, r) => op == And && (DependsOn(l, s) || DependsOn(r, s))
    case Sym(t) => t == s
    case Cmp(eq, l, r) => l == s && if eq then r == Yes || r == Mod else r == No
    case Not(_) => false
  }

  /** An expression that depends on a symbol is n wherever the symbol is, in every configuration. */
  lemma {:induction false} DependsOnSound(e: Expr, s: Symbol, c: Config)
    requires DependsOn(e, s) && Val(e, c) != N
    ensures SymVal(s, c) != N
  {
    if e.Bin? {
      if DependsOn(e.l, s) { DependsOnSound(e.l, s, c); } else { DependsOnSound(e.r, s, c); }
    }
  }

  /** A term that says that s is not n: s, s = y, s = m or s != n. */
  ghost predicate SaysSet(t: Expr, s: Symbol)
  {
    t == Sym(s) || t == Cmp(true, s, Yes) || t == Cmp(true, s, Mod) || t == Cmp(false, s, No)
  }

  ghost predicate SomeSays(ts: seq<Expr>, s: Symbol) { exists t :: t in ts && SaysSet(t, s) }

  lemma SomeSaysJoin(a: seq<Expr>, b: seq<Expr>, s: Symbol)
    ensures SomeSays(a + b, s) <==> SomeSays(a, s) || SomeSays(b, s)
  {
  }

  /** An expression depends on a symbol exactly if one of the terms that it joins by AND says that it is set. */
  lemma {:induction false} DependsOnExact(e: Expr, s: Symbol)
    ensures DependsOn(e, s) <==> SomeSays(Terms(And, e), s)
  {
    if IsOp(And, e) {
      DependsOnExact(e.l, s);
      DependsOnExact(e.r, s);
      SomeSaysJoin(Terms(And, e.l), Terms(And, e.r), s);
    } else {
      assert e in Terms(And, e);
    }
  }

  /** The condition under which a dependency is not n, as it is compared below. */
  function NotNo(e: Option<Expr>): (r: Expr)
  {
    Deduped(Transform(TransCompareOpt(e, false, No).value))
  }

  ghost predicate OptReading(e: Option<Expr>, c: Config) { e.Some? ==> Reading(e.value, c, No) }

  /** The preparation is exact in every configuration, because it only compares symbols. */
  lemma {:induction false} NotNoSound(e: Option<Expr>, c: Config)
    ensures Val(NotNo(e), c) == if OptReading(e, c) then Y else N
  {
    var r := TransCompareOpt(e, false, No).value;
    if e.Some? {
      TransCompareReads(e.value, false, No, c);
    }
    TransformSound(r, c);
    TransformCrisp(r, c);
    DedupedSound(Transform(r), c);
  }

  /** The test of the loop: does an entry visible under dep belong below sym, itself visible under vis? */
  predicate Adopts(sym: Symbol, vis: Option<Expr>, dep: Option<Expr>)
  {
    && dep.Some?
    && Contains(dep.value, sym)
    && (DependsOn(dep.value, sym) || EliminateEq(NotNo(dep), NotNo(vis)).1 == Sym(Yes))
  }

  /** What adoption guarantees, in every configuration: an adopted entry is visible only where the
      symbol is set, or only where the symbol itself is visible, both dependencies being read
      with m as y; without negated m that is their value. */
  ghost predicate Justified(sym: Symbol, vis: Option<Expr>, dep: Option<Expr>)
  {
    || (forall c :: OptVal(dep, c) != N ==> SymVal(sym, c) != N)
    || (forall c :: OptReading(dep, c) ==> OptReading(vis, c))
  }

  lemma {:induction false} AdoptsSound(sym: Symbol, vis: Option<Expr>, dep: Option<Expr>)
    requires Adopts(sym, vis, dep)
    ensures Justified(sym, vis, dep)
  {
    if DependsOn(dep.value, sym) {
      forall c | OptVal(dep, c) != N ensures SymVal(sym, c) != N {
        DependsOnSound(dep.value, sym, c);
      }
    } else {
      forall c | OptReading(dep, c) ensures OptReading(vis, c) {
        NotNoSound(dep, c);
        NotNoSound(vis, c);
        EliminateEqImplies(NotNo(dep), NotNo(vis), c);
      }
    }
  }

  /** Where the adopted entry is visible and read as such, the symbol is set or visible; where it is y, it
      always is read as such, whatever is m. */
  lemma {:induction false} AdoptedIsReachable(sym: Symbol, vis: Option<Expr>, dep: Option<Expr>, c: Config)
    requires Adopts(sym, vis, dep)
    requires OptVal(dep, c) == Y || (OptVal(dep, c) == M && OptReading(dep, c))
    ensures SymVal(sym, c) != N || OptVal(vis, c) != N
  {
    AdoptsSound(sym, vis, dep);
    ReadingBounds(dep.value, c, No);
    assert OptReading(dep, c);
    if vis.Some? {
      ReadingBounds(vis.value, c, No);
    }
  }

  /** With a negated m it fails: the entry visible under !u && s = n is adopted by s, visible under u = n;
      with u at m and s at n the entry is m, but s is neither set nor visible. */
  lemma {:induction false} AdoptionReadsNegatedMod(u: Symbol, s: Symbol, c: Config)
    requires u.Tristate? && s.Tristate? && u != s && SymVal(u, c) == M && SymVal(s, c) == N
    ensures var vis, dep := Some(Cmp(true, u, No)), Some(Bin(And, Not(Sym(u)), Cmp(true, s, No)));
            && Adopts(s, vis, dep) && OptVal(dep, c) == M && !OptReading(dep, c)
            && SymVal(s, c) == N && OptVal(vis, c) == N
  {
    var a, b := Cmp(true, u, No), Cmp(true, s, No);
    var dep := Bin(And, Not(Sym(u)), b);
    assert Adopts(s, Some(a), Some(dep)) by {
      NotNoExample(u, s);
      ContainedElimination(And, a, b);
      assert Contains(b, s);
    }
    assert Val(Not(Sym(u)), c) == 2 - Val(Sym(u), c) == M && Val(b, c) == Y && Val(a, c) == N;
    assert Reading(Sym(u), c, No) && !Reading(Not(Sym(u)), c, No);
  }

  lemma {:induction false} NotNoExample(u: Symbol, s: Symbol)
    requires u.Tristate? && s.Tristate? && u != s
    ensures var a, b := Cmp(true, u, No), Cmp(true, s, No);
            NotNo(Some(a)) == a && NotNo(Some(Bin(And, Not(Sym(u)), b))) == Bin(And, a, b)
  {
    var a, b, na, nb := Cmp(true, u, No), Cmp(true, s, No), Cmp(false, u, No), Cmp(false, s, No);
    assert TransCompare(a, false, No).value == a && Transform(a) == a;
    assert TransCompare(Sym(u), false, No).value == na;
    assert TransCompare(Not(Sym(u)), true, No).value == na;
    assert TransCompare(b, true, No).value == Not(b);
    var d := Bin(Or, na, Not(b));
    assert TransCompare(Bin(And, Not(Sym(u)), b), false, No).value == Not(d);
    assert Transform(na) == na && Transform(Not(b)) == nb && Transform(d) == Bin(Or, na, nb);
    assert Transform(Not(na)) == a && Transform(Not(nb)) == b;
    assert Transform(Bin(And, Not(na), Not(nb))) == Bin(And, a, b);
    assert Transform(Not(d)) == Bin(And, a, b);
    DedupedFlat(And, a, b);
  }

  /** A plain term against a chain of two that starts with it leaves nothing of it. */
  lemma {:induction false} ContainedElimination(op: Op, x: Expr, y: Expr)
    requires x.Cmp? && y.Cmp? && x != y
    ensures EliminateEq(Bin(op, x, y), x).1 == Sym(Unit(op))
  {
    var g, u := Bin(op, x, y), Sym(Unit(op));
    assert EliminatePairs(op, x, x) == (u, u) && EliminatePairs(op, y, u) == (y, u);
    assert EliminatePairs(op, g, x) == (Bin(op, u, y), u);
  }

  /** A config entry: its symbol, if any, the visibility of its prompt, if it has one, and its
      own dependency. */
  datatype Entry = Entry(sym: Option<Symbol>, prompt: Option<Option<Expr>>, dep: Option<Expr>)

  function Visibility(e: Entry): Option<Expr> { if e.prompt.Some? then e.prompt.value else e.dep }
  function OwnVisibility(e: Entry): Option<Expr> { if e.prompt.Some? then e.prompt.value else None }

  datatype Tree = Tree(entry: Entry, list: seq<Tree>)

  function Preorder(t: Tree): seq<Entry>
    decreases t, 1
  {
    [t.entry] + PreorderAll(t.list)
  }

  function PreorderAll(ts: seq<Tree>): seq<Entry>
    decreases ts, 0
  {
    if ts == [] then [] else Preorder(ts[0]) + PreorderAll(ts[1..])
  }

  lemma {:induction false} PreorderAppend(ts: seq<Tree>, t: Tree)
    ensures PreorderAll(ts + [t]) == PreorderAll(ts) + Preorder(t)
  {
    if ts == [] {
      assert ts + [t] == [t] && [t][1..] == [];
    } else {
      PreorderAppend(ts[1..], t);
      assert (ts + [t])[1..] == ts[1..] + [t];
    }
  }

  /** Moving the subtree of the next entry into the list keeps the order of entries. */
  lemma {:induction false} AdoptChild(list: seq<Tree>, child: Tree, rest: seq<Entry>, before: seq<Entry>, all: seq<Entry>)
    requires before != [] && PreorderAll(list) + before == all
    requires Preorder(child) + rest == [before[0]] + before[1..]
    ensures PreorderAll(list + [child]) + rest == all && |rest| < |before|
  {
    PreorderAppend(list, child);
    assert |Preorder(child)| > 0;
    assert PreorderAll(list) + (Preorder(child) + rest) == (PreorderAll(list) + Preorder(child)) + rest;
  }

  predicate Takes(parent: Entry, e: Entry)
  {
    parent.sym.Some? && Adopts(parent.sym.value, OwnVisibility(parent), Visibility(e))
  }

  /** Every entry below a symbol was adopted by it. */
  ghost predicate WellNested(t: Tree)
    decreases t
  {
    forall k :: 0 <= k < |t.list| ==> Takes(t.entry, t.list[k].entry) && WellNested(t.list[k])
  }

  /** The test as the loop makes it. */
  method TestTakes(parent: Entry, basedep: Expr, e: Entry) returns (b: bool)
    requires parent.sym.Some? && basedep == NotNo(OwnVisibility(parent))
    ensures b <==> Takes(parent, e)
  {
    var sym, dep := parent.sym.value, Visibility(e);
    if dep.None? || !Contains(dep.value, sym) {
      return false;
    }
    if DependsOn(dep.value, sym) {
      return true;
    }
    var d := EliminateDups(Transform(TransCompareOpt(dep, false, No).value));
    var dep2 := EliminateEq(d, basedep).1;
    return dep2 == Sym(Yes);
  }

  /** The branch of menu_finalize for a symbol without entries of its own: it takes the entries
      that follow, each of which first takes what follows it in turn. No entry is lost,
      duplicated or reordered, and the first one left over is not adopted. */
  method Finalize(entry: Entry, following: seq<Entry>) returns (t: Tree, rest: seq<Entry>)
    ensures t.entry == entry
    ensures Preorder(t) + rest == [entry] + following
    ensures WellNested(t)
    ensures entry.sym.Some? && rest != [] ==> !Takes(entry, rest[0])
    decreases |following|
  {
    var list: seq<Tree> := [];
    rest := following;
    if entry.sym.Some? {
      var basedep := EliminateDups(Transform(TransCompareOpt(OwnVisibility(entry), false, No).value));
      while rest != []
        invariant PreorderAll(list) + rest == following
        invariant forall k :: 0 <= k < |list| ==> Takes(entry, list[k].entry) && WellNested(list[k])
        decreases |rest|
      {
        var takes := TestTakes(entry, basedep, rest[0]);
        if !takes {
          break;
        }
        ghost var before := rest;
        var child;
        child, rest := Finalize(rest[0], rest[1..]);
        AdoptChild(list, child, rest, before, following);
        list := list + [child];
      }
    }
    t := Tree(entry, list);
    assert Preorder(t) + rest == [entry] + (PreorderAll(list) + rest);
  }
}
