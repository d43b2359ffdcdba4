// What the tree and the conditions that menu_finalize leaves mean
// (pdk/config/menu.c:198-317): which siblings an entry takes, which children move
// up, and what hides what.
module MenuMeaning {
  import opened KconfigExpr
  import opened ExprTransform
  import opened ExprEq
  import opened ExprEqComplete
  import opened ExprDups
  import opened ExprEliminate
  import opened ExprReduced
  import opened SymbolTable
  import opened MenuDeps
  import opened MenuTree
  import opened MenuConditions
  import opened MenuShape

  // ---------- the siblings an entry takes ----------

  // The condition of a sibling (line 257).
  function Condition(e: Entry): Option<Expr> {
    if e.prompt.Some? then e.prompt.value.visible else e.dep
  }

  // The values for which expr_trans_compare is exact.
  ghost predicate Exact(e: Option<Expr>, env: Env) {
    e.Some? ==> NotsAreTwoValued(e.value, env) && StringsAreTristate(e.value)
  }

  // A condition that mentions sym and is n wherever sym and the condition of the
  // entry above are both n.
  ghost predicate Below(sym: Symbol, above: Option<Expr>, dep: Option<Expr>, env: Env) {
    && Contains(dep, sym)
    && (Exact(above, env) && Exact(dep, env) && env.tri(sym) == NO && env.str(sym) == "n" && EvalOpt(above, env) == NO ==>
        EvalOpt(dep, env) == NO)
  }

  // One of the operands of the condition, a conjunction, is that sym is not n.
  predicate Requires(e: Expr, sym: Symbol) {
    exists x :: x in Operands(And, e) && IsNotN(x, sym)
  }

  predicate IsNotN(x: Expr, sym: Symbol) {
    x == ESymbol(sym) || x == EEqual(sym, SymYes) || x == EEqual(sym, SymMod) || x == EUnequal(sym, SymNo)
  }

  lemma {:induction false} DependsIff(e: Expr, sym: Symbol)
    ensures DependsIn(e, sym) <==> Requires(e, sym)
  {
    if e.EAnd? {
      DependsIff(e.l, sym);
      DependsIff(e.r, sym);
      assert Operands(And, e) == Operands(And, e.l) + Operands(And, e.r);
      if Requires(e.l, sym) {
        var x :| x in Operands(And, e.l) && IsNotN(x, sym);
        assert x in Operands(And, e);
      }
      if Requires(e.r, sym) {
        var x :| x in Operands(And, e.r) && IsNotN(x, sym);
        assert x in Operands(And, e);
      }
    } else {
      assert Operands(And, e) == [e] && e in [e];
      assert Requires(e, sym) <==> IsNotN(e, sym);
    }
  }

  lemma {:induction false} DependsAlways(e: Expr, sym: Symbol, env: Env)
    requires ValidEnv(env) && DependsIn(e, sym) && env.tri(sym) == NO && env.str(sym) == "n"
    ensures Eval(e, env) == NO
  {
    match e
    case EAnd(l, r) =>
      if DependsIn(l, sym) { DependsAlways(l, sym, env); } else { DependsAlways(r, sym, env); }
    case EEqual(a, b) => assert SymbolOk(env, b);
    case EUnequal(a, b) => assert SymbolOk(env, b);
    case _ =>
  }

  lemma AdoptedIsBelow(sym: Symbol, above: Option<Expr>, dep: Option<Expr>, env: Env)
    requires ValidEnv(env) && AdoptsEntry(sym, above, dep)
    ensures Below(sym, above, dep, env)
  {
    hide Adopts, Tested, Exact;
    if Exact(above, env) && Exact(dep, env) && env.tri(sym) == NO && env.str(sym) == "n" && EvalOpt(above, env) == NO {
      if DependsOn(dep, sym) {
        DependsAlways(dep.value, sym, env);
      } else {
        ExactBoth(above, dep, env);
        AdoptedBelow(above, dep, env);
      }
    }
  }

  lemma ExactBoth(a: Option<Expr>, b: Option<Expr>, env: Env)
    requires Exact(a, env) && Exact(b, env)
    ensures forall e | e in {a, b} && e.Some? :: NotsAreTwoValued(e.value, env) && StringsAreTristate(e.value)
  {
  }

  // Of every entry taken, whatever the values.
  lemma {:induction false} TakenAreBelow(c: Heap, f: Forest, sym: Symbol, above: Option<Expr>, env: Env)
    requires ValidEnv(env)
    ensures forall id | id in Chain(AdoptShape(c, f, sym, above).0) :: id in c && Below(sym, above, Condition(c[id]), env)
    decreases |Preorder(f)|
  {
    hide AdoptsEntry, HeadShape, Hoist, Below;
    if f.Cons? && f.id in c && AdoptsEntry(sym, above, VisibleOrDep(c[f.id])) {
      var h := HeadShape(c, f);
      AdoptedIsBelow(sym, above, VisibleOrDep(c[f.id]), env);
      TakenAreBelow(c, h.rest, sym, above, env);
      assert Chain(AdoptShape(c, f, sym, above).0) == [f.id] + Chain(AdoptShape(c, h.rest, sym, above).0);
    } else {
      assert AdoptShape(c, f, sym, above).0 == Nil;
    }
  }

  // The first entry left does not require the symbol, nor does it mention it below
  // an entry that is always visible.
  lemma {:induction false} LeftIsNotBelow(c: Heap, f: Forest, sym: Symbol, above: Option<Expr>)
    requires forall id | id in Preorder(f) :: id in c
    ensures var r := AdoptShape(c, f, sym, above).1;
      r.Cons? ==>
        && r.id in c
        && (Condition(c[r.id]).Some? ==> !Requires(Condition(c[r.id]).value, sym))
        && (above.None? ==> !Contains(Condition(c[r.id]), sym))
  {
    hide AdoptsEntry, HeadShape, Hoist;
    AdoptShapeMaximal(c, f, sym, above);
    var r := AdoptShape(c, f, sym, above).1;
    if r.Cons? { StaysOut(sym, above, Condition(c[r.id])); }
  }

  lemma StaysOut(sym: Symbol, above: Option<Expr>, dep: Option<Expr>)
    requires !AdoptsEntry(sym, above, dep)
    ensures dep.Some? ==> !Requires(dep.value, sym)
    ensures above.None? ==> !Contains(dep, sym)
  {
    hide Tested, Adopts;
    if dep.Some? {
      DependsIff(dep.value, sym);
      if Requires(dep.value, sym) { DependsContains(dep.value, sym); }
      if above.None? && Contains(dep, sym) {
        AlwaysTested();
        TestedSome(dep);
        AlwaysAdopts(Tested(dep).value);
      }
    }
  }

  lemma {:induction false} DependsContains(e: Expr, sym: Symbol)
    requires DependsIn(e, sym)
    ensures ContainsIn(e, sym)
  {
    if e.EAnd? {
      if DependsIn(e.l, sym) { DependsContains(e.l, sym); } else { DependsContains(e.r, sym); }
    }
  }

  lemma {:induction false} CompareSome(e: Expr, equal: bool)
    ensures TransCompare(e, equal, SymNo).Some?
  {
    match e
    case EAnd(l, r) => CompareSome(l, true); CompareSome(r, true);
    case EOr(l, r) => CompareSome(l, true); CompareSome(r, true);
    case ENot(x) => CompareSome(x, !equal);
    case _ =>
  }

  lemma TestedSome(e: Option<Expr>)
    ensures Tested(e).Some?
  {
    if e.Some? { CompareSome(e.value, false); }
  }

  // A null condition is compared as y.
  lemma AlwaysTested()
    ensures Tested(None) == Some(ExprYes)
  {
    assert TransCompareOpt(None, false, SymNo) == Some(ENot(ExprNo));
    assert Transform(ExprNo) == ExprNo;
    assert Transform(ENot(ExprNo)) == ExprYes;
    assert EliminateDups(ExprYes) == ExprYes;
  }

  lemma AlwaysAdopts(dep: Expr)
    ensures Adopts(ExprYes, dep)
  {
    if IsConn(dep) { YesStays(ConnOf(dep), dep); }
    var a2 := ElimEqFirst(dep, ExprYes).1;
    assert a2 == ExprYes;
  }

  lemma {:induction false} YesStays(c: Conn, e: Expr)
    ensures ElimEqRec(c, e, ExprYes).1 == ExprYes
    decreases Size(e)
  {
    if c.Heads(e) {
      YesStays(c, e.l);
      YesStays(c, e.r);
    }
  }

  // A condition mentions the symbols of its expression.
  lemma {:induction false} ContainsIff(e: Expr, sym: Symbol)
    ensures ContainsIn(e, sym) <==> sym in ExprSymbols(e)
  {
    match e
    case EAnd(l, r) => ContainsIff(l, sym); ContainsIff(r, sym);
    case EOr(l, r) => ContainsIff(l, sym); ContainsIff(r, sym);
    case ENot(x) => ContainsIff(x, sym);
    case _ =>
  }

  // The condition of an entry as the parent of its siblings (line 252).
  function Above(e: Entry): Option<Expr> {
    if e.prompt.Some? then e.prompt.value.visible else None
  }

  // An entry with a symbol and no children: d goes below it and r is left.
  lemma HeadTakes(c: Heap, f: Forest, env: Env) returns (d: Forest, r: Forest)
    requires f.Cons? && f.kids.Nil? && f.id in c && c[f.id].sym.Some? && ValidEnv(env)
    requires forall id | id in Preorder(f) :: id in c
    ensures HeadShape(c, f) == Cons(f.id, Hoist(c, d), r)
    ensures forall id | id in Chain(d) :: id in c && Below(c[f.id].sym.value, Above(c[f.id]), Condition(c[id]), env)
    ensures r.Cons? ==> r.id in c
    ensures r.Cons? && Condition(c[r.id]).Some? ==> !Requires(Condition(c[r.id]).value, c[f.id].sym.value)
    ensures r.Cons? && Above(c[f.id]).None? ==> !Contains(Condition(c[r.id]), c[f.id].sym.value)
    ensures r.Cons? ==> !AdoptsEntry(c[f.id].sym.value, Above(c[f.id]), Condition(c[r.id]))
  {
    hide AdoptsEntry, AdoptShape, Hoist, Below;
    var sym, above := c[f.id].sym.value, Above(c[f.id]);
    var p := AdoptShape(c, f.rest, sym, above);
    d, r := p.0, p.1;
    assert forall id | id in Preorder(f.rest) :: id in Preorder(f);
    TakenAreBelow(c, f.rest, sym, above, env);
    LeftIsNotBelow(c, f.rest, sym, above);
    AdoptShapeMaximal(c, f.rest, sym, above);
  }

  // No entry of the chain that has a symbol and no children could still take the
  // entry after it; next is what comes after the chain.
  predicate Settled(c: Heap, f: Forest, next: Option<Id>) {
    f.Cons? ==>
      && f.id in c
      && (c[f.id].sym.Some? && f.kids.Nil? && First(f.rest, next).Some? ==>
          First(f.rest, next).value in c &&
          !AdoptsEntry(c[f.id].sym.value, Above(c[f.id]), Condition(c[First(f.rest, next).value])))
      && Settled(c, f.rest, next)
  }

  // So it is for what an entry has taken, and for every finalized chain of children.
  lemma {:induction false} TakenSettled(c: Heap, f: Forest, sym: Symbol, above: Option<Expr>)
    requires forall id | id in Preorder(f) :: id in c
    ensures var (d, r) := AdoptShape(c, f, sym, above); Settled(c, d, First(r, None))
    decreases |Preorder(f)|
  {
    hide AdoptsEntry, HeadShape, Hoist;
    if f.Cons? {
      assert f.id in Preorder(f);
      if AdoptsEntry(sym, above, VisibleOrDep(c[f.id])) {
        var h := HeadShape(c, f);
        HeadShapePreorder(c, f);
        assert forall id | id in Preorder(h.rest) :: id in Preorder(h);
        TakenSettled(c, h.rest, sym, above);
        HeadSettled(c, f);
        var (d, r) := AdoptShape(c, h.rest, sym, above);
        TakenFirst(c, h.rest, sym, above);
      }
    }
  }

  lemma TakenFirst(c: Heap, f: Forest, sym: Symbol, above: Option<Expr>)
    ensures var (d, r) := AdoptShape(c, f, sym, above); First(d, First(r, None)) == First(f, None)
  {
    hide AdoptsEntry, HeadShape;
  }

  lemma HeadSettled(c: Heap, f: Forest)
    requires f.Cons? && forall id | id in Preorder(f) :: id in c
    ensures var h := HeadShape(c, f);
      f.id in c && (c[f.id].sym.Some? && h.kids.Nil? && h.rest.Cons? ==>
        h.rest.id in c && !AdoptsEntry(c[f.id].sym.value, Above(c[f.id]), Condition(c[h.rest.id])))
  {
    hide AdoptsEntry;
    assert f.id in Preorder(f);
    var h := HeadShape(c, f);
    if c[f.id].sym.Some? && h.kids.Nil? {
      if f.kids.Cons? {
        HoistPreorder(c, ChainShape(c, f.kids));
        ChainShapePreorder(c, f.kids);
      } else {
        assert forall id | id in Preorder(f.rest) :: id in Preorder(f);
        AdoptShapeMaximal(c, f.rest, c[f.id].sym.value, Above(c[f.id]));
      }
    }
  }

  lemma {:induction false} ChainSettled(c: Heap, f: Forest)
    requires forall id | id in Preorder(f) :: id in c
    ensures Settled(c, ChainShape(c, f), None)
    decreases |Preorder(f)|
  {
    hide AdoptsEntry, HeadShape, Hoist;
    if f.Cons? {
      var h := HeadShape(c, f);
      HeadShapePreorder(c, f);
      assert forall id | id in Preorder(h.rest) :: id in Preorder(h);
      ChainSettled(c, h.rest);
      HeadSettled(c, f);
      assert First(ChainShape(c, h.rest), None) == First(h.rest, None);
    }
  }

  // The conditions that are compared have been simplified.
  lemma TestedReduced(e: Option<Expr>)
    ensures Tested(e).Some? && Reduced(Tested(e).value) && NotOverSymbols(Tested(e).value)
  {
    TestedSome(e);
    var c := TransCompareOpt(e, false, SymNo).value;
    EliminateDupsReduced(Transform(c));
    TransformNormal(c);
    NormalNotOverSymbols(Transform(c));
    EliminateDupsKeepsNots(Transform(c));
  }

  // ---------- the residue test in terms of operands ----------

  // Operands that a comparison can cancel, all in b2 as often as in b1.
  ghost predicate AllCancelled(b1: multiset<Shape>, b2: multiset<Shape>) {
    b1 <= b2 && forall x | x in b1 :: !Stays(true, x)
  }

  // A conjunction passes the test exactly if it has all operands of the condition above.
  lemma AdoptsIff(above: Expr, dep: Expr)
    requires dep.EAnd? && Plain(dep) && Plain(above) && !IsYN(above)
    ensures Adopts(above, dep) <==> AllCancelled(Bag(And, above), Bag(And, dep))
  {
    hide ElimEqRec, Bag, Plain, PlainTree, EliminateYN;
    PlainAnd(dep);
    PlainIsTree(And, dep);
    PlainIsTree(And, above);
    ElimEqRecBags(And, dep, above);
    ElimEqRecHeads(And, dep, above);
    var (a1, a2, m) := ElimEqRec(And, dep, above);
    AllGone(Bag(And, dep), Bag(And, above), Bag(And, a1), Bag(And, a2));
    FoldedTree(And, a2);
    assert ElimEqFirst(dep, above) == (a1, a2, m);
    if a2.EOr? {
      OrIsPlain(a2);
      TreeKept(Or, a1, a2);
      FoldedTree(Or, ElimEqRec(Or, a1, a2).1);
      OrIsNotYes(a2);
      assert ElimEqSecond(a1, a2) == ElimEqRec(Or, a1, a2);
    } else {
      assert ElimEqSecond(a1, a2) == (a1, a2, 0);
    }
    assert ElimEq(dep, above).1 == EliminateYN(ElimEqSecond(a1, a2).1);
  }

  lemma PlainAnd(e: Expr)
    requires e.EAnd? && Plain(e)
    ensures !IsYN(e)
  {
  }

  lemma OrIsPlain(e: Expr)
    requires e.EOr? && PlainTree(And, e)
    ensures PlainTree(Or, e)
  {
    PlainIsTree(Or, e);
  }

  lemma OrIsNotYes(e: Expr)
    requires e.EOr? && PlainTree(And, e)
    ensures Bag(And, e) != multiset{}
  {
  }

  lemma {:induction false} TreeKept(c: Conn, e1: Expr, e2: Expr)
    requires !c.Heads(e1) && PlainTree(c, e2)
    ensures var r := ElimEqRec(c, e1, e2); !c.Heads(r.0) && PlainTree(c, r.1)
    decreases e2
  {
    hide Equal;
    if c.Heads(e2) {
      TreeKept(c, e1, e2.l);
      TreeKept(c, ElimEqRec(c, e1, e2.l).0, e2.r);
    }
  }

  lemma AllGone(b1: multiset<Shape>, b2: multiset<Shape>, r1: multiset<Shape>, r2: multiset<Shape>)
    requires Removed(true, b1, b2, r1, r2)
    ensures r2 == multiset{} <==> AllCancelled(b2, b1)
  {
    forall x ensures r2[x] == 0 <==> (b2[x] <= b1[x] && !Stays(true, x)) || b2[x] == 0 {
      assert RemovedAt(true, b1, b2, r1, r2, x);
    }
    if r2 == multiset{} {
      forall x ensures b2[x] <= b1[x] { assert r2[x] == 0; }
      forall x | x in b2 ensures !Stays(true, x) { assert r2[x] == 0; }
    }
    if AllCancelled(b2, b1) {
      forall x ensures r2[x] == 0 { assert b2[x] <= b1[x]; }
    }
  }

  // So the first entry left that mentions the symbol lacks an operand of the
  // condition above.
  lemma LeftLacksOperand(c: Heap, f: Forest, sym: Symbol, above: Option<Expr>)
    requires forall id | id in Preorder(f) :: id in c
    ensures var r := AdoptShape(c, f, sym, above).1;
      r.Cons? && r.id in c && Contains(Condition(c[r.id]), sym) ==>
        var a, d := Tested(above), Tested(Condition(c[r.id]));
        && a.Some? && d.Some?
        && (d.value.EAnd? && Plain(d.value) && Plain(a.value) && !IsYN(a.value) ==>
            !AllCancelled(Bag(And, a.value), Bag(And, d.value)))
  {
    hide HeadShape, Hoist, Tested, Adopts, Plain, Bag, AllCancelled;
    AdoptShapeMaximal(c, f, sym, above);
    var r := AdoptShape(c, f, sym, above).1;
    if r.Cons? && Contains(Condition(c[r.id]), sym) {
      TestedSome(above);
      TestedSome(Condition(c[r.id]));
      var a, d := Tested(above).value, Tested(Condition(c[r.id])).value;
      if d.EAnd? && Plain(d) && Plain(a) && !IsYN(a) { AdoptsIff(a, d); }
    }
  }

  // Only an entry with a symbol and without children of its own takes siblings.
  lemma TakesSiblings(c: Heap, f: Forest)
    requires f.Cons? && HeadShape(c, f).rest != f.rest
    ensures f.kids.Nil? && f.id in c && c[f.id].sym.Some?
    ensures f.rest.Cons? && f.rest.id in c && Contains(Condition(c[f.rest.id]), c[f.id].sym.value)
  {
    hide Hoist, Tested, Adopts;
  }

  // ---------- the children that move up ----------

  // An entry p with the chain k of children, at any depth.
  predicate Occurs(f: Forest, p: Id, k: Forest) {
    f.Cons? && ((f.id == p && f.kids == k) || Occurs(f.kids, p, k) || Occurs(f.rest, p, k))
  }

  lemma {:induction false} OccursAppend(f: Forest, g: Forest, p: Id, k: Forest)
    ensures Occurs(Append(f, g), p, k) <==> Occurs(f, p, k) || Occurs(g, p, k)
  {
    if f.Cons? { OccursAppend(f.rest, g, p, k); }
  }

  // An entry with a prompt text keeps its children.
  lemma {:induction false} PromptKeepsKids(h: Heap, f: Forest, p: Id, k: Forest)
    requires Occurs(f, p, k) && p in h && h[p].prompt.Some? && h[p].prompt.value.hasText
    ensures Occurs(Hoist(h, f), p, k)
    decreases |Preorder(f)|
  {
    HoistKeepsPreorder(f.id, f.kids, f.rest);
    if f.kids.Cons? && f.id in h && NoPromptText(h[f.id]) {
      OccursAppend(f.kids, f.rest, p, k);
      PromptKeepsKids(h, Append(f.kids, f.rest), p, k);
    } else if Occurs(f.rest, p, k) {
      PromptKeepsKids(h, f.rest, p, k);
    }
  }

  // No entry without a prompt text has children any more.
  predicate TextOrChildless(h: Heap, f: Forest) {
    f.Cons? ==>
      && (f.id in h && (h[f.id].prompt.None? || !h[f.id].prompt.value.hasText) ==> f.kids.Nil?)
      && TextOrChildless(h, f.rest)
  }

  lemma {:induction false} HoistedAll(h: Heap, f: Forest)
    ensures TextOrChildless(h, Hoist(h, f))
    decreases |Preorder(f)|
  {
    if f.Cons? {
      HoistKeepsPreorder(f.id, f.kids, f.rest);
      if f.kids.Cons? && f.id in h && NoPromptText(h[f.id]) {
        HoistedAll(h, Append(f.kids, f.rest));
      } else {
        HoistedAll(h, f.rest);
      }
    }
  }

  // An entry with children of its own: they are finalized first, then lifted out of.
  lemma HeadFinalizes(c: Heap, f: Forest) returns (d: Forest)
    requires f.Cons? && f.kids.Cons? && forall id | id in Preorder(f) :: id in c
    ensures HeadShape(c, f) == Cons(f.id, Hoist(c, d), f.rest)
    ensures Preorder(d) == Preorder(f.kids) && Settled(c, d, None) && TextOrChildless(c, Hoist(c, d))
  {
    hide Settled, Hoist, TextOrChildless, AdoptsEntry;
    d := ChainShape(c, f.kids);
    assert forall id | id in Preorder(f.kids) :: id in Preorder(f);
    ChainShapePreorder(c, f.kids);
    ChainSettled(c, f.kids);
    HoistedAll(c, d);
  }

  // ---------- what hides what ----------

  // What an entry passes on to its children.
  function Inherited(e: Entry, choices: set<Symbol>, env: Env): tristate {
    if e.sym.Some? && e.sym.value in choices then env.tri(e.sym.value)
    else if e.prompt.Some? then EvalOpt(e.prompt.value.visible, env)
    else EvalOpt(e.dep, env)
  }

  // The conditions now of an entry that was e and whose parent passes on v: the
  // minimum with its own ones, which can only be sharpened from m.
  ghost predicate ChildMeans(e: Entry, now: Entry, v: tristate, env: Env) {
    && Sharpens(Min(v, EvalOpt(e.dep, env)), EvalOpt(now.dep, env))
    && (e.prompt.Some? <==> now.prompt.Some?)
    && (e.prompt.Some? ==>
        var written, stored := Min(EvalOpt(now.dep, env), EvalOpt(e.prompt.value.visible, env)), EvalOpt(now.prompt.value.visible, env);
        && (ForTristate(e) ==> Sharpens(written, stored))
        && (written != MOD ==> Promote(stored) == Promote(written)))
  }

  predicate ForTristate(e: Entry) {
    e.sym.None? || e.sym.value.Type() == STristate
  }

  lemma SimplifiedMeans(e: Entry, dep: Option<Expr>, env: Env)
    requires ValidEnv(env) && NotsOkOpt(dep)
    ensures ChildMeans(e, Simplified(e, dep), EvalOpt(dep, env), env)
    ensures NotsOkOpt(Simplified(e, dep).dep)
    ensures e.prompt.Some? ==> NotsOkOpt(Simplified(e, dep).prompt.value.visible)
  {
    BaseDepMeans(dep, e.dep, env);
    if e.prompt.Some? {
      var b := BaseDep(dep, e.dep);
      PropertyVisibleMeans(b, e.prompt.value.visible, ForTristate(e), env);
      BaseDepMeans(b, e.prompt.value.visible, env);
      var v := BaseDep(b, e.prompt.value.visible);
      if v.Some? { TransBoolKeepsNots(v.value); }
    }
  }

  lemma InheritedIs(e: Entry, choices: set<Symbol>, env: Env)
    ensures EvalOpt(ParentDep(e, choices), env) == Inherited(e, choices, env)
  {
  }

  // Every child at any depth has its conditions from what its parent passes on.
  lemma {:induction false} ChildrenMean(h: Heap, h': Heap, f: Forest, dep: Option<Expr>, choices: set<Symbol>, env: Env, p: Id, k: Forest)
    requires SimplifiedUnder(h, h', f, dep, choices) && ValidEnv(env) && NotsOkOpt(dep) && Occurs(f, p, k)
    ensures p in h' && NotsOkOpt(ParentDep(h'[p], choices)) && SimplifiedUnder(h, h', k, ParentDep(h'[p], choices), choices)
    ensures forall x | x in Chain(k) :: x in h && x in h' && ChildMeans(h[x], h'[x], Inherited(h'[p], choices, env), env)
  {
    SimplifiedMeans(h[f.id], dep, env);
    var d := ParentDep(h'[f.id], choices);
    if f.id == p && f.kids == k {
      InheritedIs(h'[p], choices, env);
      ChainMeans(h, h', k, d, choices, env);
    } else if Occurs(f.kids, p, k) {
      ChildrenMean(h, h', f.kids, d, choices, env, p, k);
    } else {
      ChildrenMean(h, h', f.rest, dep, choices, env, p, k);
    }
  }

  lemma {:induction false} ChainMeans(h: Heap, h': Heap, k: Forest, dep: Option<Expr>, choices: set<Symbol>, env: Env)
    requires SimplifiedUnder(h, h', k, dep, choices) && ValidEnv(env) && NotsOkOpt(dep)
    ensures forall x | x in Chain(k) :: x in h && x in h' && ChildMeans(h[x], h'[x], EvalOpt(dep, env), env)
  {
    if k.Cons? {
      SimplifiedMeans(h[k.id], dep, env);
      ChainMeans(h, h', k.rest, dep, choices, env);
    }
  }

  // So an entry that passes on n, a choice or not, hides all entries below it.
  lemma ParentHides(h: Heap, h': Heap, f: Forest, dep: Option<Expr>, choices: set<Symbol>, env: Env, p: Id, k: Forest)
    requires SimplifiedUnder(h, h', f, dep, choices) && ValidEnv(env) && NotsOkOpt(dep) && Occurs(f, p, k)
    requires p in h' && Inherited(h'[p], choices, env) == NO
    requires forall id | id in Preorder(k) && id in h :: h[id].sym.Some? ==> h[id].sym.value !in choices
    ensures forall id | id in Preorder(k) :: id in h' && Hidden(h'[id], env)
  {
    ChildrenMean(h, h', f, dep, choices, env, p, k);
    InheritedIs(h'[p], choices, env);
    HiddenBelow(h, h', k, ParentDep(h'[p], choices), choices, env);
  }

  // ---------- the stored conditions are short ----------

  // The dependency of a child, and its prompt's condition for a tristate symbol,
  // are reduced; the prompt's condition for any other symbol has no such test.
  lemma StoredReduced(e: Entry, dep: Option<Expr>)
    ensures var now := Simplified(e, dep);
      && (now.dep.Some? ==> Reduced(now.dep.value))
      && (now.prompt.Some? && now.prompt.value.visible.Some? ==>
          if ForTristate(e) then Reduced(now.prompt.value.visible.value) else NoTristateTest(now.prompt.value.visible.value))
  {
    hide EliminateDups, Reduced, TransBool;
    var b := BaseDep(dep, e.dep);
    var a := AllocAnd(dep, TransformOpt(e.dep));
    if a.Some? { EliminateDupsReduced(a.value); }
    if e.prompt.Some? {
      var v := AllocAnd(b, TransformOpt(e.prompt.value.visible));
      if v.Some? {
        EliminateDupsReduced(v.value);
        TransBoolRemovesTests(EliminateDups(v.value));
      }
    }
  }
}
