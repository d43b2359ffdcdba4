// How menu_finalize (pdk/config/menu.c:218-267) puts the rewriters together:
// the visibility it stores for each property, and the test by which an entry
// becomes part of the sub-menu of the entry before it.
module MenuDeps {
  import opened KconfigExpr
  import opened ExprTransform
  import opened ExprEq
  import opened ExprJoin
  import opened ExprDups
  import opened ExprEliminate

  // ---------- duplicate elimination keeps NOT over symbols ----------

  predicate NotsOk(xs: seq<Expr>) {
    forall k | 0 <= k < |xs| :: NotOverSymbols(xs[k])
  }

  lemma {:induction false} NotsOfBuild(c: Conn, s: Spine, xs: seq<Expr>)
    requires |xs| == Tips(s)
    ensures NotOverSymbols(Build(c, s, xs)) <==> NotsOk(xs)
  {
    match s
    case Tip =>
    case Fork(l, r) =>
      var ls, rs := xs[..Tips(l)], xs[Tips(l)..];
      NotsOfBuild(c, l, ls);
      NotsOfBuild(c, r, rs);
      if NotsOk(ls) && NotsOk(rs) {
        forall k | 0 <= k < |xs| ensures NotOverSymbols(xs[k]) {
          assert xs[k] == if k < |ls| then ls[k] else rs[k - |ls|];
        }
      }
  }

  lemma {:induction false} Dups1KeepsNots(c: Conn, s1: Spine, i1: nat, s2: Spine, i2: nat, xs: seq<Expr>)
    requires i1 + Tips(s1) <= |xs| && i2 + Tips(s2) <= |xs| && NoHeads(c, xs) && NotsOk(xs)
    ensures NotsOk(Dups1(c, s1, i1, s2, i2, xs).0)
    decreases Sum(xs), 1, s1, s2
  {
    hide Dups1, Dups1Tip, Dups1Self, JoinSlots, Join, NotsOk;
    Dups1Steps(c, s1, i1, s2, i2, xs);
    if s1.Fork? {
      var (ys, m) := Dups1(c, s1.l, i1, s2, i2, xs);
      var (zs, n) := Dups1(c, s1.r, i1 + Tips(s1.l), s2, i2, ys);
      Dups1KeepsNots(c, s1.l, i1, s2, i2, xs);
      Dups1KeepsNots(c, s1.r, i1 + Tips(s1.l), s2, i2, ys);
    } else if s2.Fork? {
      var (ys, m) := Dups1(c, s1, i1, s2.l, i2, xs);
      var (zs, n) := Dups1(c, s1, i1, s2.r, i2 + Tips(s2.l), ys);
      Dups1KeepsNots(c, s1, i1, s2.l, i2, xs);
      Dups1KeepsNots(c, s1, i1, s2.r, i2 + Tips(s2.l), ys);
    } else {
      Dups1TipKeepsNots(c, i1, i2, xs);
    }
  }

  lemma {:induction false} Dups1TipKeepsNots(c: Conn, i1: nat, i2: nat, xs: seq<Expr>)
    requires i1 < |xs| && i2 < |xs| && NoHeads(c, xs) && NotsOk(xs)
    ensures NotsOk(Dups1Tip(c, i1, i2, xs).0)
    decreases Sum(xs), 0
  {
    hide Dups1, Dups1Self, Join;
    if i1 != i2 {
      SumUpdate(xs, i1, xs[i1]);
      var a := xs[i1];
      if IsConn(xs[i1]) {
        Dups1SelfKeepsNots(xs[i1]);
        a := Dups1Self(xs[i1]).0;
      }
      if Join(c, a, xs[i2]).Some? { JoinWeight(c, a, xs[i2]); }
    }
  }

  lemma {:induction false} Dups1SelfKeepsNots(e: Expr)
    requires IsConn(e) && NotOverSymbols(e)
    ensures NotOverSymbols(Dups1Self(e).0)
    decreases Weight(e), 0
  {
    var c := ConnOf(e);
    var s := SpineOf(c, e);
    var xs := Operands(c, e);
    BuildOperands(c, e);
    WeightBuild(c, s, xs);
    TipsPositive(s.l);
    TipsPositive(s.r);
    NotsOfBuild(c, s, xs);
    Dups1KeepsNots(c, s, 0, s, 0, xs);
    NotsOfBuild(c, s, Dups1(c, s, 0, s, 0, xs).0);
  }

  lemma {:induction false} Dups2KeepsNots(c: Conn, s1: Spine, i1: nat, s2: Spine, i2: nat, xs: seq<Expr>)
    requires i1 + Tips(s1) <= |xs| && i2 + Tips(s2) <= |xs| && NoHeads(c, xs) && |xs| >= 2 && NotsOk(xs)
    ensures NotsOk(Dups2(c, s1, i1, s2, i2, xs).0)
    decreases Sum(xs), 1, s1, s2
  {
    hide Dups2, Dups2Inner, Dups2Tip, Dups2Self, DropSlot, NegationIn, NotsOk;
    Dups2Steps(c, s1, i1, s2, i2, xs);
    if s1.Tip? { Dups2InnerSteps(c, s1, i1, s2, i2, xs); }
    if s1.Fork? {
      var (ys, m) := Dups2(c, s1.l, i1, s2, i2, xs);
      var (zs, n) := Dups2(c, s1.r, i1 + Tips(s1.l), s2, i2, ys);
      Dups2KeepsNots(c, s1.l, i1, s2, i2, xs);
      Dups2KeepsNots(c, s1.r, i1 + Tips(s1.l), s2, i2, ys);
    } else {
      var ys := Dups2Inner(c, s1, i1, s2, i2, xs).0;
      if s2.Fork? {
        var us := Dups2(c, s1, i1, s2.l, i2, xs).0;
        Dups2KeepsNots(c, s1, i1, s2.l, i2, xs);
        Dups2KeepsNots(c, s1, i1, s2.r, i2 + Tips(s2.l), us);
      }
      assert NotsOk(ys);
      Dups2TipKeepsNots(c, i1, s2, i2, ys);
    }
  }

  lemma {:induction false} Dups2TipKeepsNots(c: Conn, i1: nat, s2: Spine, i2: nat, xs: seq<Expr>)
    requires i1 < |xs| && i2 + Tips(s2) <= |xs| && NoHeads(c, xs) && |xs| >= 2 && NotsOk(xs)
    ensures NotsOk(Dups2Tip(c, i1, s2, i2, xs).0)
    decreases Sum(xs), 0
  {
    hide Dups2, Dups2Inner, Dups2Self, NegationIn;
    if !(s2.Tip? && i1 == i2) && IsConn(xs[i1]) {
      SumUpdate(xs, i1, xs[i1]);
      Dups2SelfKeepsNots(xs[i1]);
    }
  }

  lemma {:induction false} Dups2SelfKeepsNots(e: Expr)
    requires IsConn(e) && NotOverSymbols(e)
    ensures NotOverSymbols(Dups2Self(e).0)
    decreases Weight(e), 0
  {
    var c := ConnOf(e);
    var s := SpineOf(c, e);
    var xs := Operands(c, e);
    BuildOperands(c, e);
    WeightBuild(c, s, xs);
    TipsPositive(s.l);
    TipsPositive(s.r);
    NotsOfBuild(c, s, xs);
    Dups2KeepsNots(c, s, 0, s, 0, xs);
    NotsOfBuild(c, s, Dups2(c, s, 0, s, 0, xs).0);
  }

  lemma {:induction false} YNKeepsNots(e: Expr)
    requires NotOverSymbols(e)
    ensures NotOverSymbols(EliminateYN(e))
  {
    if IsConn(e) {
      YNKeepsNots(e.l);
      YNKeepsNots(e.r);
    }
  }

  lemma {:induction false} EliminateDupsKeepsNots(e: Expr)
    requires NotOverSymbols(e)
    ensures NotOverSymbols(EliminateDups(e))
    decreases Weight(e)
  {
    var (a, n) := Pass(e);
    if IsConn(e) {
      Dups1SelfKeepsNots(e);
      Dups2SelfKeepsNots(Dups1Self(e).0);
    }
    PassShrinks(e);
    if n > 0 {
      YNKeepsNots(a);
      EliminateDupsKeepsNots(EliminateYN(a));
    }
  }

  // ---------- the stored conditions ----------

  // expr_alloc_and
  function AllocAnd(a: Option<Expr>, b: Option<Expr>): Option<Expr> {
    if a.None? then b else if b.None? then a else Some(EAnd(a.value, b.value))
  }

  function TransformOpt(e: Option<Expr>): Option<Expr> {
    if e.None? then None else Some(Transform(e.value))
  }

  function EliminateDupsOpt(e: Option<Expr>): Option<Expr> {
    if e.None? then None else Some(EliminateDups(e.value))
  }

  function TransBoolOpt(e: Option<Expr>): Option<Expr> {
    if e.None? then None else Some(TransBool(e.value))
  }

  // The dependency of an entry, from its parent's (lines 225-228).
  function BaseDep(parentdep: Option<Expr>, dep: Option<Expr>): Option<Expr> {
    EliminateDupsOpt(AllocAnd(parentdep, TransformOpt(dep)))
  }

  // The visibility of one of its properties (lines 236-241).
  function PropertyVisible(basedep: Option<Expr>, visible: Option<Expr>, tristateSymbol: bool): Option<Expr> {
    var dep := EliminateDupsOpt(AllocAnd(basedep, TransformOpt(visible)));
    if tristateSymbol then dep else TransBoolOpt(dep)
  }

  ghost predicate NotsOkOpt(e: Option<Expr>) {
    e.Some? ==> NotOverSymbols(e.value)
  }

  lemma BaseDepMeans(parentdep: Option<Expr>, dep: Option<Expr>, env: Env)
    requires ValidEnv(env) && NotsOkOpt(parentdep)
    ensures Sharpens(Min(EvalOpt(parentdep, env), EvalOpt(dep, env)), EvalOpt(BaseDep(parentdep, dep), env))
    ensures NotsOkOpt(BaseDep(parentdep, dep))
  {
    if dep.Some? {
      TransformExact(dep.value, env);
      TransformNormal(dep.value);
      NormalNotOverSymbols(Transform(dep.value));
    }
    var e := AllocAnd(parentdep, TransformOpt(dep));
    if e.Some? {
      EliminateDupsSharpens(e.value, env);
      EliminateDupsKeepsNots(e.value);
    }
  }

  // m counts as y for a symbol that is not tristate (pdk/config/symbol.c:148-149).
  function Promote(t: tristate): tristate {
    if t == MOD then YES else t
  }

  // The stored visibility of a tristate symbol may sharpen the written one; for
  // any other symbol, where m is read as y, it also agrees on n and y, whatever
  // expr_trans_bool has done to it.
  lemma PropertyVisibleMeans(basedep: Option<Expr>, visible: Option<Expr>, tristateSymbol: bool, env: Env)
    requires ValidEnv(env) && NotsOkOpt(basedep)
    ensures var written := Min(EvalOpt(basedep, env), EvalOpt(visible, env));
      var stored := EvalOpt(PropertyVisible(basedep, visible, tristateSymbol), env);
      && (tristateSymbol ==> Sharpens(written, stored))
      && (written != MOD ==> Promote(stored) == Promote(written))
  {
    BaseDepMeans(basedep, visible, env);
    var dep := BaseDep(basedep, visible);
    if dep.Some? {
      TransBoolKeepsN(dep.value, env);
    }
  }

  // sym_calc_visibility over all prompts of a symbol that is not tristate: the
  // same whether or not expr_trans_bool has been applied to them.
  function Visibility(prompts: seq<Expr>, env: Env): tristate {
    if prompts == [] then NO else Max(Eval(prompts[0], env), Visibility(prompts[1..], env))
  }

  function TransBoolAll(prompts: seq<Expr>): (r: seq<Expr>)
    ensures |r| == |prompts|
  {
    if prompts == [] then [] else [TransBool(prompts[0])] + TransBoolAll(prompts[1..])
  }

  lemma {:induction false} VisibilityUnchanged(prompts: seq<Expr>, env: Env)
    requires ValidEnv(env) && forall k | 0 <= k < |prompts| :: NotOverSymbols(prompts[k])
    ensures Promote(Visibility(TransBoolAll(prompts), env)) == Promote(Visibility(prompts, env))
  {
    if prompts != [] {
      TransBoolKeepsN(prompts[0], env);
      VisibilityUnchanged(prompts[1..], env);
    }
  }

  // ---------- adopting a sub-menu entry ----------

  // Lines 252-254 and 262-263; a comparison that expr_trans_compare cannot form
  // would be a null expression.
  function Tested(e: Option<Expr>): Option<Expr> {
    EliminateDupsOpt(TransformOpt(TransCompareOpt(e, false, SymNo)))
  }

  // Lines 264-267
  predicate Adopts(basedep: Expr, dep: Expr) {
    ElimEq(dep, basedep).1 == ExprYes
  }

  // Once the values are definite, an entry adopted by this test is visible only
  // if the entry before it is.
  lemma AdoptedBelow(parentVisible: Option<Expr>, dep: Option<Expr>, env: Env)
    requires ValidEnv(env)
    requires Tested(parentVisible).Some? && Tested(dep).Some?
    requires Adopts(Tested(parentVisible).value, Tested(dep).value)
    requires forall e | e in {parentVisible, dep} && e.Some? ::
      NotsAreTwoValued(e.value, env) && StringsAreTristate(e.value)
    ensures EvalOpt(dep, env) != NO ==> EvalOpt(parentVisible, env) != NO
  {
    TestedMeans(parentVisible, env);
    TestedMeans(dep, env);
    ResidueYesMeansBelow(Tested(dep).value, Tested(parentVisible).value);
  }

  // The tested expression is y where the condition is not n, and n elsewhere.
  lemma TestedMeans(e: Option<Expr>, env: Env)
    requires ValidEnv(env)
    requires e.Some? ==> NotsAreTwoValued(e.value, env) && StringsAreTristate(e.value)
    ensures Tested(e).Some? && Eval(Tested(e).value, env) == if EvalOpt(e, env) == NO then NO else YES
  {
    assert SymbolOk(env, SymNo);
    if e.Some? {
      TransCompareExact(e.value, false, SymNo, env);
    }
    var t := TransCompareOpt(e, false, SymNo).value;
    TransformExact(t, env);
    EliminateDupsSharpens(Transform(t), env);
  }
}
