// Cancelling common operands and comparing expressions modulo operand order:
// __expr_eliminate_eq, expr_eliminate_eq, expr_eq and expr_extract_eq
// (pdk/config/expr.c). The third component of a result counts the rewrites,
// as the global trans_count does.
module ExprEq {
  import opened KconfigExpr
  import opened ExprTransform

  predicate SameType(a: Expr, b: Expr) {
    match a
    case ESymbol(_) => b.ESymbol?
    case ENot(_) => b.ENot?
    case EAnd(_, _) => b.EAnd?
    case EOr(_, _) => b.EOr?
    case EEqual(_, _) => b.EEqual?
    case EUnequal(_, _) => b.EUnequal?
  }

  // __expr_eliminate_eq on two separate trees
  function ElimEqRec(c: Conn, e1: Expr, e2: Expr): (r: (Expr, Expr, nat))
    ensures Size(r.0) <= Size(e1) && Size(r.1) <= Size(e2)
    decreases Size(e1) + Size(e2), if c.Heads(e1) || c.Heads(e2) then 0 else 3
  {
    if c.Heads(e1) then
      var (l, e2', m) := ElimEqRec(c, e1.l, e2);
      var (r, e2'', n) := ElimEqRec(c, e1.r, e2');
      (c.Make(l, r), e2'', m + n)
    else if c.Heads(e2) then
      var (e1', l, m) := ElimEqRec(c, e1, e2.l);
      var (e1'', r, n) := ElimEqRec(c, e1', e2.r);
      (e1'', c.Make(l, r), m + n)
    else if e1.ESymbol? && e2.ESymbol? && e1.sym == e2.sym && e1.sym.HasYesOrNoFlag() then
      (e1, e2, 0)
    else if !Equal(e1, e2) then
      (e1, e2, 0)
    else
      (c.UnitExpr(), c.UnitExpr(), 1)
  }

  // expr_eliminate_eq
  function ElimEq(e1: Expr, e2: Expr): (r: (Expr, Expr, nat))
    decreases Size(e1) + Size(e2), 1
  {
    var (a1, a2, m) := ElimEqFirst(e1, e2);
    var (b1, b2, n) := ElimEqSecond(a1, a2);
    (EliminateYN(b1), EliminateYN(b2), m + n)
  }

  // A first elimination by the head of e1, a second one by a different head of e2.
  function ElimEqFirst(e1: Expr, e2: Expr): (r: (Expr, Expr, nat))
    ensures Size(r.0) <= Size(e1) && Size(r.1) <= Size(e2)
    decreases Size(e1) + Size(e2), 1, 0
  {
    if IsConn(e1) then ElimEqRec(ConnOf(e1), e1, e2) else (e1, e2, 0)
  }

  function ElimEqSecond(e1: Expr, e2: Expr): (Expr, Expr, nat)
    decreases Size(e1) + Size(e2), 1, 0
  {
    if !SameType(e1, e2) && IsConn(e2) then ElimEqRec(ConnOf(e2), e1, e2) else (e1, e2, 0)
  }

  // expr_eq
  predicate Equal(e1: Expr, e2: Expr)
    decreases Size(e1) + Size(e2), 2
  {
    SameType(e1, e2) &&
    match e1
    case ESymbol(s) => s == e2.sym
    case EEqual(s, t) => s == e2.sl && t == e2.sr
    case EUnequal(s, t) => s == e2.sl && t == e2.sr
    case ENot(x) => Equal(x, e2.e)
    case EAnd(_, _) => var r := ElimEq(e1, e2); r.0.ESymbol? && r.0 == r.1
    case EOr(_, _) => var r := ElimEq(e1, e2); r.0.ESymbol? && r.0 == r.1
  }

  // ---------- the steps of __expr_eliminate_eq ----------

  // Line 147-151: equal, and not one and the same constant.
  predicate Cancels(c: Conn, e1: Expr, e2: Expr) {
    Equal(e1, e2) && !(e1.ESymbol? && e1.sym.HasYesOrNoFlag())
  }

  lemma ElimEqRecLeft(c: Conn, e1: Expr, e2: Expr, l: Expr, e2': Expr, r: Expr, e2'': Expr)
    requires c.Heads(e1)
    requires var p := ElimEqRec(c, e1.l, e2); p.0 == l && p.1 == e2'
    requires var p := ElimEqRec(c, e1.r, e2'); p.0 == r && p.1 == e2''
    ensures ElimEqRec(c, e1, e2).0 == c.Make(l, r) && ElimEqRec(c, e1, e2).1 == e2''
  {
  }

  lemma ElimEqRecRight(c: Conn, e1: Expr, e2: Expr, e1': Expr, l: Expr, e1'': Expr, r: Expr)
    requires !c.Heads(e1) && c.Heads(e2)
    requires var p := ElimEqRec(c, e1, e2.l); p.0 == e1' && p.1 == l
    requires var p := ElimEqRec(c, e1', e2.r); p.0 == e1'' && p.1 == r
    ensures ElimEqRec(c, e1, e2).0 == e1'' && ElimEqRec(c, e1, e2).1 == c.Make(l, r)
  {
  }

  lemma ElimEqTip(c: Conn, e1: Expr, e2: Expr)
    requires !c.Heads(e1) && !c.Heads(e2)
    ensures ElimEqRec(c, e1, e2).0 == (if Cancels(c, e1, e2) then c.UnitExpr() else e1)
    ensures ElimEqRec(c, e1, e2).1 == (if Cancels(c, e1, e2) then c.UnitExpr() else e2)
  {
  }

  // ---------- what cancelling means ----------

  // Both arguments were their residue joined with one common value.
  ghost predicate Cancelled(c: Conn, e1: Expr, e2: Expr, r1: Expr, r2: Expr, common: tristate, env: Env) {
    Eval(e1, env) == c.Op(common, Eval(r1, env)) && Eval(e2, env) == c.Op(common, Eval(r2, env))
  }

  lemma CancelledInTurn(c: Conn, e1: Expr, e2: Expr, l: Expr, r: Expr, e2': Expr, e2'': Expr,
                        k1: tristate, k2: tristate, env: Env)
    requires c.Heads(e1)
    requires Cancelled(c, e1.l, e2, l, e2', k1, env) && Cancelled(c, e1.r, e2', r, e2'', k2, env)
    ensures Cancelled(c, e1, e2, c.Make(l, r), e2'', c.Op(k1, k2), env)
  {
    EvalMake(c, l, r, env);
    EvalMake(c, e1.l, e1.r, env);
    OpLaws(c, k1, Eval(l, env), k2, Eval(r, env));
    OpLaws(c, k1, k2, Eval(e2'', env), NO);
  }

  lemma {:induction false} ElimEqRecCancels(c: Conn, e1: Expr, e2: Expr, env: Env) returns (common: tristate)
    requires ValidEnv(env)
    ensures var r := ElimEqRec(c, e1, e2); Cancelled(c, e1, e2, r.0, r.1, common, env)
    decreases Size(e1) + Size(e2), if c.Heads(e1) || c.Heads(e2) then 0 else 3
  {
    hide ElimEqRec, Equal, Eval, Cancelled;
    if c.Heads(e1) {
      var (l, e2', _) := ElimEqRec(c, e1.l, e2);
      var (r, e2'', _) := ElimEqRec(c, e1.r, e2');
      ElimEqRecLeft(c, e1, e2, l, e2', r, e2'');
      var k1 := ElimEqRecCancels(c, e1.l, e2, env);
      var k2 := ElimEqRecCancels(c, e1.r, e2', env);
      common := c.Op(k1, k2);
      CancelledInTurn(c, e1, e2, l, r, e2', e2'', k1, k2, env);
    } else if c.Heads(e2) {
      var (e1', l, _) := ElimEqRec(c, e1, e2.l);
      var (e1'', r, _) := ElimEqRec(c, e1', e2.r);
      ElimEqRecRight(c, e1, e2, e1', l, e1'', r);
      var k1 := ElimEqRecCancels(c, e1, e2.l, env);
      var k2 := ElimEqRecCancels(c, e1', e2.r, env);
      common := c.Op(k1, k2);
      CancelledSwap(c, e1, e2.l, e1', l, k1, env);
      CancelledSwap(c, e1', e2.r, e1'', r, k2, env);
      CancelledInTurn(c, e2, e1, l, r, e1', e1'', k1, k2, env);
      CancelledSwap(c, e2, e1, c.Make(l, r), e1'', common, env);
    } else {
      ElimEqTip(c, e1, e2);
      if Cancels(c, e1, e2) { EqualSound(e1, e2, env); }
      common := if Cancels(c, e1, e2) then Eval(e1, env) else c.Unit();
      TipCancelled(c, e1, e2, Cancels(c, e1, e2), env);
    }
  }

  lemma CancelledSwap(c: Conn, e1: Expr, e2: Expr, r1: Expr, r2: Expr, common: tristate, env: Env)
    requires Cancelled(c, e1, e2, r1, r2, common, env)
    ensures Cancelled(c, e2, e1, r2, r1, common, env)
  {
  }

  lemma TipCancelled(c: Conn, e1: Expr, e2: Expr, cancel: bool, env: Env)
    requires ValidEnv(env) && (cancel ==> Eval(e1, env) == Eval(e2, env))
    ensures var u := c.UnitExpr();
      if cancel then Cancelled(c, e1, e2, u, u, Eval(e1, env), env) else Cancelled(c, e1, e2, e1, e2, c.Unit(), env)
  {
    assert SymbolOk(env, SymYes) && SymbolOk(env, SymNo);
  }

  // Whatever order or equality holds between r1 and r2 holds between e1 and e2.
  ghost predicate Carries(r1: Expr, r2: Expr, e1: Expr, e2: Expr, env: Env) {
    && (Eval(r1, env) == Eval(r2, env) ==> Eval(e1, env) == Eval(e2, env))
    && (Eval(r1, env) <= Eval(r2, env) ==> Eval(e1, env) <= Eval(e2, env))
    && (Eval(r2, env) <= Eval(r1, env) ==> Eval(e2, env) <= Eval(e1, env))
  }

  lemma CancelledCarries(c: Conn, e1: Expr, e2: Expr, r1: Expr, r2: Expr, common: tristate, env: Env)
    requires Cancelled(c, e1, e2, r1, r2, common, env)
    ensures Carries(r1, r2, e1, e2, env)
  {
    hide Eval;
  }

  // What the residues say about the originals.
  lemma {:induction false} ElimEqSound(e1: Expr, e2: Expr, env: Env)
    requires ValidEnv(env)
    ensures var r := ElimEq(e1, e2); Carries(r.0, r.1, e1, e2, env)
    decreases Size(e1) + Size(e2), 1
  {
    hide ElimEqRec, Equal, Eval, EliminateYN, Cancelled;
    var (a1, a2, _) := ElimEqFirst(e1, e2);
    if IsConn(e1) {
      var k := ElimEqRecCancels(ConnOf(e1), e1, e2, env);
      CancelledCarries(ConnOf(e1), e1, e2, a1, a2, k, env);
    }
    var (b1, b2, _) := ElimEqSecond(a1, a2);
    if !SameType(a1, a2) && IsConn(a2) {
      var k := ElimEqRecCancels(ConnOf(a2), a1, a2, env);
      CancelledCarries(ConnOf(a2), a1, a2, b1, b2, k, env);
    }
    EliminateYNExact(b1, env);
    EliminateYNExact(b2, env);
  }

  lemma {:induction false} EqualSound(e1: Expr, e2: Expr, env: Env)
    requires ValidEnv(env) && Equal(e1, e2)
    ensures Eval(e1, env) == Eval(e2, env)
    decreases Size(e1) + Size(e2), 2
  {
    match e1
    case ENot(x) => EqualSound(x, e2.e, env);
    case EAnd(_, _) => ElimEqSound(e1, e2, env);
    case EOr(_, _) => ElimEqSound(e1, e2, env);
    case _ =>
  }

  // The test for adopting a sub-menu: if nothing of the parent's condition is
  // left over, the entry's condition never exceeds it.
  lemma ResidueYesMeansBelow(dep: Expr, basedep: Expr)
    requires ElimEq(dep, basedep).1 == ExprYes
    ensures forall env | ValidEnv(env) :: Eval(dep, env) <= Eval(basedep, env)
  {
    forall env | ValidEnv(env) ensures Eval(dep, env) <= Eval(basedep, env) {
      assert SymbolOk(env, SymYes);
      ElimEqSound(dep, basedep, env);
    }
  }

  // ---------- expr_extract_eq ----------

  // The residues of both arguments, and the operands taken out of them.
  function ExtractEq(c: Conn, taken: Option<Expr>, e1: Expr, e2: Expr): (r: (Option<Expr>, Expr, Expr))
    ensures Size(r.1) <= Size(e1) && Size(r.2) <= Size(e2)
    decreases Size(e1) + Size(e2)
  {
    if c.Heads(e1) then
      var (t, l, e2') := ExtractEq(c, taken, e1.l, e2);
      var (t', r, e2'') := ExtractEq(c, t, e1.r, e2');
      (t', c.Make(l, r), e2'')
    else if c.Heads(e2) then
      var (t, e1', l) := ExtractEq(c, taken, e1, e2.l);
      var (t', e1'', r) := ExtractEq(c, t, e1', e2.r);
      (t', e1'', c.Make(l, r))
    else if Equal(e1, e2) then
      (Some(if taken.None? then e1 else c.Make(taken.value, e1)), c.UnitExpr(), c.UnitExpr())
    else
      (taken, e1, e2)
  }

  // expr_extract_eq_and and expr_extract_eq_or
  function Extract(c: Conn, e1: Expr, e2: Expr): (Option<Expr>, Expr, Expr) {
    var (t, r1, r2) := ExtractEq(c, None, e1, e2);
    if t.None? then (t, r1, r2) else (t, EliminateYN(r1), EliminateYN(r2))
  }

  function TakenValue(c: Conn, taken: Option<Expr>, env: Env): tristate {
    if taken.None? then c.Unit() else Eval(taken.value, env)
  }

  lemma ExtractEqLeft(c: Conn, taken: Option<Expr>, e1: Expr, e2: Expr,
                      t: Option<Expr>, l: Expr, e2': Expr, t': Option<Expr>, r: Expr, e2'': Expr)
    requires c.Heads(e1)
    requires ExtractEq(c, taken, e1.l, e2) == (t, l, e2') && ExtractEq(c, t, e1.r, e2') == (t', r, e2'')
    ensures ExtractEq(c, taken, e1, e2) == (t', c.Make(l, r), e2'')
  {
  }

  lemma ExtractEqRight(c: Conn, taken: Option<Expr>, e1: Expr, e2: Expr,
                       t: Option<Expr>, e1': Expr, l: Expr, t': Option<Expr>, e1'': Expr, r: Expr)
    requires !c.Heads(e1) && c.Heads(e2)
    requires ExtractEq(c, taken, e1, e2.l) == (t, e1', l) && ExtractEq(c, t, e1', e2.r) == (t', e1'', r)
    ensures ExtractEq(c, taken, e1, e2) == (t', e1'', c.Make(l, r))
  {
  }

  lemma ExtractEqTip(c: Conn, taken: Option<Expr>, e1: Expr, e2: Expr, env: Env)
    requires !c.Heads(e1) && !c.Heads(e2)
    ensures var r, u := ExtractEq(c, taken, e1, e2), c.UnitExpr();
      && (r.1, r.2) == (if Equal(e1, e2) then (u, u) else (e1, e2))
      && TakenValue(c, r.0, env) ==
        c.Op(TakenValue(c, taken, env), if Equal(e1, e2) then Eval(e1, env) else c.Unit())
  {
    hide Equal;
    if taken.Some? { EvalMake(c, taken.value, e1, env); }
  }

  // What was taken out of both arguments has the value common.
  ghost predicate Extracted(c: Conn, taken: Option<Expr>, e1: Expr, e2: Expr, common: tristate, env: Env) {
    var r := ExtractEq(c, taken, e1, e2);
    && Cancelled(c, e1, e2, r.1, r.2, common, env)
    && TakenValue(c, r.0, env) == c.Op(TakenValue(c, taken, env), common)
  }

  // The operands taken out, joined with a residue, give the original back.
  lemma {:induction false} ExtractEqExact(c: Conn, taken: Option<Expr>, e1: Expr, e2: Expr, env: Env)
    returns (common: tristate)
    requires ValidEnv(env)
    ensures Extracted(c, taken, e1, e2, common, env)
    decreases Size(e1) + Size(e2)
  {
    hide ExtractEq, Equal, Eval, Cancelled, TakenValue, Extracted;
    if c.Heads(e1) {
      var (t, _, e2') := ExtractEq(c, taken, e1.l, e2);
      var k1 := ExtractEqExact(c, taken, e1.l, e2, env);
      var k2 := ExtractEqExact(c, t, e1.r, e2', env);
      common := c.Op(k1, k2);
      ExtractedLeft(c, taken, e1, e2, k1, k2, env);
    } else if c.Heads(e2) {
      var (t, e1', _) := ExtractEq(c, taken, e1, e2.l);
      var k1 := ExtractEqExact(c, taken, e1, e2.l, env);
      var k2 := ExtractEqExact(c, t, e1', e2.r, env);
      common := c.Op(k1, k2);
      ExtractedRight(c, taken, e1, e2, k1, k2, env);
    } else {
      if Equal(e1, e2) { EqualSound(e1, e2, env); }
      common := if Equal(e1, e2) then Eval(e1, env) else c.Unit();
      ExtractedTip(c, taken, e1, e2, env);
    }
  }

  lemma ExtractedTip(c: Conn, taken: Option<Expr>, e1: Expr, e2: Expr, env: Env)
    requires ValidEnv(env) && !c.Heads(e1) && !c.Heads(e2) && (Equal(e1, e2) ==> Eval(e1, env) == Eval(e2, env))
    ensures Extracted(c, taken, e1, e2, if Equal(e1, e2) then Eval(e1, env) else c.Unit(), env)
  {
    hide ExtractEq, Equal, Eval, Cancelled, TakenValue;
    TipCancelled(c, e1, e2, Equal(e1, e2), env);
    ExtractEqTip(c, taken, e1, e2, env);
  }

  lemma ExtractedLeft(c: Conn, taken: Option<Expr>, e1: Expr, e2: Expr, k1: tristate, k2: tristate, env: Env)
    requires c.Heads(e1) && Extracted(c, taken, e1.l, e2, k1, env)
    requires var r := ExtractEq(c, taken, e1.l, e2); Extracted(c, r.0, e1.r, r.2, k2, env)
    ensures Extracted(c, taken, e1, e2, c.Op(k1, k2), env)
  {
    hide ExtractEq, Equal, Eval, Cancelled, TakenValue;
    var (t, l, e2') := ExtractEq(c, taken, e1.l, e2);
    var (t', r, e2'') := ExtractEq(c, t, e1.r, e2');
    ExtractEqLeft(c, taken, e1, e2, t, l, e2', t', r, e2'');
    CancelledInTurn(c, e1, e2, l, r, e2', e2'', k1, k2, env);
    OpLaws(c, TakenValue(c, taken, env), k1, k2, NO);
  }

  lemma ExtractedRight(c: Conn, taken: Option<Expr>, e1: Expr, e2: Expr, k1: tristate, k2: tristate, env: Env)
    requires !c.Heads(e1) && c.Heads(e2) && Extracted(c, taken, e1, e2.l, k1, env)
    requires var r := ExtractEq(c, taken, e1, e2.l); Extracted(c, r.0, r.1, e2.r, k2, env)
    ensures Extracted(c, taken, e1, e2, c.Op(k1, k2), env)
  {
    hide ExtractEq, Equal, Eval, Cancelled, TakenValue;
    var (t, e1', l) := ExtractEq(c, taken, e1, e2.l);
    var (t', e1'', r) := ExtractEq(c, t, e1', e2.r);
    ExtractEqRight(c, taken, e1, e2, t, e1', l, t', e1'', r);
    CancelledSwap(c, e1, e2.l, e1', l, k1, env);
    CancelledSwap(c, e1', e2.r, e1'', r, k2, env);
    CancelledInTurn(c, e2, e1, l, r, e1', e1'', k1, k2, env);
    CancelledSwap(c, e2, e1, c.Make(l, r), e1'', c.Op(k1, k2), env);
    OpLaws(c, TakenValue(c, taken, env), k1, k2, NO);
  }

  lemma ExtractExact(c: Conn, e1: Expr, e2: Expr, env: Env)
    requires ValidEnv(env)
    ensures var (t, r1, r2) := Extract(c, e1, e2);
      Cancelled(c, e1, e2, r1, r2, TakenValue(c, t, env), env)
  {
    var common := ExtractEqExact(c, None, e1, e2, env);
    var (t, r1, r2) := ExtractEq(c, None, e1, e2);
    EliminateYNExact(r1, env);
    EliminateYNExact(r2, env);
  }
}
