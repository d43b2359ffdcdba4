// Where expr_eliminate_dups is not exact (pdk/config/expr.c:560-638): an AND that
// holds the negation of an operand becomes n although its value may have been m,
// and an OR becomes y.
module ExprContradiction {
  import opened KconfigExpr
  import opened ExprTransform
  import opened ExprEq
  import opened ExprEqComplete
  import opened ExprJoin
  import opened ExprDups
  import opened ExprEliminate

  // What the second pass replaces a contradicted operand by.
  function Absorbing(c: Conn): Expr { c.Dual().UnitExpr() }

  // The second pass has nothing to do inside the operands.
  ghost predicate Settled(xs: seq<Expr>) {
    forall k | 0 <= k < |xs| && IsConn(xs[k]) :: Dups2Self(xs[k]).1 == 0
  }

  // Some operands have been replaced, at least one if n is not 0.
  ghost predicate Drops(c: Conn, xs: seq<Expr>, ys: seq<Expr>, n: nat) {
    && |ys| == |xs|
    && (forall k | 0 <= k < |xs| :: ys[k] == xs[k] || (IsConn(xs[k]) && ys[k] == Absorbing(c)))
    && (n > 0 ==> Absorbing(c) in ys)
  }

  // Of settled operands the pass replaces at least one if it counts anything, and
  // rewrites none in another way.
  lemma {:induction false} Dups2Drops(c: Conn, s1: Spine, i1: nat, s2: Spine, i2: nat, xs: seq<Expr>)
    requires i1 + Tips(s1) <= |xs| && i2 + Tips(s2) <= |xs| && NoHeads(c, xs) && |xs| >= 2 && Settled(xs)
    ensures var r := Dups2(c, s1, i1, s2, i2, xs); Drops(c, xs, r.0, r.1)
    decreases s1, s2, 1
  {
    hide Dups2, Dups2Inner, Dups2Tip, Dups2Self, DropSlot, NegationIn, Drops, Settled;
    Dups2Steps(c, s1, i1, s2, i2, xs);
    if s1.Tip? { Dups2InnerSteps(c, s1, i1, s2, i2, xs); }
    if s1.Fork? {
      var (ys, m) := Dups2(c, s1.l, i1, s2, i2, xs);
      var (zs, n) := Dups2(c, s1.r, i1 + Tips(s1.l), s2, i2, ys);
      Dups2Drops(c, s1.l, i1, s2, i2, xs);
      StaysSettled(c, xs, ys, m);
      Dups2Drops(c, s1.r, i1 + Tips(s1.l), s2, i2, ys);
      DropsInTurn(c, xs, ys, m, zs, n);
    } else {
      var (ys, m) := Dups2Inner(c, s1, i1, s2, i2, xs);
      var (zs, n) := Dups2Tip(c, i1, s2, i2, ys);
      Dups2InnerDrops(c, s1, i1, s2, i2, xs);
      StaysSettled(c, xs, ys, m);
      Dups2TipDrops(c, i1, s2, i2, ys);
      DropsInTurn(c, xs, ys, m, zs, n);
    }
  }

  lemma {:induction false} Dups2InnerDrops(c: Conn, s1: Spine, i1: nat, s2: Spine, i2: nat, xs: seq<Expr>)
    requires s1.Tip? && i1 < |xs| && i2 + Tips(s2) <= |xs| && NoHeads(c, xs) && |xs| >= 2 && Settled(xs)
    ensures var r := Dups2Inner(c, s1, i1, s2, i2, xs); Drops(c, xs, r.0, r.1)
    decreases s1, s2, 0
  {
    hide Dups2, Dups2Inner, Dups2Tip, Dups2Self, DropSlot, NegationIn, Settled;
    Dups2InnerSteps(c, s1, i1, s2, i2, xs);
    if s2.Fork? {
      var (us, p) := Dups2(c, s1, i1, s2.l, i2, xs);
      var (vs, q) := Dups2(c, s1, i1, s2.r, i2 + Tips(s2.l), us);
      Dups2Drops(c, s1, i1, s2.l, i2, xs);
      StaysSettled(c, xs, us, p);
      Dups2Drops(c, s1, i1, s2.r, i2 + Tips(s2.l), us);
      DropsInTurn(c, xs, us, p, vs, q);
    }
  }

  lemma Dups2TipDrops(c: Conn, i1: nat, s2: Spine, i2: nat, xs: seq<Expr>)
    requires i1 < |xs| && i2 + Tips(s2) <= |xs| && NoHeads(c, xs) && |xs| >= 2 && Settled(xs)
    ensures var r := Dups2Tip(c, i1, s2, i2, xs); Drops(c, xs, r.0, r.1)
  {
    hide Dups2, Dups2Inner, Dups2Self, NegationIn;
    if !(s2.Tip? && i1 == i2) && IsConn(xs[i1]) {
      SumUpdate(xs, i1, xs[i1]);
      Dups2SelfSettled(xs[i1]);
      assert xs[i1 := xs[i1]] == xs;
      var (ys, n) := DropSlot(c, i1, s2, i2, xs[i1], xs);
      assert Dups2Tip(c, i1, s2, i2, xs) == (ys, n);
      if n > 0 { assert ys[i1] == Absorbing(c); }
    }
  }

  lemma DropsInTurn(c: Conn, xs: seq<Expr>, ys: seq<Expr>, m: nat, zs: seq<Expr>, n: nat)
    requires Drops(c, xs, ys, m) && Drops(c, ys, zs, n)
    ensures Drops(c, xs, zs, m + n)
  {
    if k :| 0 <= k < |ys| && ys[k] == Absorbing(c) { assert zs[k] == Absorbing(c); }
  }

  lemma StaysSettled(c: Conn, xs: seq<Expr>, ys: seq<Expr>, n: nat)
    requires Drops(c, xs, ys, n) && Settled(xs)
    ensures Settled(ys)
  {
    forall k | 0 <= k < |ys| && IsConn(ys[k]) ensures Dups2Self(ys[k]).1 == 0 { assert ys[k] == xs[k]; }
  }

  lemma {:induction false} AbsorbedFolds(c: Conn, s: Spine, xs: seq<Expr>)
    requires |xs| == Tips(s) && Absorbing(c) in xs
    ensures EliminateYN(Build(c, s, xs)) == Absorbing(c)
  {
    match s
    case Tip =>
    case Fork(l, r) =>
      var ls, rs := xs[..Tips(l)], xs[Tips(l)..];
      assert ls + rs == xs;
      if Absorbing(c) in ls { AbsorbedFolds(c, l, ls); } else { AbsorbedFolds(c, r, rs); }
      FoldedHead(c, Build(c, s, xs));
  }

  // With nothing to join and settled operands, expr_eliminate_dups either leaves an
  // AND or OR as it is or makes it n or y. It does the latter if an operand is
  // contradicted, and that is a change exactly where the value was m.
  lemma ContradictionFolds(e: Expr, env: Env)
    requires IsConn(e) && Dups1Self(e).1 == 0 && Settled(Operands(ConnOf(e), e)) && ValidEnv(env)
    ensures var c, was, now := ConnOf(e), Eval(e, env), Eval(EliminateDups(e), env);
      && EliminateDups(e) == (if Dups2Self(e).1 == 0 then e else Absorbing(c))
      && ((exists x | x in Operands(c, e) :: IsConn(x) && NegationIn(x, e)) ==> Dups2Self(e).1 > 0)
      && (now != was <==> Dups2Self(e).1 > 0 && was == MOD)
  {
    var c := ConnOf(e);
    Dups1SelfSettled(e);
    assert Pass(e) == Dups2Self(e);
    if Dups2Self(e).1 == 0 {
      Dups2SelfSettled(e);
    } else {
      DroppedFolds(e);
      EliminateDupsSharpens(e, env);
      assert SymbolOk(env, SymYes) && SymbolOk(env, SymNo);
    }
  }

  lemma DroppedFolds(e: Expr)
    requires IsConn(e) && Settled(Operands(ConnOf(e), e)) && Pass(e) == Dups2Self(e) && Dups2Self(e).1 > 0
    ensures EliminateDups(e) == Absorbing(ConnOf(e))
  {
    hide Dups2, Dups2Inner, Dups2Tip, NegationIn;
    var c := ConnOf(e);
    var s, xs := SpineOf(c, e), Operands(c, e);
    BuildOperands(c, e);
    TipsPositive(s.l);
    TipsPositive(s.r);
    var (ys, n) := Dups2(c, s, 0, s, 0, xs);
    Dups2Drops(c, s, 0, s, 0, xs);
    assert Dups2Self(e) == (Build(c, s, ys), n);
    AbsorbedFolds(c, s, ys);
    PassShrinks(e);
    assert Pass(Absorbing(c)) == (Absorbing(c), 0);
  }

  // ---------- a witness ----------

  // The converse of Dups1Settled.
  lemma {:induction false} NoJoinIsQuiet(c: Conn, s1: Spine, i1: nat, s2: Spine, i2: nat, xs: seq<Expr>)
    requires i1 + Tips(s1) <= |xs| && i2 + Tips(s2) <= |xs| && NoHeads(c, xs)
    requires NoJoin(c, i1, i1 + Tips(s1), i2, i2 + Tips(s2), xs)
    ensures Dups1(c, s1, i1, s2, i2, xs) == (xs, 0)
    decreases s1, s2
  {
    hide Dups1, Dups1Tip, Dups1Self, JoinSlots, Join, NoJoin;
    Dups1Steps(c, s1, i1, s2, i2, xs);
    var h1, h2 := i1 + Tips(s1), i2 + Tips(s2);
    if s1.Fork? {
      var m := i1 + Tips(s1.l);
      NoJoinPart(c, i1, h1, i2, h2, i1, m, i2, h2, xs);
      NoJoinPart(c, i1, h1, i2, h2, m, m + Tips(s1.r), i2, h2, xs);
      NoJoinIsQuiet(c, s1.l, i1, s2, i2, xs);
      NoJoinIsQuiet(c, s1.r, m, s2, i2, xs);
    } else if s2.Fork? {
      var m := i2 + Tips(s2.l);
      NoJoinPart(c, i1, h1, i2, h2, i1, h1, i2, m, xs);
      NoJoinPart(c, i1, h1, i2, h2, i1, h1, m, m + Tips(s2.r), xs);
      NoJoinIsQuiet(c, s1, i1, s2.l, i2, xs);
      NoJoinIsQuiet(c, s1, i1, s2.r, m, xs);
    } else {
      NoJoinTip(c, i1, i2, xs);
    }
  }

  // What holds of two ranges of operands holds of their parts.
  lemma NoJoinPart(c: Conn, lo1: nat, hi1: nat, lo2: nat, hi2: nat, a1: nat, b1: nat, a2: nat, b2: nat, xs: seq<Expr>)
    requires lo1 <= a1 <= b1 <= hi1 <= |xs| && lo2 <= a2 <= b2 <= hi2 <= |xs|
    requires NoJoin(c, lo1, hi1, lo2, hi2, xs)
    ensures NoJoin(c, a1, b1, a2, b2, xs)
  {
    hide Dups1Self, Join;
  }

  lemma NoJoinTip(c: Conn, i1: nat, i2: nat, xs: seq<Expr>)
    requires i1 < |xs| && i2 < |xs| && NoHeads(c, xs) && NoJoin(c, i1, i1 + 1, i2, i2 + 1, xs)
    ensures Dups1Tip(c, i1, i2, xs) == (xs, 0)
  {
    hide Dups1, Dups1Self, JoinSlots;
    if i1 != i2 {
      assert Join(c, xs[i1], xs[i2]).None?;
      SumUpdate(xs, i1, xs[i1]);
      if IsConn(xs[i1]) { SelfUnchanged(xs[i1]); }
      Dups1TipIs(c, i1, i2, xs, xs[i1], 0);
      NoJoinSlots(c, i1, i2, xs);
    }
  }

  lemma Dups1TipIs(c: Conn, i1: nat, i2: nat, xs: seq<Expr>, a: Expr, m: nat)
    requires i1 < |xs| && i2 < |xs| && i1 != i2 && NoHeads(c, xs) && !c.Heads(a) && Weight(a) <= Weight(xs[i1])
    requires if IsConn(xs[i1]) then Dups1Self(xs[i1]) == (a, m) else (a, m) == (xs[i1], 0)
    ensures var (ys, n) := JoinSlots(c, i1, i2, a, xs); Dups1Tip(c, i1, i2, xs) == (ys, m + n)
  {
    hide Dups1, Dups1Self, JoinSlots;
  }

  lemma SelfUnchanged(e: Expr)
    requires IsConn(e) && Dups1Self(e).1 == 0
    ensures Dups1Self(e) == (e, 0)
  {
    Dups1SelfSettled(e);
  }

  lemma NoJoinSlots(c: Conn, i1: nat, i2: nat, xs: seq<Expr>)
    requires i1 < |xs| && i2 < |xs| && i1 != i2 && NoHeads(c, xs) && Join(c, xs[i1], xs[i2]).None?
    ensures JoinSlots(c, i1, i2, xs[i1], xs) == (xs, 0)
  {
    assert xs[i1 := xs[i1]] == xs;
  }

  lemma SelfQuiet(e: Expr)
    requires IsConn(e)
    requires var c := ConnOf(e); var xs := Operands(c, e); NoJoin(c, 0, |xs|, 0, |xs|, xs)
    ensures Dups1Self(e).1 == 0
  {
    var c := ConnOf(e);
    var s := SpineOf(c, e);
    BuildOperands(c, e);
    NoJoinIsQuiet(c, s, 0, s, 0, Operands(c, e));
  }

  // (A || B) && (!A && !B) becomes n, although its value is m where A and B are m.
  lemma SharpeningHappens(a: string, b: string, env: Env)
    requires a != b && ValidEnv(env)
    requires env.tri(Sym(a, STristate)) == MOD && env.tri(Sym(b, STristate)) == MOD
    ensures var x, y := ESymbol(Sym(a, STristate)), ESymbol(Sym(b, STristate));
      var e := EAnd(EOr(x, y), EAnd(ENot(x), ENot(y)));
      Eval(e, env) == MOD && EliminateDups(e) == ExprNo
  {
    var x, y := ESymbol(Sym(a, STristate)), ESymbol(Sym(b, STristate));
    var o, t := EOr(x, y), EAnd(ENot(x), ENot(y));
    WitnessOperands(x, y, o, t, EAnd(o, t));
    WitnessQuiet(x, y, o, t, EAnd(o, t));
    WitnessContradicted(x, y, o, t, EAnd(o, t));
    assert Operands(And, EAnd(o, t))[0] == o;
    ContradictionFolds(EAnd(o, t), env);
    assert ConnOf(EAnd(o, t)) == And && Absorbing(And) == ExprNo;
    assert Eval(o, env) == MOD && Eval(ENot(x), env) == MOD && Eval(ENot(y), env) == MOD;
    assert Eval(t, env) == MOD;
  }

  ghost predicate Witness(x: Expr, y: Expr, o: Expr, t: Expr, e: Expr) {
    && x.ESymbol? && x.sym.Sym? && x.sym.stype == STristate
    && y.ESymbol? && y.sym.Sym? && y.sym.stype == STristate && x != y
    && o == EOr(x, y) && t == EAnd(ENot(x), ENot(y)) && e == EAnd(o, t)
  }

  lemma WitnessOperands(x: Expr, y: Expr, o: Expr, t: Expr, e: Expr)
    requires Witness(x, y, o, t, e)
    ensures Operands(Or, o) == [x, y] && Operands(And, e) == [o, ENot(x), ENot(y)]
  {
    assert Operands(Or, o) == Operands(Or, x) + Operands(Or, y);
    assert Operands(And, t) == Operands(And, ENot(x)) + Operands(And, ENot(y)) == [ENot(x), ENot(y)];
    assert Operands(And, e) == Operands(And, o) + Operands(And, t);
  }

  // Nothing can be joined, and nothing done inside the OR.
  lemma WitnessQuiet(x: Expr, y: Expr, o: Expr, t: Expr, e: Expr)
    requires Witness(x, y, o, t, e)
    ensures Dups1Self(e).1 == 0 && Settled(Operands(And, e))
  {
    WitnessOperands(x, y, o, t, e);
    NoTwoJoin(x, y, o);
    TwoQuiet(o, x, y);
    SymbolsSettled(o, x, y);
    ThreeQuiet(e, o, ENot(x), ENot(y));
  }

  lemma NoTwoJoin(x: Expr, y: Expr, o: Expr)
    requires x.ESymbol? && x.sym.Sym? && x.sym.stype == STristate && y.ESymbol? && y.sym.Sym?
    requires y.sym.stype == STristate && x != y && o.EOr?
    ensures Join(Or, x, y).None? && Join(Or, y, x).None?
    ensures Join(And, ENot(x), ENot(y)).None? && Join(And, ENot(y), ENot(x)).None?
    ensures forall n | n == ENot(x) || n == ENot(y) :: Join(And, o, n).None? && Join(And, n, o).None?
  {
  }

  lemma TwoQuiet(o: Expr, x: Expr, y: Expr)
    requires o.EOr? && Operands(Or, o) == [x, y] && x.ESymbol? && y.ESymbol?
    requires Join(Or, x, y).None? && Join(Or, y, x).None?
    ensures Dups1Self(o).1 == 0
  {
    var xs := Operands(Or, o);
    assert xs[0] == x && xs[1] == y;
    assert NoJoin(Or, 0, 2, 0, 2, xs);
    SelfQuiet(o);
  }

  lemma ThreeQuiet(e: Expr, o: Expr, u: Expr, v: Expr)
    requires e.EAnd? && Operands(And, e) == [o, u, v] && o.EOr? && u.ENot? && v.ENot? && Dups1Self(o).1 == 0
    requires Join(And, u, v).None? && Join(And, v, u).None?
    requires forall n | n == u || n == v :: Join(And, o, n).None? && Join(And, n, o).None?
    ensures Dups1Self(e).1 == 0
  {
    var xs := Operands(And, e);
    forall i, j | 0 <= i < 3 && 0 <= j < 3 && i != j
      ensures Join(And, xs[i], xs[j]).None? && (IsConn(xs[i]) ==> Dups1Self(xs[i]).1 == 0)
    {
    }
    assert NoJoin(And, 0, 3, 0, 3, xs);
    SelfQuiet(e);
  }

  lemma SymbolsSettled(o: Expr, x: Expr, y: Expr)
    requires o.EOr? && Operands(Or, o) == [x, y] && x.ESymbol? && y.ESymbol? && x.sym.Sym? && y.sym.Sym?
    ensures Dups2Self(o).1 == 0
  {
    hide Dups2, Dups2Inner, Dups2Tip, NegationIn;
    var s, xs := SpineOf(Or, o), Operands(Or, o);
    BuildOperands(Or, o);
    assert xs[0] == x && xs[1] == y;
    var r := Dups2(Or, s, 0, s, 0, xs);
    Dups2Drops(Or, s, 0, s, 0, xs);
    assert r.0 == xs;
    assert Dups2Self(o).1 == r.1;
  }

  lemma WitnessContradicted(x: Expr, y: Expr, o: Expr, t: Expr, e: Expr)
    requires Witness(x, y, o, t, e)
    ensures NegationIn(o, e)
  {
    assert Transform(x) == x && Transform(y) == y && Transform(ENot(x)) == ENot(x) && Transform(ENot(y)) == ENot(y);
    RankDeMorgan(x, y);
    assert Transform(o) == o;
    assert Transform(ENot(o)) == t;
    WitnessPlain(x, y, o, t, e);
    ExtractUsesUpIff(And, t, e);
    WitnessBags(x, y, o, t, e, ShNot(ShSymbol(x.sym)), ShNot(ShSymbol(y.sym)));
  }

  lemma WitnessPlain(x: Expr, y: Expr, o: Expr, t: Expr, e: Expr)
    requires Witness(x, y, o, t, e)
    ensures Plain(t) && !IsYN(t) && PlainTree(And, e)
  {
    assert Plain(ENot(x)) && Plain(ENot(y)) && Plain(o);
    assert Plain(t) && Plain(e);
    PlainIsTree(And, e);
  }

  lemma WitnessBags(x: Expr, y: Expr, o: Expr, t: Expr, e: Expr, u: Shape, v: Shape)
    requires Witness(x, y, o, t, e) && u == ShNot(ShSymbol(x.sym)) && v == ShNot(ShSymbol(y.sym))
    ensures AllTaken(Bag(And, t), Bag(And, e))
  {
    NotShape(x, u);
    NotShape(y, v);
    assert Bag(And, t) == Bag(And, ENot(x)) + Bag(And, ENot(y)) == multiset{u, v};
    assert Bag(And, e) == Bag(And, o) + Bag(And, t);
    forall z | z in Bag(And, t) ensures Clean(z) { assert z == u || z == v; }
  }

  lemma NotShape(x: Expr, u: Shape)
    requires x.ESymbol? && u == ShNot(ShSymbol(x.sym))
    ensures Bag(And, ENot(x)) == multiset{u} && Clean(u)
  {
    assert ShapeOf(x) == ShSymbol(x.sym);
    assert ShapeOf(ENot(x)) == ShNot(ShapeOf(x));
    assert Clean(ShSymbol(x.sym));
  }
}
