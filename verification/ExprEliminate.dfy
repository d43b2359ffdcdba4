// The loop of expr_eliminate_dups (pdk/config/expr.c:617-638): why it stops,
// what its result means, and what is left in it.
module ExprEliminate {
  import opened KconfigExpr
  import opened ExprTransform
  import opened ExprEq
  import opened ExprJoin
  import opened ExprDups

  // ---------- every counted rewrite is progress ----------

  // A y or n stands among the operands or directly below a connective in one.
  ghost predicate Marked(xs: seq<Expr>) {
    exists k :: 0 <= k < |xs| && (IsYN(xs[k]) || Foldable(xs[k]))
  }

  ghost predicate Progress(xs: seq<Expr>, ys: seq<Expr>, n: nat) {
    Sum(ys) < Sum(xs) ||
    (Sum(ys) == Sum(xs) && ((Marked(xs) || n > 0) ==> Marked(ys)))
  }

  ghost predicate ProgressExpr(e: Expr, a: Expr, n: nat) {
    Weight(a) < Weight(e) ||
    (Weight(a) == Weight(e) && ((Foldable(e) || n > 0) ==> Foldable(a)))
  }

  lemma {:induction false} FoldableBuild(c: Conn, s: Spine, xs: seq<Expr>)
    requires |xs| == Tips(s) && s.Fork?
    ensures Foldable(Build(c, s, xs)) <==> Marked(xs)
    decreases s, 0
  {
    var ls, rs := xs[..Tips(s.l)], xs[Tips(s.l)..];
    MarkedSplit(ls, rs);
    assert ls + rs == xs;
    MarkedPart(c, s.l, ls);
    MarkedPart(c, s.r, rs);
  }

  lemma {:induction false} MarkedPart(c: Conn, s: Spine, xs: seq<Expr>)
    requires |xs| == Tips(s)
    ensures var e := Build(c, s, xs); IsYN(e) || Foldable(e) <==> Marked(xs)
    decreases s, 1
  {
    if s.Fork? { FoldableBuild(c, s, xs); }
  }

  lemma MarkedSplit(ls: seq<Expr>, rs: seq<Expr>)
    ensures Marked(ls + rs) <==> Marked(ls) || Marked(rs)
  {
    if Marked(ls) {
      var k :| 0 <= k < |ls| && (IsYN(ls[k]) || Foldable(ls[k]));
      assert (ls + rs)[k] == ls[k];
    }
    if Marked(rs) {
      var k :| 0 <= k < |rs| && (IsYN(rs[k]) || Foldable(rs[k]));
      assert (ls + rs)[|ls| + k] == rs[k];
    }
  }

  lemma MarkedAt(xs: seq<Expr>, k: nat)
    requires k < |xs| && (IsYN(xs[k]) || Foldable(xs[k]))
    ensures Marked(xs)
  {
  }

  lemma ReplaceProgress(xs: seq<Expr>, i: nat, a: Expr, n: nat)
    requires i < |xs| && ((a == xs[i] && n == 0) || (IsConn(xs[i]) && ProgressExpr(xs[i], a, n)))
    ensures Progress(xs, xs[i := a], n)
  {
    var ys := xs[i := a];
    SumUpdate(xs, i, a);
    if Sum(ys) == Sum(xs) && (Marked(xs) || n > 0) {
      if n > 0 {
        MarkedAt(ys, i);
      } else {
        var k :| 0 <= k < |xs| && (IsYN(xs[k]) || Foldable(xs[k]));
        MarkedAt(ys, k);
      }
    }
  }

  lemma JoinSlotsProgress(c: Conn, i1: nat, i2: nat, a: Expr, n: nat, xs: seq<Expr>)
    requires i1 < |xs| && i2 < |xs| && i1 != i2
    requires NoHeads(c, xs) && !c.Heads(a) && Weight(a) <= Weight(xs[i1])
    requires Progress(xs, xs[i1 := a], n)
    ensures var (ys, m) := JoinSlots(c, i1, i2, a, xs); Progress(xs, ys, n + m)
  {
    var (ys, m) := JoinSlots(c, i1, i2, a, xs);
    if m > 0 {
      MarkedAt(ys, i1);
    }
  }

  lemma {:induction false} Dups1Progress(c: Conn, s1: Spine, i1: nat, s2: Spine, i2: nat, xs: seq<Expr>)
    requires i1 + Tips(s1) <= |xs| && i2 + Tips(s2) <= |xs| && NoHeads(c, xs)
    ensures var (ys, n) := Dups1(c, s1, i1, s2, i2, xs); Progress(xs, ys, n)
    decreases Sum(xs), 1, s1, s2
  {
    hide Dups1, Dups1Tip, Dups1Self, JoinSlots, Join;
    Dups1Steps(c, s1, i1, s2, i2, xs);
    if s1.Fork? {
      var (ys, m) := Dups1(c, s1.l, i1, s2, i2, xs);
      var (zs, n) := Dups1(c, s1.r, i1 + Tips(s1.l), s2, i2, ys);
      Dups1Progress(c, s1.l, i1, s2, i2, xs);
      Dups1Progress(c, s1.r, i1 + Tips(s1.l), s2, i2, ys);
    } else if s2.Fork? {
      var (ys, m) := Dups1(c, s1, i1, s2.l, i2, xs);
      var (zs, n) := Dups1(c, s1, i1, s2.r, i2 + Tips(s2.l), ys);
      Dups1Progress(c, s1, i1, s2.l, i2, xs);
      Dups1Progress(c, s1, i1, s2.r, i2 + Tips(s2.l), ys);
    } else {
      Dups1TipProgress(c, i1, i2, xs);
    }
  }

  lemma {:induction false} Dups1TipProgress(c: Conn, i1: nat, i2: nat, xs: seq<Expr>)
    requires i1 < |xs| && i2 < |xs| && NoHeads(c, xs)
    ensures var (ys, n) := Dups1Tip(c, i1, i2, xs); Progress(xs, ys, n)
    decreases Sum(xs), 0
  {
    hide Dups1, Dups1Self, JoinSlots, Join;
    if i1 != i2 {
      SumUpdate(xs, i1, xs[i1]);
      var (a, m) := if IsConn(xs[i1]) then Dups1Self(xs[i1]) else (xs[i1], 0);
      if IsConn(xs[i1]) { Dups1SelfProgress(xs[i1]); }
      ReplaceProgress(xs, i1, a, m);
      JoinSlotsProgress(c, i1, i2, a, m, xs);
    }
  }

  lemma {:induction false} Dups1SelfProgress(e: Expr)
    requires IsConn(e)
    ensures var (a, n) := Dups1Self(e); ProgressExpr(e, a, n)
    decreases Weight(e), 0
  {
    hide Dups1, Dups1Tip, JoinSlots, Join;
    var c := ConnOf(e);
    var s := SpineOf(c, e);
    var xs := Operands(c, e);
    BuildOperands(c, e);
    WeightBuild(c, s, xs);
    TipsPositive(s.l);
    TipsPositive(s.r);
    var (ys, n) := Dups1(c, s, 0, s, 0, xs);
    Dups1Progress(c, s, 0, s, 0, xs);
    WeightBuild(c, s, ys);
    FoldableBuild(c, s, xs);
    FoldableBuild(c, s, ys);
  }

  lemma DropSlotProgress(c: Conn, i1: nat, s2: Spine, i2: nat, a: Expr, n: nat, xs: seq<Expr>)
    requires i1 < |xs| && i2 + Tips(s2) <= |xs|
    requires NoHeads(c, xs) && !c.Heads(a) && IsConn(a) && Weight(a) <= Weight(xs[i1])
    requires Progress(xs, xs[i1 := a], n)
    ensures var (ys, m) := DropSlot(c, i1, s2, i2, a, xs); Progress(xs, ys, n + m)
  {
    var (ys, m) := DropSlot(c, i1, s2, i2, a, xs);
    if m > 0 {
      MarkedAt(ys, i1);
    }
  }

  lemma {:induction false} Dups2Progress(c: Conn, s1: Spine, i1: nat, s2: Spine, i2: nat, xs: seq<Expr>)
    requires i1 + Tips(s1) <= |xs| && i2 + Tips(s2) <= |xs| && NoHeads(c, xs) && |xs| >= 2
    ensures var (ys, n) := Dups2(c, s1, i1, s2, i2, xs); Progress(xs, ys, n)
    decreases Sum(xs), 1, s1, s2
  {
    hide Dups2, Dups2Inner, Dups2Tip, Dups2Self, DropSlot, NegationIn;
    Dups2Steps(c, s1, i1, s2, i2, xs);
    if s1.Tip? { Dups2InnerSteps(c, s1, i1, s2, i2, xs); }
    if s1.Fork? {
      var (ys, m) := Dups2(c, s1.l, i1, s2, i2, xs);
      var (zs, n) := Dups2(c, s1.r, i1 + Tips(s1.l), s2, i2, ys);
      Dups2Progress(c, s1.l, i1, s2, i2, xs);
      Dups2Progress(c, s1.r, i1 + Tips(s1.l), s2, i2, ys);
    } else {
      var (ys, m) := Dups2Inner(c, s1, i1, s2, i2, xs);
      if s2.Fork? {
        var (us, p) := Dups2(c, s1, i1, s2.l, i2, xs);
        Dups2Progress(c, s1, i1, s2.l, i2, xs);
        Dups2Progress(c, s1, i1, s2.r, i2 + Tips(s2.l), us);
      }
      assert Progress(xs, ys, m);
      Dups2TipProgress(c, i1, s2, i2, ys);
    }
  }

  lemma {:induction false} Dups2TipProgress(c: Conn, i1: nat, s2: Spine, i2: nat, xs: seq<Expr>)
    requires i1 < |xs| && i2 + Tips(s2) <= |xs| && NoHeads(c, xs) && |xs| >= 2
    ensures var (ys, n) := Dups2Tip(c, i1, s2, i2, xs); Progress(xs, ys, n)
    decreases Sum(xs), 0
  {
    hide Dups2, Dups2Inner, Dups2Self, DropSlot, NegationIn;
    if !(s2.Tip? && i1 == i2) && IsConn(xs[i1]) {
      SumUpdate(xs, i1, xs[i1]);
      var (a, m) := Dups2Self(xs[i1]);
      Dups2SelfProgress(xs[i1]);
      ReplaceProgress(xs, i1, a, m);
      DropSlotProgress(c, i1, s2, i2, a, m, xs);
    }
  }

  lemma {:induction false} Dups2SelfProgress(e: Expr)
    requires IsConn(e)
    ensures var (a, n) := Dups2Self(e); ProgressExpr(e, a, n)
    decreases Weight(e), 0
  {
    hide Dups2, Dups2Inner, Dups2Tip, DropSlot, NegationIn;
    var c := ConnOf(e);
    var s := SpineOf(c, e);
    var xs := Operands(c, e);
    BuildOperands(c, e);
    WeightBuild(c, s, xs);
    TipsPositive(s.l);
    TipsPositive(s.r);
    var (ys, n) := Dups2(c, s, 0, s, 0, xs);
    Dups2Progress(c, s, 0, s, 0, xs);
    WeightBuild(c, s, ys);
    FoldableBuild(c, s, xs);
    FoldableBuild(c, s, ys);
  }

  // ---------- expr_eliminate_dups ----------

  // One turn of the loop, before expr_eliminate_yn.
  function Pass(e: Expr): (Expr, nat) {
    if IsConn(e) then
      var (a, m) := Dups1Self(e);
      var (b, n) := Dups2Self(a);
      (b, m + n)
    else (e, 0)
  }

  lemma PassShrinks(e: Expr)
    ensures var (a, n) := Pass(e); n > 0 ==> Weight(EliminateYN(a)) < Weight(e)
  {
    if IsConn(e) {
      Dups1SelfProgress(e);
      Dups2SelfProgress(Dups1Self(e).0);
      EliminateYNShrinks(Pass(e).0);
    }
  }

  function EliminateDups(e: Expr): Expr
    decreases Weight(e)
  {
    var (a, n) := Pass(e);
    PassShrinks(e);
    if n == 0 then a else EliminateDups(EliminateYN(a))
  }

  lemma PassSharpens(e: Expr, env: Env)
    requires ValidEnv(env)
    ensures Sharpens(Eval(e, env), Eval(Pass(e).0, env))
  {
    if IsConn(e) {
      Dups1SelfExact(e, env);
      Dups2SelfSharpens(Dups1Self(e).0, env);
    }
  }

  // A value of n or y is never changed.
  lemma {:induction false} EliminateDupsSharpens(e: Expr, env: Env)
    requires ValidEnv(env)
    ensures Sharpens(Eval(e, env), Eval(EliminateDups(e), env))
    decreases Weight(e)
  {
    var (a, n) := Pass(e);
    PassSharpens(e, env);
    PassShrinks(e);
    if n > 0 {
      EliminateYNExact(a, env);
      EliminateDupsSharpens(EliminateYN(a), env);
    }
  }

  // Where no symbol is m, nothing changes at all.
  lemma EliminateDupsExactOnTwoValues(e: Expr, env: Env)
    requires ValidEnv(env) && TwoValued(e, env)
    ensures Eval(EliminateDups(e), env) == Eval(e, env)
  {
    TwoValuedIsDefinite(e, env);
    EliminateDupsSharpens(e, env);
  }

  // ---------- what is left ----------

  // No operand in the first range can be joined into one in the second, and
  // none is changed by a pass of its own.
  ghost predicate NoJoin(c: Conn, lo1: nat, hi1: nat, lo2: nat, hi2: nat, xs: seq<Expr>)
    requires hi1 <= |xs| && hi2 <= |xs|
  {
    forall i, j | lo1 <= i < hi1 && lo2 <= j < hi2 && i != j ::
      Join(c, xs[i], xs[j]).None? && (IsConn(xs[i]) ==> Dups1Self(xs[i]).1 == 0)
  }

  lemma NoJoinAbove(c: Conn, lo: nat, mid: nat, hi: nat, lo2: nat, hi2: nat, xs: seq<Expr>)
    requires lo <= mid <= hi <= |xs| && hi2 <= |xs|
    requires NoJoin(c, lo, mid, lo2, hi2, xs) && NoJoin(c, mid, hi, lo2, hi2, xs)
    ensures NoJoin(c, lo, hi, lo2, hi2, xs)
  {
    hide Dups1, Dups1Self, JoinSlots, Join;
  }

  lemma NoJoinBeside(c: Conn, lo: nat, hi: nat, lo2: nat, mid2: nat, hi2: nat, xs: seq<Expr>)
    requires hi <= |xs| && lo2 <= mid2 <= hi2 <= |xs|
    requires NoJoin(c, lo, hi, lo2, mid2, xs) && NoJoin(c, lo, hi, mid2, hi2, xs)
    ensures NoJoin(c, lo, hi, lo2, hi2, xs)
  {
    hide Dups1, Dups1Self, JoinSlots, Join;
  }

  // No operand in the range contradicts e, and none is changed by a pass of its own.
  ghost predicate NoNegation(lo: nat, hi: nat, xs: seq<Expr>, e: Expr)
    requires hi <= |xs|
  {
    forall i | lo <= i < hi && IsConn(xs[i]) :: !NegationIn(xs[i], e) && Dups2Self(xs[i]).1 == 0
  }

  lemma {:induction false} Dups1Settled(c: Conn, s1: Spine, i1: nat, s2: Spine, i2: nat, xs: seq<Expr>)
    requires i1 + Tips(s1) <= |xs| && i2 + Tips(s2) <= |xs| && NoHeads(c, xs)
    requires Dups1(c, s1, i1, s2, i2, xs).1 == 0
    ensures Dups1(c, s1, i1, s2, i2, xs).0 == xs
    ensures NoJoin(c, i1, i1 + Tips(s1), i2, i2 + Tips(s2), xs)
    decreases Sum(xs), 1, s1, s2
  {
    hide Dups1, Dups1Tip, Dups1Self, JoinSlots, Join, NoJoin;
    Dups1Steps(c, s1, i1, s2, i2, xs);
    if s1.Fork? {
      var (ys, m) := Dups1(c, s1.l, i1, s2, i2, xs);
      var (zs, n) := Dups1(c, s1.r, i1 + Tips(s1.l), s2, i2, ys);
      Dups1Settled(c, s1.l, i1, s2, i2, xs);
      Dups1Settled(c, s1.r, i1 + Tips(s1.l), s2, i2, ys);
      NoJoinAbove(c, i1, i1 + Tips(s1.l), i1 + Tips(s1), i2, i2 + Tips(s2), xs);
    } else if s2.Fork? {
      var (ys, m) := Dups1(c, s1, i1, s2.l, i2, xs);
      var (zs, n) := Dups1(c, s1, i1, s2.r, i2 + Tips(s2.l), ys);
      Dups1Settled(c, s1, i1, s2.l, i2, xs);
      Dups1Settled(c, s1, i1, s2.r, i2 + Tips(s2.l), ys);
      NoJoinBeside(c, i1, i1 + Tips(s1), i2, i2 + Tips(s2.l), i2 + Tips(s2), xs);
    } else {
      Dups1TipSettled(c, i1, i2, xs);
    }
  }

  lemma {:induction false} Dups1TipSettled(c: Conn, i1: nat, i2: nat, xs: seq<Expr>)
    requires i1 < |xs| && i2 < |xs| && NoHeads(c, xs)
    requires Dups1Tip(c, i1, i2, xs).1 == 0
    ensures Dups1Tip(c, i1, i2, xs).0 == xs
    ensures NoJoin(c, i1, i1 + 1, i2, i2 + 1, xs)
    decreases Sum(xs), 0
  {
    hide Dups1, Dups1Self;
    if i1 != i2 {
      SumUpdate(xs, i1, xs[i1]);
      if IsConn(xs[i1]) { Dups1SelfSettled(xs[i1]); }
      assert xs[i1 := xs[i1]] == xs;
    }
  }

  lemma {:induction false} Dups1SelfSettled(e: Expr)
    requires IsConn(e) && Dups1Self(e).1 == 0
    ensures Dups1Self(e).0 == e
    ensures var c := ConnOf(e); var xs := Operands(c, e); NoJoin(c, 0, |xs|, 0, |xs|, xs)
    decreases Weight(e), 0
  {
    hide Dups1, Dups1Tip, JoinSlots, Join, NoJoin, Build, Sum, Operands;
    var c := ConnOf(e);
    var s := SpineOf(c, e);
    var xs := Operands(c, e);
    BuildOperands(c, e);
    WeightBuild(c, s, xs);
    TipsPositive(s.l);
    TipsPositive(s.r);
    Dups1Settled(c, s, 0, s, 0, xs);
  }

  lemma {:induction false} Dups2Settled(c: Conn, s1: Spine, i1: nat, s2: Spine, i2: nat, xs: seq<Expr>)
    requires i1 + Tips(s1) <= |xs| && i2 + Tips(s2) <= |xs| && NoHeads(c, xs) && |xs| >= 2
    requires Dups2(c, s1, i1, s2, i2, xs).1 == 0
    ensures Dups2(c, s1, i1, s2, i2, xs).0 == xs
    ensures s2.Fork? ==> NoNegation(i1, i1 + Tips(s1), xs, Build(c, s2, xs[i2..i2 + Tips(s2)]))
    decreases Sum(xs), 1, s1, s2
  {
    hide Dups2, Dups2Inner, Dups2Tip, Dups2Self, DropSlot, NegationIn;
    Dups2Steps(c, s1, i1, s2, i2, xs);
    if s1.Fork? {
      var (ys, m) := Dups2(c, s1.l, i1, s2, i2, xs);
      var (zs, n) := Dups2(c, s1.r, i1 + Tips(s1.l), s2, i2, ys);
      Dups2Settled(c, s1.l, i1, s2, i2, xs);
      Dups2Settled(c, s1.r, i1 + Tips(s1.l), s2, i2, ys);
    } else {
      Dups2InnerSettled(c, s1, i1, s2, i2, xs);
      Dups2TipSettled(c, i1, s2, i2, xs);
    }
  }

  lemma {:induction false} Dups2InnerSettled(c: Conn, s1: Spine, i1: nat, s2: Spine, i2: nat, xs: seq<Expr>)
    requires s1.Tip? && i1 < |xs| && i2 + Tips(s2) <= |xs| && NoHeads(c, xs) && |xs| >= 2
    requires Dups2Inner(c, s1, i1, s2, i2, xs).1 == 0
    ensures Dups2Inner(c, s1, i1, s2, i2, xs).0 == xs
    decreases Sum(xs), 1, s1, s2, 0
  {
    hide Dups2, Dups2Inner, Dups2Tip, Dups2Self, DropSlot, NegationIn;
    Dups2InnerSteps(c, s1, i1, s2, i2, xs);
    if s2.Fork? {
      var (us, p) := Dups2(c, s1, i1, s2.l, i2, xs);
      Dups2Settled(c, s1, i1, s2.l, i2, xs);
      Dups2Settled(c, s1, i1, s2.r, i2 + Tips(s2.l), us);
    }
  }

  lemma {:induction false} Dups2TipSettled(c: Conn, i1: nat, s2: Spine, i2: nat, xs: seq<Expr>)
    requires i1 < |xs| && i2 + Tips(s2) <= |xs| && NoHeads(c, xs) && |xs| >= 2
    requires Dups2Tip(c, i1, s2, i2, xs).1 == 0
    ensures Dups2Tip(c, i1, s2, i2, xs).0 == xs
    ensures s2.Fork? ==> NoNegation(i1, i1 + 1, xs, Build(c, s2, xs[i2..i2 + Tips(s2)]))
    decreases Sum(xs), 0
  {
    hide Dups2, Dups2Inner, Dups2Self, NegationIn;
    if !(s2.Tip? && i1 == i2) && IsConn(xs[i1]) {
      SumUpdate(xs, i1, xs[i1]);
      Dups2SelfSettled(xs[i1]);
      assert xs[i1 := xs[i1]] == xs;
    }
  }

  lemma {:induction false} Dups2SelfSettled(e: Expr)
    requires IsConn(e) && Dups2Self(e).1 == 0
    ensures Dups2Self(e).0 == e
    ensures var xs := Operands(ConnOf(e), e); NoNegation(0, |xs|, xs, e)
    decreases Weight(e), 0
  {
    hide Dups2, Dups2Inner, Dups2Tip, DropSlot, NegationIn, NoNegation, Build, Sum, Operands;
    var c := ConnOf(e);
    var s := SpineOf(c, e);
    var xs := Operands(c, e);
    BuildOperands(c, e);
    WeightBuild(c, s, xs);
    TipsPositive(s.l);
    TipsPositive(s.r);
    Dups2Settled(c, s, 0, s, 0, xs);
    assert xs[0..Tips(s)] == xs;
  }

  // Within one AND or OR no two operands join, no operand contradicts the
  // whole, and the same holds inside the operands.
  ghost predicate Irredundant(e: Expr)
    decreases Weight(e)
  {
    IsConn(e) ==>
      var c := ConnOf(e);
      var xs := Operands(c, e);
      && (forall i, j | 0 <= i < |xs| && 0 <= j < |xs| && i != j :: Join(c, xs[i], xs[j]).None?)
      && (forall i | 0 <= i < |xs| && IsConn(xs[i]) :: !NegationIn(xs[i], e))
      && (forall i | 0 <= i < |xs| && Weight(xs[i]) < Weight(e) :: Irredundant(xs[i]))
  }

  lemma {:induction false} QuietIsIrredundant(e: Expr)
    requires Pass(e).1 == 0
    ensures Pass(e).0 == e && Irredundant(e)
    decreases Weight(e)
  {
    hide Dups1, Dups2, NegationIn;
    if IsConn(e) {
      var c := ConnOf(e);
      var xs := Operands(c, e);
      TipsPositive(SpineOf(c, e).l);
      TipsPositive(SpineOf(c, e).r);
      Dups1SelfSettled(e);
      Dups2SelfSettled(e);
      forall i | 0 <= i < |xs| && Weight(xs[i]) < Weight(e) ensures Irredundant(xs[i]) {
        if IsConn(xs[i]) {
          assert Join(c, xs[i], xs[if i == 0 then 1 else 0]).None?;
          Dups1SelfSettled(xs[i]);
        }
        QuietIsIrredundant(xs[i]);
      }
    }
  }

  // On exit nothing is left for either pass to do, so a second run changes nothing.
  lemma {:induction false} EliminateDupsIrredundant(e: Expr)
    ensures Irredundant(EliminateDups(e))
    ensures EliminateDups(EliminateDups(e)) == EliminateDups(e)
    decreases Weight(e)
  {
    var (a, n) := Pass(e);
    PassShrinks(e);
    if n == 0 {
      QuietIsIrredundant(e);
    } else {
      EliminateDupsIrredundant(EliminateYN(a));
    }
  }
}
