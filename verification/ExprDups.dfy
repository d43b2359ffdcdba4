// Removing duplicate and contradictory operands: expr_eliminate_dups1,
// expr_eliminate_dups2 and expr_eliminate_dups (pdk/config/expr.c).
//
// Both passes are started with the same slot for both arguments, so every
// rewrite of an operand is seen at once through either of them. An AND or OR
// tree is therefore split into its spine, the nodes of one connective, which
// no pass changes, and the sequence of its operand slots, which the passes
// update. A slot argument is a sub-spine and the index of its first slot.
module ExprDups {
  import opened KconfigExpr
  import opened ExprTransform
  import opened ExprEq
  import opened ExprJoin

  datatype Spine = Tip | Fork(l: Spine, r: Spine)

  function Tips(s: Spine): nat {
    match s case Tip => 1 case Fork(l, r) => Tips(l) + Tips(r)
  }

  function SpineOf(c: Conn, e: Expr): Spine {
    if c.Heads(e) then Fork(SpineOf(c, e.l), SpineOf(c, e.r)) else Tip
  }

  function Operands(c: Conn, e: Expr): (xs: seq<Expr>)
    ensures |xs| == Tips(SpineOf(c, e)) && NoHeads(c, xs)
  {
    if c.Heads(e) then Operands(c, e.l) + Operands(c, e.r) else [e]
  }

  predicate NoHeads(c: Conn, xs: seq<Expr>) {
    forall k | 0 <= k < |xs| :: !c.Heads(xs[k])
  }

  function Build(c: Conn, s: Spine, xs: seq<Expr>): Expr
    requires |xs| == Tips(s)
  {
    match s
    case Tip => xs[0]
    case Fork(l, r) => c.Make(Build(c, l, xs[..Tips(l)]), Build(c, r, xs[Tips(l)..]))
  }

  // Splitting and building are inverse to each other.
  lemma {:induction false} BuildOperands(c: Conn, e: Expr)
    ensures Build(c, SpineOf(c, e), Operands(c, e)) == e
  {
    if c.Heads(e) {
      var xs, ys := Operands(c, e.l), Operands(c, e.r);
      assert (xs + ys)[..|xs|] == xs && (xs + ys)[|xs|..] == ys;
      BuildOperands(c, e.l);
      BuildOperands(c, e.r);
    }
  }

  lemma {:induction false} OperandsBuild(c: Conn, s: Spine, xs: seq<Expr>)
    requires |xs| == Tips(s) && NoHeads(c, xs)
    ensures SpineOf(c, Build(c, s, xs)) == s && Operands(c, Build(c, s, xs)) == xs
  {
    match s
    case Tip =>
    case Fork(l, r) =>
      OperandsBuild(c, l, xs[..Tips(l)]);
      OperandsBuild(c, r, xs[Tips(l)..]);
      assert xs[..Tips(l)] + xs[Tips(l)..] == xs;
  }

  // ---------- weights of operand sequences ----------

  function Sum(xs: seq<Expr>): nat {
    if xs == [] then 0 else Weight(xs[0]) + Sum(xs[1..])
  }

  lemma {:induction false} SumAppend(xs: seq<Expr>, ys: seq<Expr>)
    ensures Sum(xs + ys) == Sum(xs) + Sum(ys)
  {
    if xs == [] {
      assert xs + ys == ys;
    } else {
      assert (xs + ys)[1..] == xs[1..] + ys;
      SumAppend(xs[1..], ys);
    }
  }

  lemma {:induction false} SumUpdate(xs: seq<Expr>, i: nat, a: Expr)
    requires i < |xs|
    ensures Sum(xs[i := a]) == Sum(xs) - Weight(xs[i]) + Weight(a)
    ensures Weight(xs[i]) + |xs| - 1 <= Sum(xs)
    decreases i
  {
    if i > 0 {
      assert xs[i := a][1..] == xs[1..][i - 1 := a];
      SumUpdate(xs[1..], i - 1, a);
    } else {
      assert xs[i := a][1..] == xs[1..];
      SumAtLeast(xs[1..]);
    }
  }

  lemma {:induction false} SumAtLeast(xs: seq<Expr>)
    ensures |xs| <= Sum(xs)
  {
    if xs != [] { SumAtLeast(xs[1..]); }
  }

  lemma {:induction false} WeightBuild(c: Conn, s: Spine, xs: seq<Expr>)
    requires |xs| == Tips(s)
    ensures Weight(Build(c, s, xs)) == Sum(xs) + Tips(s) - 1
  {
    match s
    case Tip => assert xs[1..] == [];
    case Fork(l, r) =>
      WeightBuild(c, l, xs[..Tips(l)]);
      WeightBuild(c, r, xs[Tips(l)..]);
      SumAppend(xs[..Tips(l)], xs[Tips(l)..]);
      assert xs[..Tips(l)] + xs[Tips(l)..] == xs;
  }

  // ---------- expr_eliminate_dups1 ----------

  // One pair of operand slots: the first operand is simplified on its own, then
  // joined into the second if a rule applies, leaving the unit behind.
  function JoinSlots(c: Conn, i1: nat, i2: nat, a: Expr, xs: seq<Expr>): (r: (seq<Expr>, nat))
    requires i1 < |xs| && i2 < |xs| && i1 != i2
    requires NoHeads(c, xs) && !c.Heads(a) && Weight(a) <= Weight(xs[i1])
    ensures |r.0| == |xs| && NoHeads(c, r.0) && Sum(r.0) <= Sum(xs)
  {
    SumUpdate(xs, i1, a);
    var ys := xs[i1 := a];
    match Join(c, a, ys[i2])
    case None => (ys, 0)
    case Some(t) =>
      JoinWeight(c, a, ys[i2]);
      SumUpdate(ys, i1, c.UnitExpr());
      SumUpdate(ys[i1 := c.UnitExpr()], i2, t);
      (ys[i1 := c.UnitExpr()][i2 := t], 1)
  }

  function Dups1(c: Conn, s1: Spine, i1: nat, s2: Spine, i2: nat, xs: seq<Expr>): (r: (seq<Expr>, nat))
    requires i1 + Tips(s1) <= |xs| && i2 + Tips(s2) <= |xs|
    requires NoHeads(c, xs)
    ensures |r.0| == |xs| && NoHeads(c, r.0) && Sum(r.0) <= Sum(xs)
    decreases Sum(xs), 1, s1, s2
  {
    if s1.Fork? then
      var (ys, m) := Dups1(c, s1.l, i1, s2, i2, xs);
      var (zs, n) := Dups1(c, s1.r, i1 + Tips(s1.l), s2, i2, ys);
      (zs, m + n)
    else if s2.Fork? then
      var (ys, m) := Dups1(c, s1, i1, s2.l, i2, xs);
      var (zs, n) := Dups1(c, s1, i1, s2.r, i2 + Tips(s2.l), ys);
      (zs, m + n)
    else
      Dups1Tip(c, i1, i2, xs)
  }

  // One operand against another one.
  function Dups1Tip(c: Conn, i1: nat, i2: nat, xs: seq<Expr>): (r: (seq<Expr>, nat))
    requires i1 < |xs| && i2 < |xs| && NoHeads(c, xs)
    ensures |r.0| == |xs| && NoHeads(c, r.0) && Sum(r.0) <= Sum(xs)
    decreases Sum(xs), 0
  {
    if i1 == i2 then
      (xs, 0)
    else
      SumUpdate(xs, i1, xs[i1]);
      var (a, m) := if IsConn(xs[i1]) then Dups1Self(xs[i1]) else (xs[i1], 0);
      var (ys, n) := JoinSlots(c, i1, i2, a, xs);
      (ys, m + n)
  }

  // The pass over one whole tree, with both slot arguments at its root.
  function Dups1Self(e: Expr): (r: (Expr, nat))
    requires IsConn(e)
    ensures ConnOf(e).Heads(r.0) && SpineOf(ConnOf(e), r.0) == SpineOf(ConnOf(e), e)
    ensures Weight(r.0) <= Weight(e)
    decreases Weight(e), 0
  {
    var c := ConnOf(e);
    var s := SpineOf(c, e);
    BuildOperands(c, e);
    WeightBuild(c, s, Operands(c, e));
    TipsPositive(s.l);
    TipsPositive(s.r);
    var (xs, n) := Dups1(c, s, 0, s, 0, Operands(c, e));
    OperandsBuild(c, s, xs);
    WeightBuild(c, s, xs);
    (Build(c, s, xs), n)
  }

  // ---------- expr_eliminate_dups2 ----------

  // The negation of a (an operand of the other connective than c) is part of e.
  predicate NegationIn(a: Expr, e: Expr)
    requires IsConn(a)
  {
    var d := ConnOf(a).Dual();
    Extract(d, Transform(ENot(a)), e).1 == d.UnitExpr()
  }

  function DropSlot(c: Conn, i1: nat, s2: Spine, i2: nat, a: Expr, xs: seq<Expr>): (r: (seq<Expr>, nat))
    requires i1 < |xs| && i2 + Tips(s2) <= |xs|
    requires NoHeads(c, xs) && !c.Heads(a) && IsConn(a) && Weight(a) <= Weight(xs[i1])
    ensures |r.0| == |xs| && NoHeads(c, r.0) && Sum(r.0) <= Sum(xs)
  {
    var ys := xs[i1 := a];
    SumUpdate(xs, i1, a);
    SumUpdate(ys, i1, ConnOf(a).UnitExpr());
    if NegationIn(a, Build(c, s2, ys[i2..i2 + Tips(s2)])) then (ys[i1 := ConnOf(a).UnitExpr()], 1)
    else (ys, 0)
  }

  // Unlike the first pass, an inner node of the second spine is itself looked
  // at after both of its sub-spines.
  function Dups2(c: Conn, s1: Spine, i1: nat, s2: Spine, i2: nat, xs: seq<Expr>): (r: (seq<Expr>, nat))
    requires i1 + Tips(s1) <= |xs| && i2 + Tips(s2) <= |xs|
    requires NoHeads(c, xs) && |xs| >= 2
    ensures |r.0| == |xs| && NoHeads(c, r.0) && Sum(r.0) <= Sum(xs)
    decreases Sum(xs), 1, s1, s2
  {
    if s1.Fork? then
      var (ys, m) := Dups2(c, s1.l, i1, s2, i2, xs);
      var (zs, n) := Dups2(c, s1.r, i1 + Tips(s1.l), s2, i2, ys);
      (zs, m + n)
    else
      var (ys, m) := Dups2Inner(c, s1, i1, s2, i2, xs);
      var (zs, n) := Dups2Tip(c, i1, s2, i2, ys);
      (zs, m + n)
  }

  function Dups2Inner(c: Conn, s1: Spine, i1: nat, s2: Spine, i2: nat, xs: seq<Expr>): (r: (seq<Expr>, nat))
    requires s1.Tip? && i1 < |xs| && i2 + Tips(s2) <= |xs|
    requires NoHeads(c, xs) && |xs| >= 2
    ensures |r.0| == |xs| && NoHeads(c, r.0) && Sum(r.0) <= Sum(xs)
    decreases Sum(xs), 1, s1, s2, 0
  {
    if s2.Fork? then
      var (us, p) := Dups2(c, s1, i1, s2.l, i2, xs);
      var (vs, q) := Dups2(c, s1, i1, s2.r, i2 + Tips(s2.l), us);
      (vs, p + q)
    else (xs, 0)
  }

  // One operand against one node of the second spine.
  function Dups2Tip(c: Conn, i1: nat, s2: Spine, i2: nat, ys: seq<Expr>): (r: (seq<Expr>, nat))
    requires i1 < |ys| && i2 + Tips(s2) <= |ys|
    requires NoHeads(c, ys) && |ys| >= 2
    ensures |r.0| == |ys| && NoHeads(c, r.0) && Sum(r.0) <= Sum(ys)
    decreases Sum(ys), 0
  {
    if s2.Tip? && i1 == i2 then
      (ys, 0)
    else if IsConn(ys[i1]) then
      SumUpdate(ys, i1, ys[i1]);
      var (a, p) := Dups2Self(ys[i1]);
      var (zs, q) := DropSlot(c, i1, s2, i2, a, ys);
      (zs, p + q)
    else
      (ys, 0)
  }

  function Dups2Self(e: Expr): (r: (Expr, nat))
    requires IsConn(e)
    ensures ConnOf(e).Heads(r.0) && SpineOf(ConnOf(e), r.0) == SpineOf(ConnOf(e), e)
    ensures Weight(r.0) <= Weight(e)
    decreases Weight(e), 0
  {
    var c := ConnOf(e);
    var s := SpineOf(c, e);
    BuildOperands(c, e);
    WeightBuild(c, s, Operands(c, e));
    TipsPositive(s.l);
    TipsPositive(s.r);
    var (xs, n) := Dups2(c, s, 0, s, 0, Operands(c, e));
    OperandsBuild(c, s, xs);
    WeightBuild(c, s, xs);
    (Build(c, s, xs), n)
  }

  lemma TipsPositive(s: Spine)
    ensures Tips(s) >= 1
  {
  }

  // The passes, one step each.
  lemma Dups1Steps(c: Conn, s1: Spine, i1: nat, s2: Spine, i2: nat, xs: seq<Expr>)
    requires i1 + Tips(s1) <= |xs| && i2 + Tips(s2) <= |xs| && NoHeads(c, xs)
    ensures s1.Fork? ==>
      var (ys, m) := Dups1(c, s1.l, i1, s2, i2, xs);
      var (zs, n) := Dups1(c, s1.r, i1 + Tips(s1.l), s2, i2, ys);
      Dups1(c, s1, i1, s2, i2, xs) == (zs, m + n)
    ensures s1.Tip? && s2.Fork? ==>
      var (ys, m) := Dups1(c, s1, i1, s2.l, i2, xs);
      var (zs, n) := Dups1(c, s1, i1, s2.r, i2 + Tips(s2.l), ys);
      Dups1(c, s1, i1, s2, i2, xs) == (zs, m + n)
    ensures s1.Tip? && s2.Tip? ==> Dups1(c, s1, i1, s2, i2, xs) == Dups1Tip(c, i1, i2, xs)
  {
    hide Dups1Tip;
  }

  lemma Dups2Steps(c: Conn, s1: Spine, i1: nat, s2: Spine, i2: nat, xs: seq<Expr>)
    requires i1 + Tips(s1) <= |xs| && i2 + Tips(s2) <= |xs| && NoHeads(c, xs) && |xs| >= 2
    ensures s1.Fork? ==>
      var (ys, m) := Dups2(c, s1.l, i1, s2, i2, xs);
      var (zs, n) := Dups2(c, s1.r, i1 + Tips(s1.l), s2, i2, ys);
      Dups2(c, s1, i1, s2, i2, xs) == (zs, m + n)
    ensures s1.Tip? ==>
      var (ys, m) := Dups2Inner(c, s1, i1, s2, i2, xs);
      var (zs, n) := Dups2Tip(c, i1, s2, i2, ys);
      Dups2(c, s1, i1, s2, i2, xs) == (zs, m + n)
  {
    hide Dups2Tip, Dups2Inner;
  }

  lemma Dups2InnerSteps(c: Conn, s1: Spine, i1: nat, s2: Spine, i2: nat, xs: seq<Expr>)
    requires s1.Tip? && i1 < |xs| && i2 + Tips(s2) <= |xs| && NoHeads(c, xs) && |xs| >= 2
    ensures s2.Fork? ==>
      var (us, p) := Dups2(c, s1, i1, s2.l, i2, xs);
      var (vs, q) := Dups2(c, s1, i1, s2.r, i2 + Tips(s2.l), us);
      Dups2Inner(c, s1, i1, s2, i2, xs) == (vs, p + q)
    ensures s2.Tip? ==> Dups2Inner(c, s1, i1, s2, i2, xs) == (xs, 0)
  {
    hide Dups2;
  }

  // ---------- meaning ----------

  function Fold(c: Conn, xs: seq<Expr>, env: Env): tristate {
    if xs == [] then c.Unit() else c.Op(Eval(xs[0], env), Fold(c, xs[1..], env))
  }

  lemma {:induction false} FoldAppend(c: Conn, xs: seq<Expr>, ys: seq<Expr>, env: Env)
    ensures Fold(c, xs + ys, env) == c.Op(Fold(c, xs, env), Fold(c, ys, env))
  {
    if xs == [] {
      assert xs + ys == ys;
    } else {
      assert (xs + ys)[1..] == xs[1..] + ys;
      FoldAppend(c, xs[1..], ys, env);
    }
  }

  lemma {:induction false} EvalBuild(c: Conn, s: Spine, xs: seq<Expr>, env: Env)
    requires |xs| == Tips(s)
    ensures Eval(Build(c, s, xs), env) == Fold(c, xs, env)
  {
    match s
    case Tip => assert xs[1..] == [];
    case Fork(l, r) =>
      var ls, rs := xs[..Tips(l)], xs[Tips(l)..];
      EvalBuild(c, l, ls, env);
      EvalBuild(c, r, rs, env);
      FoldAppend(c, ls, rs, env);
      assert ls + rs == xs;
      EvalMake(c, Build(c, l, ls), Build(c, r, rs), env);
      assert Build(c, s, xs) == c.Make(Build(c, l, ls), Build(c, r, rs));
  }

  // All operands but the i-th contribute a value that does not depend on it.
  lemma {:induction false} FoldAt(c: Conn, xs: seq<Expr>, i: nat, env: Env) returns (rest: tristate)
    requires i < |xs|
    ensures forall a {:trigger xs[i := a]} :: Fold(c, xs[i := a], env) == c.Op(Eval(a, env), rest)
    ensures Fold(c, xs, env) == c.Op(Eval(xs[i], env), rest)
    decreases i
  {
    if i == 0 {
      rest := Fold(c, xs[1..], env);
      forall a ensures Fold(c, xs[i := a], env) == c.Op(Eval(a, env), rest) {
        assert xs[i := a][1..] == xs[1..];
      }
    } else {
      var k := FoldAt(c, xs[1..], i - 1, env);
      rest := c.Op(Eval(xs[0], env), k);
      forall a ensures Fold(c, xs[i := a], env) == c.Op(Eval(a, env), rest) {
        assert xs[i := a][1..] == xs[1..][i - 1 := a];
      }
    }
  }

  // Two operands may be exchanged for two others that join to the same value.
  lemma {:induction false} FoldTwo(c: Conn, xs: seq<Expr>, i: nat, j: nat, a: Expr, b: Expr, env: Env)
    requires i < |xs| && j < |xs| && i != j
    requires c.Op(Eval(a, env), Eval(b, env)) == c.Op(Eval(xs[i], env), Eval(xs[j], env))
    ensures Fold(c, xs[i := a][j := b], env) == Fold(c, xs, env)
    decreases |xs|, if i < j then 0 else 1
  {
    var ys := xs[i := a][j := b];
    if j < i {
      assert ys == xs[j := b][i := a];
      OpLaws(c, Eval(a, env), Eval(b, env), NO, NO);
      OpLaws(c, Eval(xs[i], env), Eval(xs[j], env), NO, NO);
      FoldTwo(c, xs, j, i, b, a, env);
    } else if i == 0 {
      assert ys[1..] == xs[1..][j - 1 := b];
      var k := FoldAt(c, xs[1..], j - 1, env);
      OpLaws(c, Eval(a, env), Eval(b, env), k, NO);
      OpLaws(c, Eval(xs[0], env), Eval(xs[j], env), k, NO);
    } else {
      assert ys[1..] == xs[1..][i - 1 := a][j - 1 := b];
      FoldTwo(c, xs[1..], i - 1, j - 1, a, b, env);
    }
  }

  // The first pass is exact on all three values.
  lemma {:induction false} Dups1Exact(c: Conn, s1: Spine, i1: nat, s2: Spine, i2: nat, xs: seq<Expr>, env: Env)
    requires i1 + Tips(s1) <= |xs| && i2 + Tips(s2) <= |xs|
    requires NoHeads(c, xs) && ValidEnv(env)
    ensures Fold(c, Dups1(c, s1, i1, s2, i2, xs).0, env) == Fold(c, xs, env)
    decreases Sum(xs), 1, s1, s2
  {
    hide Dups1, Dups1Tip, Dups1Self, JoinSlots, Join, Fold;
    Dups1Steps(c, s1, i1, s2, i2, xs);
    if s1.Fork? {
      var (ys, m) := Dups1(c, s1.l, i1, s2, i2, xs);
      var (zs, n) := Dups1(c, s1.r, i1 + Tips(s1.l), s2, i2, ys);
      Dups1Exact(c, s1.l, i1, s2, i2, xs, env);
      Dups1Exact(c, s1.r, i1 + Tips(s1.l), s2, i2, ys, env);
    } else if s2.Fork? {
      var (ys, m) := Dups1(c, s1, i1, s2.l, i2, xs);
      var (zs, n) := Dups1(c, s1, i1, s2.r, i2 + Tips(s2.l), ys);
      Dups1Exact(c, s1, i1, s2.l, i2, xs, env);
      Dups1Exact(c, s1, i1, s2.r, i2 + Tips(s2.l), ys, env);
    } else {
      Dups1TipExact(c, i1, i2, xs, env);
    }
  }

  lemma {:induction false} Dups1TipExact(c: Conn, i1: nat, i2: nat, xs: seq<Expr>, env: Env)
    requires i1 < |xs| && i2 < |xs| && NoHeads(c, xs) && ValidEnv(env)
    ensures Fold(c, Dups1Tip(c, i1, i2, xs).0, env) == Fold(c, xs, env)
    decreases Sum(xs), 0
  {
    hide Dups1, Dups1Self, JoinSlots, Join, Fold;
    if i1 != i2 {
      SumUpdate(xs, i1, xs[i1]);
      var a := xs[i1];
      if IsConn(xs[i1]) {
        Dups1SelfExact(xs[i1], env);
        a := Dups1Self(xs[i1]).0;
      }
      JoinSlotsExact(c, i1, i2, a, xs, env);
    }
  }

  lemma JoinSlotsExact(c: Conn, i1: nat, i2: nat, a: Expr, xs: seq<Expr>, env: Env)
    requires i1 < |xs| && i2 < |xs| && i1 != i2
    requires NoHeads(c, xs) && !c.Heads(a) && Weight(a) <= Weight(xs[i1])
    requires ValidEnv(env) && Eval(a, env) == Eval(xs[i1], env)
    ensures Fold(c, JoinSlots(c, i1, i2, a, xs).0, env) == Fold(c, xs, env)
  {
    var b := xs[i2];
    var j := Join(c, a, b);
    if j.None? {
      var k := FoldAt(c, xs, i1, env);
    } else {
      JoinExact(c, a, b, env);
      assert SymbolOk(env, SymYes) && SymbolOk(env, SymNo);
      var u := c.UnitExpr();
      OpLaws(c, Eval(j.value, env), c.Unit(), NO, NO);
      assert xs[i1 := a][i1 := u][i2 := j.value] == xs[i1 := u][i2 := j.value];
      FoldTwo(c, xs, i1, i2, u, j.value, env);
    }
  }

  lemma {:induction false} Dups1SelfExact(e: Expr, env: Env)
    requires IsConn(e) && ValidEnv(env)
    ensures Eval(Dups1Self(e).0, env) == Eval(e, env)
    decreases Weight(e), 0
  {
    var c := ConnOf(e);
    var s := SpineOf(c, e);
    var xs := Operands(c, e);
    BuildOperands(c, e);
    WeightBuild(c, s, xs);
    TipsPositive(s.l);
    TipsPositive(s.r);
    Dups1Exact(c, s, 0, s, 0, xs, env);
    EvalBuild(c, s, xs, env);
    EvalBuild(c, s, Dups1(c, s, 0, s, 0, xs).0, env);
  }

  // ---------- the second pass ----------

  lemma FoldSharpens(c: Conn, xs: seq<Expr>, i: nat, a: Expr, env: Env)
    requires i < |xs| && Sharpens(Eval(xs[i], env), Eval(a, env))
    ensures Sharpens(Fold(c, xs, env), Fold(c, xs[i := a], env))
  {
    var k := FoldAt(c, xs, i, env);
  }

  // A run of operands absorbs into the whole.
  lemma FoldAbsorbs(c: Conn, xs: seq<Expr>, lo: nat, hi: nat, env: Env)
    requires lo <= hi <= |xs|
    ensures c.Op(Fold(c, xs, env), Fold(c, xs[lo..hi], env)) == Fold(c, xs, env)
  {
    assert xs == xs[..lo] + xs[lo..] && xs[lo..] == xs[lo..hi] + xs[hi..];
    FoldAppend(c, xs[..lo], xs[lo..], env);
    FoldAppend(c, xs[lo..hi], xs[hi..], env);
  }

  // If the negation of a is part of e, then e already decides the value of a.
  lemma NegationInMeans(a: Expr, e: Expr, env: Env)
    requires IsConn(a) && NegationIn(a, e) && ValidEnv(env)
    ensures var d := ConnOf(a).Dual(); d.Op(Eval(e, env), Not(Eval(a, env))) == Eval(e, env)
  {
    var d := ConnOf(a).Dual();
    var t := Transform(ENot(a));
    assert SymbolOk(env, SymYes) && SymbolOk(env, SymNo);
    TransformExact(ENot(a), env);
    ExtractExact(d, t, e, env);
    var (k, r1, r2) := Extract(d, t, e);
    var common := TakenValue(d, k, env);
    OpLaws(d, common, Eval(r2, env), common, d.Unit());
  }

  lemma DropSlotSharpens(c: Conn, i1: nat, s2: Spine, i2: nat, a: Expr, xs: seq<Expr>, env: Env)
    requires i1 < |xs| && i2 + Tips(s2) <= |xs|
    requires NoHeads(c, xs) && !c.Heads(a) && IsConn(a) && Weight(a) <= Weight(xs[i1])
    requires ValidEnv(env) && Sharpens(Eval(xs[i1], env), Eval(a, env))
    ensures Sharpens(Fold(c, xs, env), Fold(c, DropSlot(c, i1, s2, i2, a, xs).0, env))
  {
    hide NegationIn, Build;
    var ys := xs[i1 := a];
    FoldSharpens(c, xs, i1, a, env);
    if NegationIn(a, Build(c, s2, ys[i2..i2 + Tips(s2)])) {
      DroppedSharpens(c, i1, s2, i2, ys, env);
    }
  }

  lemma BuildAbsorbs(c: Conn, s2: Spine, i2: nat, ys: seq<Expr>, env: Env)
    requires i2 + Tips(s2) <= |ys|
    ensures c.Op(Fold(c, ys, env), Eval(Build(c, s2, ys[i2..i2 + Tips(s2)]), env)) == Fold(c, ys, env)
  {
    hide Build, Fold, Eval;
    EvalBuild(c, s2, ys[i2..i2 + Tips(s2)], env);
    FoldAbsorbs(c, ys, i2, i2 + Tips(s2), env);
  }

  // The slot becomes the symbol that decides it the way e does.
  lemma DroppedSharpens(c: Conn, i1: nat, s2: Spine, i2: nat, ys: seq<Expr>, env: Env)
    requires i1 < |ys| && i2 + Tips(s2) <= |ys|
    requires NoHeads(c, ys) && IsConn(ys[i1]) && ValidEnv(env)
    requires NegationIn(ys[i1], Build(c, s2, ys[i2..i2 + Tips(s2)]))
    ensures Sharpens(Fold(c, ys, env), Fold(c, ys[i1 := ConnOf(ys[i1]).UnitExpr()], env))
  {
    var a, e := ys[i1], Build(c, s2, ys[i2..i2 + Tips(s2)]);
    assert ConnOf(a).Dual() == c;
    assert SymbolOk(env, SymYes) && SymbolOk(env, SymNo);
    NegationInMeans(a, e, env);
    BuildAbsorbs(c, s2, i2, ys, env);
    var k := FoldAt(c, ys, i1, env);
    DropIsSharper(c, Fold(c, ys, env), Eval(a, env), Eval(e, env), k);
  }

  // A dropped operand leaves the whole at n in an AND and at y in an OR, which is
  // a change exactly where the whole was m.
  lemma DropChangesExactlyM(c: Conn, i1: nat, s2: Spine, i2: nat, a: Expr, xs: seq<Expr>, env: Env)
    requires i1 < |xs| && i2 + Tips(s2) <= |xs| && ValidEnv(env)
    requires NoHeads(c, xs) && !c.Heads(a) && IsConn(a) && Weight(a) <= Weight(xs[i1])
    requires DropSlot(c, i1, s2, i2, a, xs).1 > 0
    ensures var was, now := Fold(c, xs[i1 := a], env), Fold(c, DropSlot(c, i1, s2, i2, a, xs).0, env);
      now == c.Dual().Unit() && (now != was <==> was == MOD)
  {
    hide NegationIn, Build;
    var ys := xs[i1 := a];
    DroppedSharpens(c, i1, s2, i2, ys, env);
    assert SymbolOk(env, SymYes) && SymbolOk(env, SymNo);
    var k := FoldAt(c, ys, i1, env);
  }

  lemma DropIsSharper(c: Conn, whole: tristate, v: tristate, part: tristate, rest: tristate)
    requires whole == c.Op(v, rest) && c.Op(whole, part) == whole && c.Op(part, Not(v)) == part
    ensures Sharpens(whole, c.Op(c.Dual().Unit(), rest))
  {
  }

  // The second pass can only turn an m into n or y.
  lemma {:induction false} Dups2Sharpens(c: Conn, s1: Spine, i1: nat, s2: Spine, i2: nat, xs: seq<Expr>, env: Env)
    requires i1 + Tips(s1) <= |xs| && i2 + Tips(s2) <= |xs|
    requires NoHeads(c, xs) && |xs| >= 2 && ValidEnv(env)
    ensures Sharpens(Fold(c, xs, env), Fold(c, Dups2(c, s1, i1, s2, i2, xs).0, env))
    decreases Sum(xs), 1, s1, s2
  {
    hide Dups2, Dups2Inner, Dups2Tip, Dups2Self, DropSlot, NegationIn, Fold;
    Dups2Steps(c, s1, i1, s2, i2, xs);
    if s1.Tip? { Dups2InnerSteps(c, s1, i1, s2, i2, xs); }
    if s1.Fork? {
      var (ys, m) := Dups2(c, s1.l, i1, s2, i2, xs);
      var (zs, n) := Dups2(c, s1.r, i1 + Tips(s1.l), s2, i2, ys);
      Dups2Sharpens(c, s1.l, i1, s2, i2, xs, env);
      Dups2Sharpens(c, s1.r, i1 + Tips(s1.l), s2, i2, ys, env);
    } else {
      var ys := Dups2Inner(c, s1, i1, s2, i2, xs).0;
      if s2.Fork? {
        var (us, m) := Dups2(c, s1, i1, s2.l, i2, xs);
        Dups2Sharpens(c, s1, i1, s2.l, i2, xs, env);
        Dups2Sharpens(c, s1, i1, s2.r, i2 + Tips(s2.l), us, env);
      }
      assert Sharpens(Fold(c, xs, env), Fold(c, ys, env));
      Dups2TipSharpens(c, i1, s2, i2, ys, env);
    }
  }

  lemma {:induction false} Dups2TipSharpens(c: Conn, i1: nat, s2: Spine, i2: nat, ys: seq<Expr>, env: Env)
    requires i1 < |ys| && i2 + Tips(s2) <= |ys|
    requires NoHeads(c, ys) && |ys| >= 2 && ValidEnv(env)
    ensures Sharpens(Fold(c, ys, env), Fold(c, Dups2Tip(c, i1, s2, i2, ys).0, env))
    decreases Sum(ys), 0
  {
    hide Dups2, Dups2Inner, Dups2Self, DropSlot, NegationIn, Fold;
    if !(s2.Tip? && i1 == i2) && IsConn(ys[i1]) {
      SumUpdate(ys, i1, ys[i1]);
      Dups2SelfSharpens(ys[i1], env);
      DropSlotSharpens(c, i1, s2, i2, Dups2Self(ys[i1]).0, ys, env);
    }
  }

  lemma {:induction false} Dups2SelfSharpens(e: Expr, env: Env)
    requires IsConn(e) && ValidEnv(env)
    ensures Sharpens(Eval(e, env), Eval(Dups2Self(e).0, env))
    decreases Weight(e), 0
  {
    var c := ConnOf(e);
    var s := SpineOf(c, e);
    var xs := Operands(c, e);
    BuildOperands(c, e);
    WeightBuild(c, s, xs);
    TipsPositive(s.l);
    TipsPositive(s.r);
    Dups2Sharpens(c, s, 0, s, 0, xs, env);
    EvalBuild(c, s, xs, env);
    EvalBuild(c, s, Dups2(c, s, 0, s, 0, xs).0, env);
  }
}
