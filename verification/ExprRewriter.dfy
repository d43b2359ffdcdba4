// The rewriters that bump the global trans_count (pdk/config/expr.c), as
// methods over that counter. Operand slots of the dups passes are overwritten
// in place in an array which both slot arguments index.
module ExprRewriter {
  import opened KconfigExpr
  import opened ExprTransform
  import opened ExprEq
  import opened ExprJoin
  import opened ExprDups
  import opened ExprEliminate

  class Rewriter {
    var transCount: nat

    constructor ()
      ensures transCount == 0
    {
      transCount := 0;
    }

    method EliminateEqRec(c: Conn, e1: Expr, e2: Expr) returns (r1: Expr, r2: Expr)
      modifies this
      ensures var spec := ElimEqRec(c, e1, e2);
        r1 == spec.0 && r2 == spec.1 && transCount == old(transCount) + spec.2
      decreases Size(e1) + Size(e2), if c.Heads(e1) || c.Heads(e2) then 0 else 3
    {
      if c.Heads(e1) {
        var l, e2' := EliminateEqRec(c, e1.l, e2);
        var r, e2'' := EliminateEqRec(c, e1.r, e2');
        r1, r2 := c.Make(l, r), e2'';
        return;
      }
      if c.Heads(e2) {
        var e1', l := EliminateEqRec(c, e1, e2.l);
        var e1'', r := EliminateEqRec(c, e1', e2.r);
        r1, r2 := e1'', c.Make(l, r);
        return;
      }
      r1, r2 := EliminateEqLeaf(c, e1, e2);
    }

    method EliminateEqLeaf(c: Conn, e1: Expr, e2: Expr) returns (r1: Expr, r2: Expr)
      requires !c.Heads(e1) && !c.Heads(e2)
      modifies this
      ensures var spec := ElimEqRec(c, e1, e2);
        r1 == spec.0 && r2 == spec.1 && transCount == old(transCount) + spec.2
      decreases Size(e1) + Size(e2), 3, 0
    {
      if e1.ESymbol? && e2.ESymbol? && e1.sym == e2.sym && e1.sym.HasYesOrNoFlag() {
        return e1, e2;
      }
      var eq := ExprEqual(e1, e2);
      if !eq {
        return e1, e2;
      }
      transCount := transCount + 1;
      return c.UnitExpr(), c.UnitExpr();
    }

    method EliminateEq(e1: Expr, e2: Expr) returns (r1: Expr, r2: Expr)
      modifies this
      ensures var spec := ElimEq(e1, e2);
        r1 == spec.0 && r2 == spec.1 && transCount == old(transCount) + spec.2
      decreases Size(e1) + Size(e2), 1
    {
      r1, r2 := e1, e2;
      if IsConn(r1) {
        r1, r2 := EliminateEqRec(ConnOf(e1), r1, r2);
      }
      ghost var (a1, a2, m) := ElimEqFirst(e1, e2);
      assert r1 == a1 && r2 == a2 && transCount == old(transCount) + m;
      if !SameType(r1, r2) && IsConn(r2) {
        r1, r2 := EliminateEqRec(ConnOf(r2), r1, r2);
      }
      ghost var (b1, b2, n) := ElimEqSecond(a1, a2);
      assert r1 == b1 && r2 == b2 && transCount == old(transCount) + m + n;
      r1, r2 := EliminateYN(r1), EliminateYN(r2);
    }

    // expr_eq puts the counter back, whatever its trial elimination counted.
    method ExprEqual(e1: Expr, e2: Expr) returns (res: bool)
      modifies this
      ensures res == Equal(e1, e2)
      ensures transCount == old(transCount)
      decreases Size(e1) + Size(e2), 2
    {
      if !SameType(e1, e2) {
        return false;
      }
      match e1
      case ESymbol(s) => return s == e2.sym;
      case EEqual(s, t) => return s == e2.sl && t == e2.sr;
      case EUnequal(s, t) => return s == e2.sl && t == e2.sr;
      case ENot(x) => res := ExprEqual(x, e2.e);
      case _ =>
        var oldCount := transCount;
        var r1, r2 := EliminateEq(e1, e2);
        res := r1.ESymbol? && r2.ESymbol? && r1.sym == r2.sym;
        transCount := oldCount;
    }

    method EliminateDups1(c: Conn, s1: Spine, i1: nat, s2: Spine, i2: nat, slots: array<Expr>)
      requires i1 + Tips(s1) <= slots.Length && i2 + Tips(s2) <= slots.Length
      requires NoHeads(c, slots[..])
      modifies this, slots
      ensures var spec := Dups1(c, s1, i1, s2, i2, old(slots[..]));
        slots[..] == spec.0 && transCount == old(transCount) + spec.1
      decreases Sum(slots[..]), 1, s1, s2
    {
      if s1.Fork? {
        EliminateDups1(c, s1.l, i1, s2, i2, slots);
        EliminateDups1(c, s1.r, i1 + Tips(s1.l), s2, i2, slots);
      } else if s2.Fork? {
        EliminateDups1(c, s1, i1, s2.l, i2, slots);
        EliminateDups1(c, s1, i1, s2.r, i2 + Tips(s2.l), slots);
      } else {
        EliminateDups1Tip(c, i1, i2, slots);
      }
    }

    method EliminateDups1Tip(c: Conn, i1: nat, i2: nat, slots: array<Expr>)
      requires i1 < slots.Length && i2 < slots.Length
      requires NoHeads(c, slots[..])
      modifies this, slots
      ensures var spec := Dups1Tip(c, i1, i2, old(slots[..]));
        slots[..] == spec.0 && transCount == old(transCount) + spec.1
      decreases Sum(slots[..]), 0
    {
      if i1 == i2 {
        return;
      }
      ghost var was := slots[..];
      SumUpdate(was, i1, was[i1]);
      var a := slots[i1];
      if IsConn(a) {
        a := EliminateDups1Self(a);
      }
      slots[i1] := a;
      assert slots[..] == was[i1 := a];
      var tmp := Join(c, a, slots[i2]);
      if tmp.Some? {
        slots[i1] := c.UnitExpr();
        slots[i2] := tmp.value;
        transCount := transCount + 1;
        assert slots[..] == was[i1 := a][i1 := c.UnitExpr()][i2 := tmp.value];
      }
    }

    method EliminateDups1Self(e: Expr) returns (r: Expr)
      requires IsConn(e)
      modifies this
      ensures (r, transCount - old(transCount)) == Dups1Self(e)
      decreases Weight(e), 0
    {
      hide NegationIn, Join;
      var c := ConnOf(e);
      var s := SpineOf(c, e);
      var xs := Operands(c, e);
      OperandsSmaller(e, c, s, xs);
      ghost var (ys, n) := Dups1(c, s, 0, s, 0, xs);
      Dups1SelfIs(e, c, s, xs, ys, n);
      var slots := Slots(xs);
      EliminateDups1(c, s, 0, s, 0, slots);
      assert slots[..] == ys && transCount == old(transCount) + n;
      r := Build(c, s, slots[..]);
    }

    method EliminateDups2(c: Conn, s1: Spine, i1: nat, s2: Spine, i2: nat, slots: array<Expr>)
      requires i1 + Tips(s1) <= slots.Length && i2 + Tips(s2) <= slots.Length
      requires NoHeads(c, slots[..]) && slots.Length >= 2
      modifies this, slots
      ensures var spec := Dups2(c, s1, i1, s2, i2, old(slots[..]));
        slots[..] == spec.0 && transCount == old(transCount) + spec.1
      decreases Sum(slots[..]), 1, s1, s2
    {
      if s1.Fork? {
        EliminateDups2(c, s1.l, i1, s2, i2, slots);
        EliminateDups2(c, s1.r, i1 + Tips(s1.l), s2, i2, slots);
      } else {
        ghost var (ys, m) := Dups2Inner(c, s1, i1, s2, i2, slots[..]);
        if s2.Fork? {
          EliminateDups2(c, s1, i1, s2.l, i2, slots);
          EliminateDups2(c, s1, i1, s2.r, i2 + Tips(s2.l), slots);
        }
        assert slots[..] == ys && transCount == old(transCount) + m;
        EliminateDups2Tip(c, i1, s2, i2, slots);
      }
    }

    method EliminateDups2Tip(c: Conn, i1: nat, s2: Spine, i2: nat, slots: array<Expr>)
      requires i1 < slots.Length && i2 + Tips(s2) <= slots.Length
      requires NoHeads(c, slots[..]) && slots.Length >= 2
      modifies this, slots
      ensures var spec := Dups2Tip(c, i1, s2, i2, old(slots[..]));
        slots[..] == spec.0 && transCount == old(transCount) + spec.1
      decreases Sum(slots[..]), 0
    {
      hide NegationIn, Join;
      if (s2.Tip? && i1 == i2) || !IsConn(slots[i1]) {
        return;
      }
      ghost var was := slots[..];
      ghost var (a', p) := Dups2Self(was[i1]);
      ghost var (zs, q) := DropSlot(c, i1, s2, i2, a', was);
      assert Dups2Tip(c, i1, s2, i2, was) == (zs, p + q);
      SumUpdate(was, i1, was[i1]);
      var a := EliminateDups2Self(slots[i1]);
      slots[i1] := a;
      assert slots[..] == was[i1 := a];
      if NegationIn(a, Build(c, s2, slots[..][i2..i2 + Tips(s2)])) {
        slots[i1] := ConnOf(a).UnitExpr();
        transCount := transCount + 1;
        assert slots[..] == was[i1 := a][i1 := ConnOf(a).UnitExpr()];
      }
    }

    method EliminateDups2Self(e: Expr) returns (r: Expr)
      requires IsConn(e)
      modifies this
      ensures (r, transCount - old(transCount)) == Dups2Self(e)
      decreases Weight(e), 0
    {
      hide NegationIn, Join;
      var c := ConnOf(e);
      var s := SpineOf(c, e);
      var xs := Operands(c, e);
      OperandsSmaller(e, c, s, xs);
      ghost var (ys, n) := Dups2(c, s, 0, s, 0, xs);
      Dups2SelfIs(e, c, s, xs, ys, n);
      var slots := Slots(xs);
      EliminateDups2(c, s, 0, s, 0, slots);
      assert slots[..] == ys && transCount == old(transCount) + n;
      r := Build(c, s, slots[..]);
    }

    // The operands of a tree in their slots.
    method Slots(xs: seq<Expr>) returns (slots: array<Expr>)
      ensures fresh(slots) && slots[..] == xs
    {
      slots := new Expr[|xs|](i requires 0 <= i < |xs| => xs[i]);
    }

    // One turn of the loop
    method OnePass(e: Expr) returns (r: Expr)
      modifies this
      ensures (r, transCount) == Pass(e)
    {
      transCount := 0;
      r := e;
      if IsConn(e) {
        r := EliminateDups1Self(r);
        r := EliminateDups2Self(r);
      }
    }

    // The loop turns until a pass counts nothing, and puts the counter back.
    method EliminateDups(e: Expr) returns (r: Expr)
      modifies this
      ensures r == ExprEliminate.EliminateDups(e)
      ensures transCount == old(transCount)
    {
      var oldCount := transCount;
      r := e;
      while true
        invariant ExprEliminate.EliminateDups(r) == ExprEliminate.EliminateDups(e)
        decreases Weight(r)
      {
        PassShrinks(r);
        r := OnePass(r);
        if transCount == 0 {
          break;
        }
        r := EliminateYN(r);
      }
      transCount := oldCount;
    }
  }

  lemma OperandsSmaller(e: Expr, c: Conn, s: Spine, xs: seq<Expr>)
    requires IsConn(e) && c == ConnOf(e) && s == SpineOf(c, e) && xs == Operands(c, e)
    ensures |xs| == Tips(s) >= 2 && NoHeads(c, xs) && Sum(xs) < Weight(e)
  {
    BuildOperands(c, e);
    WeightBuild(c, s, xs);
    TipsPositive(s.l);
    TipsPositive(s.r);
  }

  lemma Dups1SelfIs(e: Expr, c: Conn, s: Spine, xs: seq<Expr>, ys: seq<Expr>, n: nat)
    requires IsConn(e) && c == ConnOf(e) && s == SpineOf(c, e) && xs == Operands(c, e)
    requires (ys, n) == Dups1(c, s, 0, s, 0, xs)
    ensures Dups1Self(e) == (Build(c, s, ys), n)
  {
  }

  lemma Dups2SelfIs(e: Expr, c: Conn, s: Spine, xs: seq<Expr>, ys: seq<Expr>, n: nat)
    requires IsConn(e) && c == ConnOf(e) && s == SpineOf(c, e) && xs == Operands(c, e) && |xs| >= 2
    requires (ys, n) == Dups2(c, s, 0, s, 0, xs)
    ensures Dups2Self(e) == (Build(c, s, ys), n)
  {
  }
}
