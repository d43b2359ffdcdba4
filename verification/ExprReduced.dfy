// What expr_eliminate_dups leaves (pdk/config/expr.c:347-638), said of the operands
// themselves: no duplicates, none of the pairs that the comments in expr_join_or
// and expr_join_and name, and no operand beside its negation.
module ExprReduced {
  import opened KconfigExpr
  import opened ExprTransform
  import opened ExprEq
  import opened ExprEqComplete
  import opened ExprJoin
  import opened ExprDups
  import opened ExprEliminate

  predicate BoolOrTristate(s: Symbol) {
    s.Type() == SBoolean || s.Type() == STristate
  }

  // a = x and a = y for different ones of y, m and n; a and !a for a Boolean a.
  predicate OrPair(a: Expr, b: Expr) {
    || (a.EEqual? && b.EEqual? && a.sl == b.sl && a.sl.Type() == STristate
        && IsYMN(a.sr) && IsYMN(b.sr) && a.sr != b.sr)
    || (a.ESymbol? && a.sym.Type() == SBoolean && b == ENot(a))
  }

  // a and a = y, a != n or a != m; a = x and a != y for constants; a != x and
  // a != y for different ones of y, m and n.
  predicate AndPair(a: Expr, b: Expr) {
    || (a.ESymbol? && BoolOrTristate(a.sym)
        && (b == EEqual(a.sym, SymYes) || b == EUnequal(a.sym, SymNo) || b == EUnequal(a.sym, SymMod)))
    || (a.EEqual? && b.EUnequal? && a.sl == b.sl && a.sl.Type() == STristate
        && a.sr.HasConstFlag() && b.sr.HasConstFlag())
    || (a.EUnequal? && b.EUnequal? && a.sl == b.sl && a.sl.Type() == STristate
        && IsYMN(a.sr) && IsYMN(b.sr) && a.sr != b.sr)
  }

  predicate Pair(c: Conn, a: Expr, b: Expr) {
    if c.And? then AndPair(a, b) || AndPair(b, a) else OrPair(a, b) || OrPair(b, a)
  }

  // A join is found exactly for equal operands and for these pairs.
  lemma JoinFoundIff(c: Conn, a: Expr, b: Expr)
    ensures Join(c, a, b).Some? <==> Equal(a, b) || Pair(c, a, b)
  {
    hide Equal;
    if c.And? { JoinAndFound(a, b); } else { JoinOrFound(a, b); }
  }

  lemma JoinOrFound(a: Expr, b: Expr)
    ensures JoinOr(a, b).Some? <==> Equal(a, b) || OrPair(a, b) || OrPair(b, a)
  {
    hide Equal;
  }

  lemma JoinAndFound(a: Expr, b: Expr)
    ensures JoinAnd(a, b).Some? <==> Equal(a, b) || AndPair(a, b) || AndPair(b, a)
  {
    hide Equal;
  }

  // The negations of all operands of x, an operand of the other connective, are
  // operands of the tree e.
  ghost predicate Contradicts(c: Conn, x: Expr, e: Expr) {
    var n := Transform(ENot(x));
    Plain(n) && !IsYN(n) && PlainTree(c, e) && AllTaken(Bag(c, n), Bag(c, e))
  }

  lemma {:induction false} OperandSmaller(c: Conn, e: Expr, x: Expr)
    requires c.Heads(e) && x in Operands(c, e)
    ensures Size(x) < Size(e)
  {
    if x in Operands(c, e.l) {
      if c.Heads(e.l) { OperandSmaller(c, e.l, x); }
    } else {
      if c.Heads(e.r) { OperandSmaller(c, e.r, x); }
    }
  }

  // At every depth.
  ghost predicate Reduced(e: Expr)
    decreases Size(e)
  {
    IsConn(e) ==>
      var c := ConnOf(e);
      var xs := Operands(c, e);
      && (forall i, j | 0 <= i < |xs| && 0 <= j < |xs| && i != j :: !Equal(xs[i], xs[j]) && !Pair(c, xs[i], xs[j]))
      && (forall x | x in xs && IsConn(x) :: !Contradicts(c, x, e))
      && (forall x | x in xs :: (OperandSmaller(c, e, x); Reduced(x)))
  }

  lemma {:induction false} IrredundantIsReduced(e: Expr)
    requires Irredundant(e)
    ensures Reduced(e)
    decreases Size(e)
  {
    hide Join, Equal, Pair, NegationIn, Contradicts;
    if IsConn(e) {
      var c := ConnOf(e);
      var xs := Operands(c, e);
      forall i, j | 0 <= i < |xs| && 0 <= j < |xs| && i != j ensures !Equal(xs[i], xs[j]) && !Pair(c, xs[i], xs[j]) {
        JoinFoundIff(c, xs[i], xs[j]);
      }
      forall x | x in xs && IsConn(x) ensures !Contradicts(c, x, e) {
        var i :| 0 <= i < |xs| && xs[i] == x;
        NotContradicted(c, x, e);
      }
      forall x | x in xs ensures Reduced(x) {
        var i :| 0 <= i < |xs| && xs[i] == x;
        OperandLighter(c, e, i);
        OperandSmaller(c, e, x);
        IrredundantIsReduced(x);
      }
    }
  }

  lemma OperandLighter(c: Conn, e: Expr, i: nat)
    requires c.Heads(e) && i < |Operands(c, e)|
    ensures Weight(Operands(c, e)[i]) < Weight(e)
  {
    var s, xs := SpineOf(c, e), Operands(c, e);
    BuildOperands(c, e);
    WeightBuild(c, s, xs);
    TipsPositive(s.l);
    TipsPositive(s.r);
    SumUpdate(xs, i, xs[i]);
  }

  lemma NotContradicted(c: Conn, x: Expr, e: Expr)
    requires IsConn(x) && !c.Heads(x) && !NegationIn(x, e)
    ensures !Contradicts(c, x, e)
  {
    hide Transform, Plain, PlainTree, AllTaken, Extract, Bag;
    var n := Transform(ENot(x));
    assert ConnOf(x).Dual() == c;
    if Contradicts(c, x, e) { ExtractUsesUpIff(c, n, e); }
  }

  // Whatever goes in.
  lemma EliminateDupsReduced(e: Expr)
    ensures Reduced(EliminateDups(e))
  {
    EliminateDupsIrredundant(e);
    IrredundantIsReduced(EliminateDups(e));
  }
}
