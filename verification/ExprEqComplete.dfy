// What expr_eq decides (pdk/config/expr.c:130-233): equality up to the order
// and grouping of the operands of AND and OR.
module ExprEqComplete {
  import opened KconfigExpr
  import opened ExprTransform
  import opened ExprEq

  // An expression with the operands of each AND and OR collected in a bag.
  datatype Shape =
    | ShSymbol(s: Symbol)
    | ShCompare(equal: bool, s: Symbol, t: Symbol)
    | ShNot(n: Shape)
    | ShNode(c: Conn, operands: multiset<Shape>)

  function ShapeOf(e: Expr): Shape
    decreases e, 1
  {
    match e
    case ESymbol(s) => ShSymbol(s)
    case ENot(x) => ShNot(ShapeOf(x))
    case EEqual(s, t) => ShCompare(true, s, t)
    case EUnequal(s, t) => ShCompare(false, s, t)
    case EAnd(_, _) => ShNode(And, Bag(And, e))
    case EOr(_, _) => ShNode(Or, Bag(Or, e))
  }

  // The shapes of the operands of a c-tree, without the units of c.
  function Bag(c: Conn, e: Expr): multiset<Shape>
    decreases e, if c.Heads(e) then 0 else 2
  {
    if c.Heads(e) then Bag(c, e.l) + Bag(c, e.r)
    else if e == c.UnitExpr() then multiset{}
    else multiset{ShapeOf(e)}
  }

  // No operand of an AND or OR is y or n, as expr_eliminate_yn leaves it.
  predicate Plain(e: Expr) {
    match e
    case ENot(x) => Plain(x)
    case EAnd(l, r) => Plain(l) && Plain(r) && !IsYN(l) && !IsYN(r)
    case EOr(l, r) => Plain(l) && Plain(r) && !IsYN(l) && !IsYN(r)
    case _ => true
  }

  // A c-tree of such operands, some of which have been replaced by the unit.
  predicate PlainTree(c: Conn, e: Expr) {
    if c.Heads(e) then PlainTree(c, e.l) && PlainTree(c, e.r)
    else e == c.UnitExpr() || (Plain(e) && !IsYN(e))
  }

  // A quoted constant: __expr_eliminate_eq leaves it alone even when both sides
  // have it.
  predicate IsConst(x: Shape) { x.ShSymbol? && x.s.Const? }

  // Each AND and OR, at every depth, has at most one quoted constant, once.
  ghost predicate Clean(x: Shape) {
    match x
    case ShNot(n) => Clean(n)
    case ShNode(_, b) =>
      && (forall y | y in b :: Clean(y))
      && (forall y | y in b && IsConst(y) :: b[y] == 1)
      && (forall y, z | y in b && z in b && IsConst(y) && IsConst(z) :: y == z)
    case _ => true
  }

  lemma {:induction false} PlainIsTree(c: Conn, e: Expr)
    requires Plain(e) && !IsYN(e)
    ensures PlainTree(c, e) && Bag(c, e) != multiset{}
  {
    if c.Heads(e) {
      PlainIsTree(c, e.l);
      PlainIsTree(c, e.r);
    }
  }

  lemma {:induction false} PlainIsFolded(e: Expr)
    requires Plain(e)
    ensures EliminateYN(e) == e
  {
    if IsConn(e) {
      PlainIsFolded(e.l);
      PlainIsFolded(e.r);
    }
  }

  // What is left of the operands in bag is the unit, a bare symbol, or more.
  ghost predicate FoldsTo(c: Conn, f: Expr, bag: multiset<Shape>) {
    && f != c.Dual().UnitExpr()
    && (f == c.UnitExpr() <==> bag == multiset{})
    && (f.ESymbol? && f != c.UnitExpr() ==> bag == multiset{ShSymbol(f.sym)})
    && (forall s :: bag == multiset{ShSymbol(s)} ==> f == ESymbol(s))
  }

  lemma FoldedNode(c: Conn, l: Expr, r: Expr, bl: multiset<Shape>, br: multiset<Shape>)
    requires FoldsTo(c, l, bl) && FoldsTo(c, r, br)
    ensures FoldsTo(c, FoldNode(c, l, r), bl + br)
  {
    if l == c.UnitExpr() {
      assert bl + br == br;
    } else if r == c.UnitExpr() {
      assert bl + br == bl;
    } else {
      assert |bl| >= 1 && |br| >= 1 && |bl + br| == |bl| + |br|;
      forall s ensures bl + br != multiset{ShSymbol(s)} {
        assert |multiset{ShSymbol(s)}| == 1;
      }
    }
  }

  // Folding a plain tree leaves a bare symbol only if at most one operand was left.
  lemma {:induction false} FoldedTree(c: Conn, e: Expr)
    requires PlainTree(c, e)
    ensures FoldsTo(c, EliminateYN(e), Bag(c, e))
  {
    if c.Heads(e) {
      FoldedTree(c, e.l);
      FoldedTree(c, e.r);
      FoldedNode(c, EliminateYN(e.l), EliminateYN(e.r), Bag(c, e.l), Bag(c, e.r));
      FoldedHead(c, e);
    } else {
      FoldedTip(c, e);
    }
  }

  lemma FoldedHead(c: Conn, e: Expr)
    requires c.Heads(e)
    ensures EliminateYN(e) == FoldNode(c, EliminateYN(e.l), EliminateYN(e.r))
    ensures Bag(c, e) == Bag(c, e.l) + Bag(c, e.r)
  {
  }

  lemma FoldedTip(c: Conn, e: Expr)
    requires !c.Heads(e) && PlainTree(c, e)
    ensures FoldsTo(c, EliminateYN(e), Bag(c, e))
  {
    if e != c.UnitExpr() {
      PlainIsFolded(e);
    }
  }

  lemma {:induction false} ElimEqRecHeads(c: Conn, e1: Expr, e2: Expr)
    ensures c.Heads(e1) ==> c.Heads(ElimEqRec(c, e1, e2).0)
    ensures c.Heads(e2) ==> c.Heads(ElimEqRec(c, e1, e2).1)
    decreases Size(e1) + Size(e2)
  {
    if c.Heads(e1) {
      var (_, e2', _) := ElimEqRec(c, e1.l, e2);
      ElimEqRecHeads(c, e1.l, e2);
      ElimEqRecHeads(c, e1.r, e2');
    }
  }

  // An operand that cancelling leaves alone; extraction takes constants as well.
  ghost predicate Stays(constants: bool, x: Shape) {
    !Clean(x) || (constants && IsConst(x))
  }

  ghost predicate RemovedAt(k: bool, b1: multiset<Shape>, b2: multiset<Shape>, r1: multiset<Shape>, r2: multiset<Shape>, x: Shape) {
    if Stays(k, x) then r1[x] == b1[x] && r2[x] == b2[x]
    else r1[x] == (b1 - b2)[x] && r2[x] == (b2 - b1)[x]
  }

  // r1 and r2 are b1 and b2 without what they have in common, except for what stays.
  ghost predicate Removed(k: bool, b1: multiset<Shape>, b2: multiset<Shape>, r1: multiset<Shape>, r2: multiset<Shape>) {
    forall x :: RemovedAt(k, b1, b2, r1, r2, x)
  }

  lemma RemovedTwice(k: bool, bl: multiset<Shape>, br: multiset<Shape>, b2: multiset<Shape>, b2': multiset<Shape>,
                     b2'': multiset<Shape>, l: multiset<Shape>, r: multiset<Shape>)
    requires Removed(k, bl, b2, l, b2') && Removed(k, br, b2', r, b2'')
    ensures Removed(k, bl + br, b2, l + r, b2'')
  {
    forall x ensures RemovedAt(k, bl + br, b2, l + r, b2'', x) {
      assert RemovedAt(k, bl, b2, l, b2', x) && RemovedAt(k, br, b2', r, b2'', x);
    }
  }

  lemma RemovedSwap(k: bool, b1: multiset<Shape>, b2: multiset<Shape>, r1: multiset<Shape>, r2: multiset<Shape>)
    requires Removed(k, b1, b2, r1, r2)
    ensures Removed(k, b2, b1, r2, r1)
  {
    forall x ensures RemovedAt(k, b2, b1, r2, r1, x) { assert RemovedAt(k, b1, b2, r1, r2, x); }
  }

  ghost predicate CommonRemoved(k: bool, c: Conn, e1: Expr, e2: Expr, r1: Expr, r2: Expr) {
    PlainTree(c, r1) && PlainTree(c, r2) && Removed(k, Bag(c, e1), Bag(c, e2), Bag(c, r1), Bag(c, r2))
  }

  lemma BagMake(c: Conn, l: Expr, r: Expr)
    ensures Bag(c, c.Make(l, r)) == Bag(c, l) + Bag(c, r)
    ensures PlainTree(c, c.Make(l, r)) <==> PlainTree(c, l) && PlainTree(c, r)
  {
  }

  lemma RemovedInTurn(k: bool, c: Conn, e1: Expr, e2: Expr, l: Expr, r: Expr, e2': Expr, e2'': Expr)
    requires c.Heads(e1) && CommonRemoved(k, c, e1.l, e2, l, e2') && CommonRemoved(k, c, e1.r, e2', r, e2'')
    ensures CommonRemoved(k, c, e1, e2, c.Make(l, r), e2'')
    ensures CommonRemoved(k, c, e2, e1, e2'', c.Make(l, r))
  {
    BagMake(c, l, r);
    BagMake(c, e1.l, e1.r);
    assert e1 == c.Make(e1.l, e1.r);
    RemovedTwice(k, Bag(c, e1.l), Bag(c, e1.r), Bag(c, e2), Bag(c, e2'), Bag(c, e2''), Bag(c, l), Bag(c, r));
    RemovedSwap(k, Bag(c, e1), Bag(c, e2), Bag(c, c.Make(l, r)), Bag(c, e2''));
  }

  lemma SwapRemoved(k: bool, c: Conn, e1: Expr, e2: Expr, r1: Expr, r2: Expr)
    requires CommonRemoved(k, c, e1, e2, r1, r2)
    ensures CommonRemoved(k, c, e2, e1, r2, r1)
  {
    RemovedSwap(k, Bag(c, e1), Bag(c, e2), Bag(c, r1), Bag(c, r2));
  }

  // Two operands that are not trees of the connective.
  lemma TipsRemoved(k: bool, c: Conn, e1: Expr, e2: Expr, cancel: bool)
    requires PlainTree(c, e1) && PlainTree(c, e2) && !c.Heads(e1) && !c.Heads(e2)
    requires e1 != c.UnitExpr() && e2 != c.UnitExpr() ==>
      (cancel <==> ShapeOf(e1) == ShapeOf(e2) && !Stays(k, ShapeOf(e1)))
    requires e1 == c.UnitExpr() || e2 == c.UnitExpr() ==> !cancel || e1 == e2
    ensures var u := c.UnitExpr();
      if cancel then CommonRemoved(k, c, e1, e2, u, u) else CommonRemoved(k, c, e1, e2, e1, e2)
  {
    var u := c.UnitExpr();
    var b1, b2 := Bag(c, e1), Bag(c, e2);
    var r1, r2 := if cancel then u else e1, if cancel then u else e2;
    assert Bag(c, u) == multiset{};
    forall x ensures RemovedAt(k, b1, b2, Bag(c, r1), Bag(c, r2), x) {
    }
  }

  // Exactly the operands both sides have are cancelled, counted with
  // multiplicity, but for constants and for operands that do not equal themselves.
  lemma {:induction false} ElimEqRecBags(c: Conn, e1: Expr, e2: Expr)
    requires PlainTree(c, e1) && PlainTree(c, e2)
    ensures var r := ElimEqRec(c, e1, e2); CommonRemoved(true, c, e1, e2, r.0, r.1)
    decreases Size(e1) + Size(e2), if c.Heads(e1) || c.Heads(e2) then 0 else 3
  {
    hide ElimEqRec, Equal, CommonRemoved;
    if c.Heads(e1) {
      ElimEqLeftBags(c, e1, e2);
    } else if c.Heads(e2) {
      ElimEqRightBags(c, e1, e2);
    } else {
      ElimEqTipBags(c, e1, e2);
    }
  }

  lemma {:induction false} ElimEqTipBags(c: Conn, e1: Expr, e2: Expr)
    requires PlainTree(c, e1) && PlainTree(c, e2) && !c.Heads(e1) && !c.Heads(e2)
    ensures var r := ElimEqRec(c, e1, e2); CommonRemoved(true, c, e1, e2, r.0, r.1)
    decreases Size(e1) + Size(e2), 3, 0
  {
    hide ElimEqRec, Equal, CommonRemoved;
    EqualIffSameShape(e1, e2);
    ElimEqTip(c, e1, e2);
    TipsRemoved(true, c, e1, e2, Cancels(c, e1, e2));
  }

  lemma {:induction false} ElimEqLeftBags(c: Conn, e1: Expr, e2: Expr)
    requires PlainTree(c, e1) && PlainTree(c, e2) && c.Heads(e1)
    ensures CommonRemoved(true, c, e1, e2, ElimEqRec(c, e1, e2).0, ElimEqRec(c, e1, e2).1)
    decreases Size(e1) + Size(e2), 0, 0
  {
    hide ElimEqRec, Equal, Removed, Bag;
    var l, e2' := ElimEqRec(c, e1.l, e2).0, ElimEqRec(c, e1.l, e2).1;
    var r, e2'' := ElimEqRec(c, e1.r, e2').0, ElimEqRec(c, e1.r, e2').1;
    ElimEqRecLeft(c, e1, e2, l, e2', r, e2'');
    ElimEqRecBags(c, e1.l, e2);
    ElimEqRecBags(c, e1.r, e2');
    RemovedInTurn(true, c, e1, e2, l, r, e2', e2'');
  }

  lemma {:induction false} ElimEqRightBags(c: Conn, e1: Expr, e2: Expr)
    requires PlainTree(c, e1) && PlainTree(c, e2) && !c.Heads(e1) && c.Heads(e2)
    ensures CommonRemoved(true, c, e1, e2, ElimEqRec(c, e1, e2).0, ElimEqRec(c, e1, e2).1)
    decreases Size(e1) + Size(e2), 0, 0
  {
    hide ElimEqRec, Equal, Removed, Bag;
    var e1', l := ElimEqRec(c, e1, e2.l).0, ElimEqRec(c, e1, e2.l).1;
    var e1'', r := ElimEqRec(c, e1', e2.r).0, ElimEqRec(c, e1', e2.r).1;
    ElimEqRecRight(c, e1, e2, e1', l, e1'', r);
    ElimEqRecBags(c, e1, e2.l);
    ElimEqRecBags(c, e1', e2.r);
    SwapRemoved(true, c, e1, e2.l, e1', l);
    SwapRemoved(true, c, e1', e2.r, e1'', r);
    RemovedInTurn(true, c, e2, e1, l, r, e1', e1'');
  }

  // What expr_eq decides, quoted constants included.
  lemma {:induction false} EqualIffSameShape(e1: Expr, e2: Expr)
    requires Plain(e1) && Plain(e2)
    ensures Equal(e1, e2) <==> ShapeOf(e1) == ShapeOf(e2) && Clean(ShapeOf(e1))
    decreases Size(e1) + Size(e2), 2
  {
    if e1.ENot? && e2.ENot? {
      EqualIffSameShape(e1.e, e2.e);
    } else if IsConn(e1) && SameType(e1, e2) {
      PlainIsTree(ConnOf(e1), e1);
      PlainIsTree(ConnOf(e1), e2);
      ElimEqRecBags(ConnOf(e1), e1, e2);
      EqualTreesIff(ConnOf(e1), e1, e2);
    }
  }

  lemma EqualTreesIff(c: Conn, e1: Expr, e2: Expr)
    requires Plain(e1) && Plain(e2) && c.Heads(e1) && c.Heads(e2)
    requires var r := ElimEqRec(c, e1, e2); CommonRemoved(true, c, e1, e2, r.0, r.1)
    ensures Equal(e1, e2) <==> Bag(c, e1) == Bag(c, e2) && Clean(ShNode(c, Bag(c, e1)))
  {
    hide ElimEqRec, Removed, Bag;
    var (a1, a2, n) := ElimEqRec(c, e1, e2);
    ElimEqRecHeads(c, e1, e2);
    assert ElimEqFirst(e1, e2) == (a1, a2, n) && ElimEqSecond(a1, a2) == (a1, a2, 0);
    var f1, f2 := EliminateYN(a1), EliminateYN(a2);
    assert Equal(e1, e2) <==> f1.ESymbol? && f1 == f2;
    FoldedTree(c, a1);
    FoldedTree(c, a2);
    var b1, b2, r1, r2 := Bag(c, e1), Bag(c, e2), Bag(c, a1), Bag(c, a2);
    if f1.ESymbol? && f1 == f2 {
      SameSymbolLeft(c, b1, b2, r1, r2);
    }
    if b1 == b2 && Clean(ShNode(c, b1)) {
      CleanLeaves(c, b1, r1, r2);
      assert forall s :: r1 == multiset{ShSymbol(s)} ==> f1 == ESymbol(s) && f2 == ESymbol(s);
    }
  }

  // Nothing, or the same one symbol, is left only of equal clean bags.
  lemma SameSymbolLeft(c: Conn, b1: multiset<Shape>, b2: multiset<Shape>, r1: multiset<Shape>, r2: multiset<Shape>)
    requires Removed(true, b1, b2, r1, r2) && r1 == r2 && (r1 == multiset{} || exists s :: r1 == multiset{ShSymbol(s)})
    ensures b1 == b2 && Clean(ShNode(c, b1))
  {
    forall x ensures b1[x] == b2[x] && (x in b1 ==> Clean(x) && (IsConst(x) ==> r1 == multiset{x} && b1[x] == 1)) {
      assert RemovedAt(true, b1, b2, r1, r2, x);
      if x in r1 { assert r1 == multiset{x}; }
    }
    forall y, z | y in b1 && z in b1 && IsConst(y) && IsConst(z) ensures y == z {
      assert y in r1 && r1 == multiset{z};
    }
  }

  lemma CleanLeaves(c: Conn, b: multiset<Shape>, r1: multiset<Shape>, r2: multiset<Shape>)
    requires Removed(true, b, b, r1, r2) && Clean(ShNode(c, b))
    ensures r1 == r2 && (r1 == multiset{} || exists s :: r1 == multiset{ShSymbol(s)})
  {
    forall x ensures r1[x] == r2[x] && r1[x] == (if IsConst(x) then b[x] else 0) {
      assert RemovedAt(true, b, b, r1, r2, x);
    }
    if x :| x in r1 {
      assert IsConst(x) && x in b;
      forall y ensures r1[y] == multiset{x}[y] {}
      assert r1 == multiset{ShSymbol(x.s)};
    }
  }

  // It is symmetric and transitive, and reflexive exactly on clean expressions.
  lemma EqualIsEquivalence(a: Expr, b: Expr, d: Expr)
    requires Plain(a) && Plain(b) && Plain(d)
    ensures Equal(a, a) <==> Clean(ShapeOf(a))
    ensures Equal(a, b) == Equal(b, a)
    ensures Equal(a, b) && Equal(b, d) ==> Equal(a, d)
  {
    EqualIffSameShape(a, a);
    EqualIffSameShape(a, b);
    EqualIffSameShape(b, a);
    EqualIffSameShape(b, d);
    EqualIffSameShape(a, d);
  }

  // Two quoted constants under one AND, and the expression does not equal itself.
  lemma EqualMissesConstants(s: ConstName, t: ConstName)
    ensures var e := EAnd(ESymbol(Const(s)), ESymbol(Const(t))); !Equal(e, e)
  {
    PairEqualsItself(Const(s), Const(t));
  }

  // One does no harm.
  lemma PairEqualsItself(u: Symbol, v: Symbol)
    requires !u.SymYes? && !u.SymNo? && !v.SymYes? && !v.SymNo?
    ensures var e := EAnd(ESymbol(u), ESymbol(v)); Equal(e, e) <==> !(u.Const? && v.Const?)
  {
    var e := EAnd(ESymbol(u), ESymbol(v));
    PairBag(e, u, v);
    EqualIffSameShape(e, e);
    PairClean(ShSymbol(u), ShSymbol(v));
  }

  lemma PairBag(e: Expr, u: Symbol, v: Symbol)
    requires e == EAnd(ESymbol(u), ESymbol(v)) && !u.SymYes? && !v.SymYes?
    ensures ShapeOf(e) == ShNode(And, multiset{ShSymbol(u), ShSymbol(v)})
  {
    SymbolBag(e.l, u);
    SymbolBag(e.r, v);
    FoldedHead(And, e);
    assert ShapeOf(e) == ShNode(And, Bag(And, e));
  }

  lemma SymbolBag(e: Expr, u: Symbol)
    requires e == ESymbol(u) && !u.SymYes?
    ensures Bag(And, e) == multiset{ShSymbol(u)}
  {
    assert ShapeOf(e) == ShSymbol(u);
  }

  lemma PairClean(x: Shape, y: Shape)
    requires x.ShSymbol? && y.ShSymbol?
    ensures Clean(ShNode(And, multiset{x, y})) <==> !(IsConst(x) && IsConst(y))
  {
    var b := multiset{x, y};
    assert x in b && y in b && (x == y ==> b[x] == 2) && (x != y ==> b[x] == 1 && b[y] == 1);
    assert forall z :: z in b ==> z == x || z == y;
    if !(IsConst(x) && IsConst(y)) {
      forall z | z in b && IsConst(z) ensures b[z] == 1 {}
    }
  }

  // With y or n as operands expr_eq can hold of more: both a && n and b && n fold
  // to n, whatever a and b are.
  lemma AbsorbedAreEqual(a: Symbol, b: Symbol)
    requires a != b
    ensures var e1, e2 := EAnd(ESymbol(a), ESymbol(SymNo)), EAnd(ESymbol(b), ESymbol(SymNo));
      Equal(e1, e2) && ShapeOf(e1) != ShapeOf(e2)
  {
    var e1, e2 := EAnd(ESymbol(a), ESymbol(SymNo)), EAnd(ESymbol(b), ESymbol(SymNo));
    AbsorbedEqual(e1, e2, ESymbol(SymNo));
    AbsorbedBag(e1, a);
    AbsorbedBag(e2, b);
    var x := ShSymbol(if a.SymYes? then b else a);
    assert Bag(And, e1)[x] != Bag(And, e2)[x];
  }

  lemma AbsorbedEqual(e1: Expr, e2: Expr, no: Expr)
    requires e1.EAnd? && e2.EAnd? && e1.l.ESymbol? && e2.l.ESymbol? && e1.l != e2.l
    requires e1.r == e2.r == no == ESymbol(SymNo)
    ensures Equal(e1, e2)
  {
    TipAgainstTree(e1.l, e2.l.sym, no, e2);
    TipAgainstTree(no, e2.l.sym, no, e2);
    assert ElimEqRec(And, e1, e2) == (e1, e2, 0);
    assert ElimEqFirst(e1, e2) == (e1, e2, 0);
    AbsorbedFolds(e1, no);
    AbsorbedFolds(e2, no);
  }

  lemma AbsorbedFolds(e: Expr, no: Expr)
    requires e.EAnd? && e.l.ESymbol? && e.r == no == ESymbol(SymNo)
    ensures EliminateYN(e) == no
  {
    FoldedHead(And, e);
    assert EliminateYN(e.l) == e.l && EliminateYN(e.r) == no;
  }

  lemma TipAgainstTree(tip: Expr, b: Symbol, no: Expr, e2: Expr)
    requires tip.ESymbol? && (tip.sym != b || tip == no) && no == ESymbol(SymNo) && e2 == EAnd(ESymbol(b), no)
    ensures ElimEqRec(And, tip, e2) == (tip, e2, 0)
  {
    assert ElimEqRec(And, tip, e2.l) == (tip, e2.l, 0);
    assert ElimEqRec(And, tip, no) == (tip, no, 0);
  }

  lemma AbsorbedBag(e: Expr, a: Symbol)
    requires e == EAnd(ESymbol(a), ESymbol(SymNo))
    ensures Bag(And, e) == (if a.SymYes? then multiset{} else multiset{ShSymbol(a)}) + multiset{ShSymbol(SymNo)}
    ensures ShapeOf(e) == ShNode(And, Bag(And, e))
  {
    assert Bag(And, e) == Bag(And, e.l) + Bag(And, e.r);
    assert Bag(And, e.r) == multiset{ShSymbol(SymNo)};
  }

  // ---------- expr_extract_eq ----------

  // Exactly the operands both sides have are extracted, constants too, but not
  // operands that do not equal themselves.
  lemma {:induction false} ExtractEqBags(c: Conn, taken: Option<Expr>, e1: Expr, e2: Expr)
    requires PlainTree(c, e1) && PlainTree(c, e2)
    ensures var r := ExtractEq(c, taken, e1, e2); CommonRemoved(false, c, e1, e2, r.1, r.2)
    decreases Size(e1) + Size(e2)
  {
    hide ExtractEq, Equal, CommonRemoved;
    if c.Heads(e1) {
      ExtractLeftBags(c, taken, e1, e2);
    } else if c.Heads(e2) {
      ExtractRightBags(c, taken, e1, e2);
    } else {
      ExtractTipBags(c, taken, e1, e2);
    }
  }

  lemma {:induction false} ExtractTipBags(c: Conn, taken: Option<Expr>, e1: Expr, e2: Expr)
    requires PlainTree(c, e1) && PlainTree(c, e2) && !c.Heads(e1) && !c.Heads(e2)
    ensures var r := ExtractEq(c, taken, e1, e2); CommonRemoved(false, c, e1, e2, r.1, r.2)
  {
    hide Equal, CommonRemoved;
    EqualIffSameShape(e1, e2);
    TipsRemoved(false, c, e1, e2, Equal(e1, e2));
  }

  lemma {:induction false} ExtractLeftBags(c: Conn, taken: Option<Expr>, e1: Expr, e2: Expr)
    requires PlainTree(c, e1) && PlainTree(c, e2) && c.Heads(e1)
    ensures var r := ExtractEq(c, taken, e1, e2); CommonRemoved(false, c, e1, e2, r.1, r.2)
    decreases Size(e1) + Size(e2), 0
  {
    hide ExtractEq, Equal, Removed, Bag;
    var (t, l, e2') := ExtractEq(c, taken, e1.l, e2);
    var (t', r, e2'') := ExtractEq(c, t, e1.r, e2');
    ExtractEqLeft(c, taken, e1, e2, t, l, e2', t', r, e2'');
    ExtractEqBags(c, taken, e1.l, e2);
    ExtractEqBags(c, t, e1.r, e2');
    RemovedInTurn(false, c, e1, e2, l, r, e2', e2'');
  }

  lemma {:induction false} ExtractRightBags(c: Conn, taken: Option<Expr>, e1: Expr, e2: Expr)
    requires PlainTree(c, e1) && PlainTree(c, e2) && !c.Heads(e1) && c.Heads(e2)
    ensures var r := ExtractEq(c, taken, e1, e2); CommonRemoved(false, c, e1, e2, r.1, r.2)
    decreases Size(e1) + Size(e2), 0
  {
    hide ExtractEq, Equal, Removed, Bag;
    var (t, e1', l) := ExtractEq(c, taken, e1, e2.l);
    var (t', e1'', r) := ExtractEq(c, t, e1', e2.r);
    ExtractEqRight(c, taken, e1, e2, t, e1', l, t', e1'', r);
    ExtractEqBags(c, taken, e1, e2.l);
    ExtractEqBags(c, t, e1', e2.r);
    SwapRemoved(false, c, e1, e2.l, e1', l);
    SwapRemoved(false, c, e1', e2.r, e1'', r);
    RemovedInTurn(false, c, e2, e1, l, r, e1', e1'');
  }

  lemma {:induction false} ExtractKeepsTaken(c: Conn, taken: Option<Expr>, e1: Expr, e2: Expr)
    ensures taken.Some? ==> ExtractEq(c, taken, e1, e2).0.Some?
    decreases Size(e1) + Size(e2)
  {
    if c.Heads(e1) {
      var (t, _, e2') := ExtractEq(c, taken, e1.l, e2);
      ExtractKeepsTaken(c, taken, e1.l, e2);
      ExtractKeepsTaken(c, t, e1.r, e2');
    } else if c.Heads(e2) {
      var (t, e1', _) := ExtractEq(c, taken, e1, e2.l);
      ExtractKeepsTaken(c, taken, e1, e2.l);
      ExtractKeepsTaken(c, t, e1', e2.r);
    }
  }

  // Without anything taken nothing has changed.
  lemma {:induction false} NothingTaken(c: Conn, taken: Option<Expr>, e1: Expr, e2: Expr)
    requires ExtractEq(c, taken, e1, e2).0.None?
    ensures ExtractEq(c, taken, e1, e2).1 == e1 && ExtractEq(c, taken, e1, e2).2 == e2
    decreases Size(e1) + Size(e2)
  {
    if c.Heads(e1) {
      var (t, l, e2') := ExtractEq(c, taken, e1.l, e2);
      ExtractKeepsTaken(c, t, e1.r, e2');
      NothingTaken(c, taken, e1.l, e2);
      NothingTaken(c, t, e1.r, e2');
    } else if c.Heads(e2) {
      var (t, e1', l) := ExtractEq(c, taken, e1, e2.l);
      ExtractKeepsTaken(c, t, e1', e2.r);
      NothingTaken(c, taken, e1, e2.l);
      NothingTaken(c, t, e1', e2.r);
    }
  }

  // Extraction leaves the operands cancelling leaves exactly if the two sides
  // share no quoted constant.
  lemma ExtractEqIsElimEq(c: Conn, taken: Option<Expr>, e1: Expr, e2: Expr)
    requires PlainTree(c, e1) && PlainTree(c, e2)
    ensures var r, s := ExtractEq(c, taken, e1, e2), ElimEqRec(c, e1, e2);
      Bag(c, r.1) == Bag(c, s.0) && Bag(c, r.2) == Bag(c, s.1) <==>
      forall x | IsConst(x) :: !(x in Bag(c, e1) && x in Bag(c, e2))
  {
    hide ExtractEq, ElimEqRec, Equal, Removed, Bag;
    var r, s := ExtractEq(c, taken, e1, e2), ElimEqRec(c, e1, e2);
    ExtractEqBags(c, taken, e1, e2);
    ElimEqRecBags(c, e1, e2);
    SameResidues(Bag(c, e1), Bag(c, e2), Bag(c, r.1), Bag(c, r.2), Bag(c, s.0), Bag(c, s.1));
  }

  lemma SameResidues(b1: multiset<Shape>, b2: multiset<Shape>, r1: multiset<Shape>, r2: multiset<Shape>,
                     s1: multiset<Shape>, s2: multiset<Shape>)
    requires Removed(false, b1, b2, r1, r2) && Removed(true, b1, b2, s1, s2)
    ensures r1 == s1 && r2 == s2 <==> forall x | IsConst(x) :: !(x in b1 && x in b2)
  {
    forall x ensures IsConst(x) && x in b1 && x in b2 ==> r1[x] != s1[x]
      ensures !(IsConst(x) && x in b1 && x in b2) ==> r1[x] == s1[x] && r2[x] == s2[x]
    {
      assert RemovedAt(false, b1, b2, r1, r2, x) && RemovedAt(true, b1, b2, s1, s2, x);
    }
  }

  // The first argument is used up exactly if the second has all its operands as
  // often, and each of them equals itself.
  lemma ExtractUsesUpIff(c: Conn, e1: Expr, e2: Expr)
    requires Plain(e1) && !IsYN(e1) && PlainTree(c, e2)
    ensures Extract(c, e1, e2).1 == c.UnitExpr() <==> AllTaken(Bag(c, e1), Bag(c, e2))
  {
    PlainIsTree(c, e1);
    ExtractResidue(c, e1, e2);
    ExtractEqBags(c, None, e1, e2);
    var r, r2 := ExtractEq(c, None, e1, e2).1, ExtractEq(c, None, e1, e2).2;
    UsedUp(Bag(c, e1), Bag(c, e2), Bag(c, r), Bag(c, r2));
  }

  ghost predicate AllTaken(b1: multiset<Shape>, b2: multiset<Shape>) {
    b1 <= b2 && forall x | x in b1 :: Clean(x)
  }

  lemma ExtractResidue(c: Conn, e1: Expr, e2: Expr)
    requires PlainTree(c, e1) && PlainTree(c, e2) && Bag(c, e1) != multiset{}
    ensures Extract(c, e1, e2).1 == c.UnitExpr() <==> Bag(c, ExtractEq(c, None, e1, e2).1) == multiset{}
  {
    hide ExtractEq, Equal, Removed;
    var r := ExtractEq(c, None, e1, e2).1;
    if ExtractEq(c, None, e1, e2).0.None? {
      NothingTaken(c, None, e1, e2);
      assert Extract(c, e1, e2).1 == e1;
    } else {
      ExtractEqBags(c, None, e1, e2);
      FoldedTree(c, r);
      assert Extract(c, e1, e2).1 == EliminateYN(r);
    }
  }

  lemma UsedUp(b1: multiset<Shape>, b2: multiset<Shape>, r1: multiset<Shape>, r2: multiset<Shape>)
    requires Removed(false, b1, b2, r1, r2)
    ensures r1 == multiset{} <==> AllTaken(b1, b2)
  {
    forall x ensures r1[x] == 0 <==> (b1[x] <= b2[x] && Clean(x)) || b1[x] == 0 {
      assert RemovedAt(false, b1, b2, r1, r2, x);
    }
    if r1 == multiset{} {
      forall x ensures b1[x] <= b2[x] { assert r1[x] == 0; }
      forall x | x in b1 ensures Clean(x) { assert r1[x] == 0; }
    }
    if AllTaken(b1, b2) {
      forall x ensures r1[x] == 0 { assert b1[x] <= b2[x]; }
    }
  }

  // ---------- the residues of expr_eliminate_eq ----------

  lemma {:induction false} FoldKeepsBag(c: Conn, e: Expr)
    requires PlainTree(c, e)
    ensures Bag(c, EliminateYN(e)) == Bag(c, e)
  {
    if c.Heads(e) {
      FoldKeepsBag(c, e.l);
      FoldKeepsBag(c, e.r);
      FoldedTree(c, e.l);
      FoldedTree(c, e.r);
      FoldedHead(c, e);
      FoldedBag(c, EliminateYN(e.l), EliminateYN(e.r));
    } else if e != c.UnitExpr() {
      PlainIsFolded(e);
    }
  }

  lemma FoldedBag(c: Conn, l: Expr, r: Expr)
    requires l != c.Dual().UnitExpr() && r != c.Dual().UnitExpr()
    ensures Bag(c, FoldNode(c, l, r)) == Bag(c, l) + Bag(c, r)
  {
    assert Bag(c, c.UnitExpr()) == multiset{};
    BagMake(c, l, r);
  }

  // For two trees of one connective, or a tree and a single operand on either side,
  // the residues are the arguments without their common operands.
  lemma ElimEqBags(c: Conn, e1: Expr, e2: Expr)
    requires Plain(e1) && Plain(e2) && !IsYN(e1) && !IsYN(e2)
    requires (c.Heads(e1) && (c.Heads(e2) || !IsConn(e2))) || (!IsConn(e1) && c.Heads(e2))
    ensures var r := ElimEq(e1, e2); Removed(true, Bag(c, e1), Bag(c, e2), Bag(c, r.0), Bag(c, r.1))
  {
    hide ElimEqRec, Bag, Plain, PlainTree, EliminateYN, Removed;
    PlainIsTree(c, e1);
    PlainIsTree(c, e2);
    ElimEqRecBags(c, e1, e2);
    ElimEqRecHeads(c, e1, e2);
    var (a1, a2, m) := ElimEqRec(c, e1, e2);
    if c.Heads(e1) {
      if !c.Heads(e2) { TipStays(c, e1, e2); }
      assert ElimEqFirst(e1, e2) == (a1, a2, m) && ElimEqSecond(a1, a2) == (a1, a2, 0);
    } else {
      assert ElimEqFirst(e1, e2) == (e1, e2, 0) && ElimEqSecond(e1, e2) == (a1, a2, m);
    }
    assert ElimEq(e1, e2).0 == EliminateYN(a1) && ElimEq(e1, e2).1 == EliminateYN(a2);
    FoldKeepsBag(c, a1);
    FoldKeepsBag(c, a2);
  }

  // A single operand stays or is cancelled.
  lemma {:induction false} TipStays(c: Conn, e1: Expr, e2: Expr)
    requires !IsConn(e2)
    ensures !IsConn(ElimEqRec(c, e1, e2).1)
    decreases Size(e1)
  {
    hide Equal;
    if c.Heads(e1) {
      TipStays(c, e1.l, e2);
      TipStays(c, e1.r, ElimEqRec(c, e1.l, e2).1);
    }
  }
}
