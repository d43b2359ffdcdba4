// expr_join_or and expr_join_and (pdk/config/expr.c): two operands of an OR or
// AND that can be replaced by a single one.
module ExprJoin {
  import opened KconfigExpr
  import opened ExprTransform
  import opened ExprEq

  // The symbol the first operand tests, if its shape is one a join looks at.
  function FirstSymbol(e: Expr): Option<Symbol> {
    match e
    case ESymbol(s) => Some(s)
    case EEqual(s, _) => Some(s)
    case EUnequal(s, _) => Some(s)
    case ENot(ESymbol(s)) => Some(s)
    case ENot(EEqual(s, _)) => Some(s)
    case ENot(EUnequal(s, _)) => Some(s)
    case _ => None
  }

  // The second operand may be a NOT over a symbol only.
  function SecondSymbol(e: Expr): Option<Symbol> {
    match e
    case ESymbol(s) => Some(s)
    case EEqual(s, _) => Some(s)
    case EUnequal(s, _) => Some(s)
    case ENot(ESymbol(s)) => Some(s)
    case _ => None
  }

  // Both operands test the same Boolean or tristate symbol.
  function JoinSymbol(e1: Expr, e2: Expr): Option<Symbol> {
    match FirstSymbol(e1)
    case None => None
    case Some(s) =>
      if SecondSymbol(e2) == Some(s) && (s.Type() == SBoolean || s.Type() == STristate) then Some(s) else None
  }

  predicate Either(a: Symbol, b: Symbol, x: Symbol, y: Symbol) {
    (a == x && b == y) || (a == y && b == x)
  }

  function JoinOr(e1: Expr, e2: Expr): Option<Expr> {
    if Equal(e1, e2) then Some(e1)
    else
      match JoinSymbol(e1, e2)
      case None => None
      case Some(s) =>
        if s.Type() == STristate && e1.EEqual? && e2.EEqual? && Either(e1.sr, e2.sr, SymYes, SymMod) then
          Some(EUnequal(s, SymNo))
        else if s.Type() == STristate && e1.EEqual? && e2.EEqual? && Either(e1.sr, e2.sr, SymYes, SymNo) then
          Some(EUnequal(s, SymMod))
        else if s.Type() == STristate && e1.EEqual? && e2.EEqual? && Either(e1.sr, e2.sr, SymMod, SymNo) then
          Some(EUnequal(s, SymYes))
        else if s.Type() == SBoolean && ((e1.ENot? && e1.e.ESymbol? && e2.ESymbol?) ||
                                         (e2.ENot? && e2.e.ESymbol? && e1.ESymbol?)) then
          Some(ExprYes)
        else None
  }

  // One operand is the bare symbol and the other compares it with t.
  predicate SymbolAndEqual(e1: Expr, e2: Expr, t: Symbol) {
    (e1.ESymbol? && e2.EEqual? && e2.sr == t) || (e2.ESymbol? && e1.EEqual? && e1.sr == t)
  }

  predicate SymbolAndUnequal(e1: Expr, e2: Expr, t: Symbol) {
    (e1.ESymbol? && e2.EUnequal? && e2.sr == t) || (e2.ESymbol? && e1.EUnequal? && e1.sr == t)
  }

  function JoinAnd(e1: Expr, e2: Expr): Option<Expr> {
    if Equal(e1, e2) then Some(e1)
    else
      match JoinSymbol(e1, e2)
      case None => None
      case Some(s) =>
        if SymbolAndEqual(e1, e2, SymYes) then Some(EEqual(s, SymYes))
        else if SymbolAndUnequal(e1, e2, SymNo) then Some(ESymbol(s))
        else if SymbolAndUnequal(e1, e2, SymMod) then Some(EEqual(s, SymYes))
        else if s.Type() == STristate then JoinAndTristate(s, e1, e2)
        else None
  }

  function JoinAndTristate(s: Symbol, e1: Expr, e2: Expr): Option<Expr> {
    if e1.EEqual? && e2.EUnequal? && e2.sr.HasConstFlag() && e1.sr.HasConstFlag() then
      Some(if e1.sr != e2.sr then EEqual(s, e1.sr) else ExprNo)
    else if e1.EUnequal? && e2.EEqual? && e1.sr.HasConstFlag() && e2.sr.HasConstFlag() then
      Some(if e2.sr != e1.sr then EEqual(s, e2.sr) else ExprNo)
    else if e1.EUnequal? && e2.EUnequal? && Either(e1.sr, e2.sr, SymYes, SymNo) then
      Some(EEqual(s, SymMod))
    else if e1.EUnequal? && e2.EUnequal? && Either(e1.sr, e2.sr, SymYes, SymMod) then
      Some(EEqual(s, SymNo))
    else if e1.EUnequal? && e2.EUnequal? && Either(e1.sr, e2.sr, SymMod, SymNo) then
      Some(EEqual(s, SymYes))
    else None
  }

  function Join(c: Conn, e1: Expr, e2: Expr): Option<Expr> {
    if c.And? then JoinAnd(e1, e2) else JoinOr(e1, e2)
  }

  lemma JoinOrExact(e1: Expr, e2: Expr, env: Env)
    requires ValidEnv(env) && JoinOr(e1, e2).Some?
    ensures Eval(JoinOr(e1, e2).value, env) == Max(Eval(e1, env), Eval(e2, env))
  {
    if Equal(e1, e2) {
      EqualSound(e1, e2, env);
    } else {
      var s := JoinSymbol(e1, e2).value;
      assert SymbolOk(env, s) && SymbolOk(env, SymYes) && SymbolOk(env, SymMod) && SymbolOk(env, SymNo);
    }
  }

  lemma JoinAndExact(e1: Expr, e2: Expr, env: Env)
    requires ValidEnv(env) && JoinAnd(e1, e2).Some?
    ensures Eval(JoinAnd(e1, e2).value, env) == Min(Eval(e1, env), Eval(e2, env))
  {
    if Equal(e1, e2) {
      EqualSound(e1, e2, env);
    } else {
      var s := JoinSymbol(e1, e2).value;
      assert SymbolOk(env, s) && SymbolOk(env, SymYes) && SymbolOk(env, SymMod) && SymbolOk(env, SymNo);
      if e1.EEqual? || e1.EUnequal? { assert SymbolOk(env, e1.sr); }
      if e2.EEqual? || e2.EUnequal? { assert SymbolOk(env, e2.sr); }
    }
  }

  lemma JoinExact(c: Conn, e1: Expr, e2: Expr, env: Env)
    requires ValidEnv(env) && Join(c, e1, e2).Some?
    ensures Eval(Join(c, e1, e2).value, env) == c.Op(Eval(e1, env), Eval(e2, env))
  {
    if c.And? { JoinAndExact(e1, e2, env); } else { JoinOrExact(e1, e2, env); }
  }

  // With a y or n left behind in place of one operand, a join never adds weight.
  lemma JoinWeight(c: Conn, e1: Expr, e2: Expr)
    requires Join(c, e1, e2).Some?
    ensures 1 + Weight(Join(c, e1, e2).value) <= Weight(e1) + Weight(e2)
    ensures !c.Heads(e1) ==> !c.Heads(Join(c, e1, e2).value)
    ensures NotOverSymbols(e1) ==> NotOverSymbols(Join(c, e1, e2).value)
  {
    if !Equal(e1, e2) {
      var s := JoinSymbol(e1, e2).value;
      assert Weight(e1) >= 2 && Weight(e2) >= 2;
    }
  }
}
