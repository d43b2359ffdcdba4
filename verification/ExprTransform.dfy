// Bottom-up rewriting of dependency expressions: expr_eliminate_yn,
// expr_transform, expr_trans_bool and expr_trans_compare (pdk/config/expr.c).
module ExprTransform {
  import opened KconfigExpr

  // ---------- expr_eliminate_yn ----------

  // A node of connective c over operands that have already been folded: the
  // unit disappears, the unit of the other connective absorbs.
  function FoldNode(c: Conn, l: Expr, r: Expr): Expr {
    if l == c.Dual().UnitExpr() then l
    else if l == c.UnitExpr() then r
    else if r == c.Dual().UnitExpr() then r
    else if r == c.UnitExpr() then l
    else c.Make(l, r)
  }

  function EliminateYN(e: Expr): Expr {
    match e
    case EAnd(l, r) => FoldNode(And, EliminateYN(l), EliminateYN(r))
    case EOr(l, r) => FoldNode(Or, EliminateYN(l), EliminateYN(r))
    case _ => e
  }

  lemma {:induction false} EliminateYNExact(e: Expr, env: Env)
    requires ValidEnv(env)
    ensures Eval(EliminateYN(e), env) == Eval(e, env)
  {
    assert SymbolOk(env, SymYes) && SymbolOk(env, SymNo);
    if IsConn(e) {
      EliminateYNExact(e.l, env);
      EliminateYNExact(e.r, env);
    }
  }

  // y and n weigh 1 so that folding one away is visible even when a rewrite
  // pass has only exchanged one constant for another.
  function Weight(e: Expr): nat
    ensures Weight(e) >= 1
  {
    match e
    case ESymbol(s) => if s.SymYes? || s.SymNo? then 1 else 2
    case EAnd(l, r) => 1 + Weight(l) + Weight(r)
    case EOr(l, r) => 1 + Weight(l) + Weight(r)
    case ENot(x) => 1 + Weight(x)
    case _ => 2
  }

  // Some operand of an AND or OR outside every NOT is y or n.
  predicate Foldable(e: Expr) {
    IsConn(e) &&
    (Foldable(e.l) || Foldable(e.r) ||
     e.l == ExprYes || e.l == ExprNo || e.r == ExprYes || e.r == ExprNo)
  }

  lemma {:induction false} EliminateYNShrinks(e: Expr)
    ensures Weight(EliminateYN(e)) <= Weight(e)
    ensures Foldable(e) ==> Weight(EliminateYN(e)) < Weight(e)
  {
    if IsConn(e) {
      EliminateYNShrinks(e.l);
      EliminateYNShrinks(e.r);
    }
  }

  // Nothing foldable is left, and a second run changes nothing.
  lemma {:induction false} EliminateYNNormal(e: Expr)
    ensures !Foldable(EliminateYN(e))
    ensures EliminateYN(EliminateYN(e)) == EliminateYN(e)
    ensures Size(EliminateYN(e)) <= Size(e)
  {
    if IsConn(e) {
      EliminateYNNormal(e.l);
      EliminateYNNormal(e.r);
    }
  }

  // ---------- expr_transform ----------

  predicate IsYMN(s: Symbol) { s.SymYes? || s.SymMod? || s.SymNo? }

  // A weight under which !(a || b) exceeds !a && !b.
  function Rank(e: Expr): nat
    ensures Rank(e) >= 1
  {
    match e
    case ESymbol(_) => 1
    case ENot(x) => 2 * Rank(x)
    case EAnd(l, r) => Rank(l) + Rank(r) + 1
    case EOr(l, r) => Rank(l) + Rank(r) + 1
    case _ => 2
  }

  lemma RankDeMorgan(a: Expr, b: Expr)
    ensures Rank(EAnd(ENot(a), ENot(b))) < Rank(ENot(EOr(a, b)))
    ensures Rank(EOr(ENot(a), ENot(b))) < Rank(ENot(EAnd(a, b)))
    ensures Rank(ENot(EOr(a, b))) == 2 * Rank(EOr(a, b)) && Rank(ENot(EAnd(a, b))) == 2 * Rank(EAnd(a, b))
  {
    assert Rank(ENot(a)) == 2 * Rank(a) && Rank(ENot(b)) == 2 * Rank(b);
  }

  function TransformCompare(e: Expr): (r: Expr)
    requires e.EEqual? || e.EUnequal?
    ensures Rank(r) <= 2
  {
    if e.sl.Type() != SBoolean then e
    else if e.EEqual? then
      (match e.sr
       case SymNo => ENot(ESymbol(e.sl))
       case SymMod => ExprNo
       case SymYes => ESymbol(e.sl)
       case _ => e)
    else
      (match e.sr
       case SymNo => ESymbol(e.sl)
       case SymMod => ExprYes
       case SymYes => ENot(ESymbol(e.sl))
       case _ => e)
  }

  // The operand of a NOT has already been transformed when its own rule is
  // chosen; the De Morgan and double-negation cases start over on the result.
  function Transform(e: Expr): (r: Expr)
    ensures Rank(r) <= Rank(e)
    decreases Rank(e)
  {
    match e
    case ESymbol(_) => e
    case EEqual(_, _) => TransformCompare(e)
    case EUnequal(_, _) => TransformCompare(e)
    case EAnd(a, b) => EAnd(Transform(a), Transform(b))
    case EOr(a, b) => EOr(Transform(a), Transform(b))
    case ENot(x0) =>
      var x := Transform(x0);
      match x
      case ENot(y) => Transform(y)
      case EEqual(s, t) => EUnequal(s, t)
      case EUnequal(s, t) => EEqual(s, t)
      case EOr(a, b) => RankDeMorgan(a, b); Transform(EAnd(ENot(a), ENot(b)))
      case EAnd(a, b) => RankDeMorgan(a, b); Transform(EOr(ENot(a), ENot(b)))
      case ESymbol(SymYes) => ExprNo
      case ESymbol(SymMod) => ESymbol(SymMod)
      case ESymbol(SymNo) => ExprYes
      case ESymbol(_) => ENot(x)
  }

  lemma {:induction false} TransformExact(e: Expr, env: Env)
    requires ValidEnv(env)
    ensures Eval(Transform(e), env) == Eval(e, env)
    decreases Rank(e)
  {
    assert SymbolOk(env, SymYes) && SymbolOk(env, SymMod) && SymbolOk(env, SymNo);
    match e
    case ESymbol(_) =>
    case EEqual(s, _) => assert SymbolOk(env, s);
    case EUnequal(s, _) => assert SymbolOk(env, s);
    case EAnd(a, b) => TransformExact(a, env); TransformExact(b, env);
    case EOr(a, b) => TransformExact(a, env); TransformExact(b, env);
    case ENot(x0) =>
      TransformExact(x0, env);
      var x := Transform(x0);
      match x {
        case ENot(y) => TransformExact(y, env);
        case EOr(a, b) => RankDeMorgan(a, b); TransformExact(EAnd(ENot(a), ENot(b)), env);
        case EAnd(a, b) => RankDeMorgan(a, b); TransformExact(EOr(ENot(a), ENot(b)), env);
        case _ =>
      }
  }

  // Negation normal form with no comparison of a Boolean symbol against y, m or n.
  predicate Normal(e: Expr) {
    match e
    case ESymbol(_) => true
    case EAnd(l, r) => Normal(l) && Normal(r)
    case EOr(l, r) => Normal(l) && Normal(r)
    case ENot(x) => x.ESymbol? && !IsYMN(x.sym)
    case EEqual(s, t) => !(s.Type() == SBoolean && IsYMN(t))
    case EUnequal(s, t) => !(s.Type() == SBoolean && IsYMN(t))
  }

  lemma {:induction false} TransformNormal(e: Expr)
    ensures Normal(Transform(e))
    decreases Rank(e)
  {
    match e
    case ESymbol(_) =>
    case EEqual(_, _) =>
    case EUnequal(_, _) =>
    case EAnd(a, b) => TransformNormal(a); TransformNormal(b);
    case EOr(a, b) => TransformNormal(a); TransformNormal(b);
    case ENot(x0) =>
      TransformNormal(x0);
      var x := Transform(x0);
      match x {
        case ENot(y) => TransformNormal(y);
        case EOr(a, b) => RankDeMorgan(a, b); TransformNormal(EAnd(ENot(a), ENot(b)));
        case EAnd(a, b) => RankDeMorgan(a, b); TransformNormal(EOr(ENot(a), ENot(b)));
        case _ =>
      }
  }

  // The normal forms are exactly the fixed points, so transforming is idempotent.
  lemma {:induction false} NormalIffFixed(e: Expr)
    ensures Normal(e) <==> Transform(e) == e
  {
    TransformNormal(e);
    if Normal(e) {
      NormalIsFixed(e);
    }
  }

  lemma {:induction false} NormalIsFixed(e: Expr)
    requires Normal(e)
    ensures Transform(e) == e
  {
    if IsConn(e) {
      NormalIsFixed(e.l);
      NormalIsFixed(e.r);
    }
  }

  lemma TransformIdempotent(e: Expr)
    ensures Transform(Transform(e)) == Transform(e)
  {
    TransformNormal(e);
    NormalIsFixed(Transform(e));
  }

  // ---------- expr_trans_bool ----------

  function TransBool(e: Expr): Expr {
    match e
    case EAnd(l, r) => EAnd(TransBool(l), TransBool(r))
    case EOr(l, r) => EOr(TransBool(l), TransBool(r))
    case ENot(x) => ENot(TransBool(x))
    case EUnequal(s, t) => if s.Type() == STristate && t == SymNo then ESymbol(s) else e
    case _ => e
  }

  // No test of a tristate symbol against n.
  predicate NoTristateTest(e: Expr) {
    match e
    case EAnd(l, r) => NoTristateTest(l) && NoTristateTest(r)
    case EOr(l, r) => NoTristateTest(l) && NoTristateTest(r)
    case ENot(x) => NoTristateTest(x)
    case EUnequal(s, t) => !(s.Type() == STristate && t == SymNo)
    case _ => true
  }

  // All of them go, and nothing else is touched.
  lemma {:induction false} TransBoolRemovesTests(e: Expr)
    ensures NoTristateTest(TransBool(e))
    ensures TransBool(e) == e <==> NoTristateTest(e)
  {
    match e
    case EAnd(l, r) => TransBoolRemovesTests(l); TransBoolRemovesTests(r);
    case EOr(l, r) => TransBoolRemovesTests(l); TransBoolRemovesTests(r);
    case ENot(x) => TransBoolRemovesTests(x);
    case _ =>
  }

  // NOT stands over symbols only.
  predicate NotOverSymbols(e: Expr) {
    match e
    case EAnd(l, r) => NotOverSymbols(l) && NotOverSymbols(r)
    case EOr(l, r) => NotOverSymbols(l) && NotOverSymbols(r)
    case ENot(x) => x.ESymbol?
    case _ => true
  }

  lemma {:induction false} NormalNotOverSymbols(e: Expr)
    requires Normal(e)
    ensures NotOverSymbols(e)
  {
    if IsConn(e) {
      NormalNotOverSymbols(e.l);
      NormalNotOverSymbols(e.r);
    }
  }

  // The rewrite may lower y to m, but never to n, and never raises a value.
  lemma {:induction false} TransBoolKeepsN(e: Expr, env: Env)
    requires ValidEnv(env) && NotOverSymbols(e)
    ensures Eval(TransBool(e), env) == NO <==> Eval(e, env) == NO
    ensures Eval(TransBool(e), env) <= Eval(e, env)
  {
    match e
    case EAnd(l, r) => TransBoolKeepsN(l, env); TransBoolKeepsN(r, env);
    case EOr(l, r) => TransBoolKeepsN(l, env); TransBoolKeepsN(r, env);
    case EUnequal(s, t) => assert SymbolOk(env, s) && SymbolOk(env, t);
    case _ =>
  }

  // Under a NOT the rewrite keeps whether the value is n exactly where the symbol
  // is not m.
  lemma TransBoolNeedsNormalForm(env: Env, name: string)
    requires ValidEnv(env)
    ensures var e := ENot(EUnequal(Sym(name, STristate), SymNo));
      (Eval(TransBool(e), env) == NO <==> Eval(e, env) == NO) <==> env.tri(Sym(name, STristate)) != MOD
  {
    assert SymbolOk(env, Sym(name, STristate)) && SymbolOk(env, SymNo);
  }

  // ---------- expr_trans_compare ----------

  // The comparisons a caller may ask for: equal to y or n, or different from it.
  // Comparing an AND or OR with m gives back the operand itself, so m is
  // included to say what the code does with it.
  function TransCompare(e: Expr, equal: bool, s: Symbol): Option<Expr> {
    match e
    case EAnd(l, r) =>
      var a, b := TransCompare(l, true, s), TransCompare(r, true, s);
      TransCompareJoin(e, a, b, And, equal, s)
    case EOr(l, r) =>
      var a, b := TransCompare(l, true, s), TransCompare(r, true, s);
      TransCompareJoin(e, a, b, Or, equal, s)
    case ENot(x) => TransCompare(x, !equal, s)
    case ESymbol(t) => Some(if equal then EEqual(t, s) else EUnequal(t, s))
    case _ =>
      match s
      case SymYes => Some(if equal then e else ENot(e))
      case SymMod => Some(if equal then ExprNo else ExprYes)
      case SymNo => Some(if equal then ENot(e) else e)
      case _ => None
  }

  function TransCompareJoin(e: Expr, a: Option<Expr>, b: Option<Expr>, c: Conn, equal: bool, s: Symbol): Option<Expr> {
    if (s.SymYes? || s.SymNo?) && (a.None? || b.None?) then None
    else
      var j := if s.SymYes? then c.Make(a.value, b.value)
               else if s.SymNo? then c.Dual().Make(a.value, b.value)
               else e;
      Some(if equal then j else ENot(j))
  }

  function TransCompareOpt(e: Option<Expr>, equal: bool, s: Symbol): Option<Expr> {
    if e.None? then Some(if equal then ESymbol(s) else ENot(ESymbol(s)))
    else TransCompare(e.value, equal, s)
  }

  // Every operand of a NOT evaluates to n or y.
  ghost predicate NotsAreTwoValued(e: Expr, env: Env) {
    match e
    case EAnd(l, r) => NotsAreTwoValued(l, env) && NotsAreTwoValued(r, env)
    case EOr(l, r) => NotsAreTwoValued(l, env) && NotsAreTwoValued(r, env)
    case ENot(x) => Eval(x, env) != MOD && NotsAreTwoValued(x, env)
    case _ => true
  }

  predicate StringsAreTristate(e: Expr) {
    match e
    case EAnd(l, r) => StringsAreTristate(l) && StringsAreTristate(r)
    case EOr(l, r) => StringsAreTristate(l) && StringsAreTristate(r)
    case ENot(x) => StringsAreTristate(x)
    case ESymbol(s) => IsYMN(s) || s.Type() == SBoolean || s.Type() == STristate
    case _ => true
  }

  lemma {:induction false} TransCompareExact(e: Expr, equal: bool, s: Symbol, env: Env)
    requires ValidEnv(env) && (s == SymYes || s == SymNo)
    requires NotsAreTwoValued(e, env) && StringsAreTristate(e)
    ensures var r := TransCompare(e, equal, s);
      r.Some? && (Eval(r.value, env) == if (Eval(e, env) == env.tri(s)) == equal then YES else NO)
  {
    assert SymbolOk(env, s);
    match e
    case EAnd(l, r) => TransCompareExact(l, true, s, env); TransCompareExact(r, true, s, env);
    case EOr(l, r) => TransCompareExact(l, true, s, env); TransCompareExact(r, true, s, env);
    case ENot(x) => TransCompareExact(x, !equal, s, env);
    case ESymbol(t) => assert SymbolOk(env, t);
    case _ =>
  }

  // A NOT whose operand is m is compared as if m were y against n, and as if
  // it were n against y: the answer for !a is right exactly when a is not m.
  lemma {:induction false} TransCompareNotIff(t: Symbol, equal: bool, s: Symbol, env: Env)
    requires ValidEnv(env) && (s == SymYes || s == SymNo)
    requires StringsAreTristate(ESymbol(t))
    ensures var e := ENot(ESymbol(t)); var r := TransCompare(e, equal, s);
      r.Some? &&
      ((Eval(r.value, env) == if (Eval(e, env) == env.tri(s)) == equal then YES else NO)
       <==> env.tri(t) != MOD)
  {
    assert SymbolOk(env, s) && SymbolOk(env, t);
    TransCompareExact(ESymbol(t), !equal, s, env);
  }

  // Against m: the operand below all NOTs, and whether their number is odd.
  function Core(e: Expr): Expr {
    if e.ENot? then Core(e.e) else e
  }

  predicate OddNots(e: Expr) {
    e.ENot? && !OddNots(e.e)
  }

  // The test for m is right for an AND or OR exactly if its value is n; otherwise
  // it is right or wrong everywhere, by the number of NOTs.
  lemma {:induction false} TransCompareModIff(e: Expr, equal: bool, env: Env)
    requires ValidEnv(env) && StringsAreTristate(e)
    ensures var r := TransCompare(e, equal, SymMod);
      && r.Some?
      && ((Eval(r.value, env) == if (Eval(e, env) == MOD) == equal then YES else NO)
          <==> if IsConn(Core(e)) then Eval(e, env) == NO else !OddNots(e))
  {
    ModValue(e, equal, env);
  }

  lemma {:induction false} ModValue(e: Expr, equal: bool, env: Env)
    requires ValidEnv(env) && StringsAreTristate(e)
    ensures var r := TransCompare(e, equal, SymMod);
      && r.Some?
      && Eval(r.value, env) ==
         if IsConn(Core(e)) then (if equal then Eval(e, env) else Not(Eval(e, env)))
         else if ((Eval(e, env) == MOD) == equal) != OddNots(e) then YES else NO
  {
    assert SymbolOk(env, SymYes) && SymbolOk(env, SymMod) && SymbolOk(env, SymNo);
    match e
    case ENot(x) => ModValue(x, !equal, env);
    case ESymbol(t) => assert SymbolOk(env, t);
    case _ =>
  }
}
