// Symbols, dependency expressions and their three-valued meaning
// (pdk/config/expr.h, expr_calc_value in pdk/config/expr.c).
module KconfigExpr {

  // no < mod < yes
  type tristate = x: int | 0 <= x <= 2 witness 0
  const NO: tristate := 0
  const MOD: tristate := 1
  const YES: tristate := 2

  function Max(a: tristate, b: tristate): tristate { if a > b then a else b }
  function Min(a: tristate, b: tristate): tristate { if a < b then a else b }
  function Not(a: tristate): tristate { 2 - a }

  function TriName(t: tristate): string {
    if t == NO then "n" else if t == MOD then "m" else "y"
  }

  datatype SymType = SUnknown | SBoolean | STristate | SInt | SHex | SString | SOther

  // The names y, m and n always denote the three built-in symbols, so no
  // other interned constant carries one of them.
  type ConstName = s: string | s != "y" && s != "m" && s != "n" witness ""

  datatype Symbol =
    | SymYes
    | SymMod
    | SymNo
    | Const(text: ConstName)
    | Sym(name: string, stype: SymType)
  {
    function Type(): SymType {
      if Sym? then stype else SUnknown
    }

    // flags & SYMBOL_CONST, which is the union of the yes, mod and no bits
    predicate HasConstFlag() {
      !Sym?
    }

    // flags & (SYMBOL_YES | SYMBOL_NO)
    predicate HasYesOrNoFlag() {
      SymYes? || SymNo? || Const?
    }
  }

  datatype Expr =
    | ESymbol(sym: Symbol)
    | ENot(e: Expr)
    | EAnd(l: Expr, r: Expr)
    | EOr(l: Expr, r: Expr)
    | EEqual(sl: Symbol, sr: Symbol)
    | EUnequal(sl: Symbol, sr: Symbol)

  datatype Option<+T> = None | Some(value: T)

  const ExprYes := ESymbol(SymYes)
  const ExprNo := ESymbol(SymNo)

  predicate IsYN(e: Expr) { e == ExprYes || e == ExprNo }

  // What sym_calc_value has left in each symbol: its tristate value and the
  // string sym_get_string_value returns for it.
  datatype Env = Env(tri: Symbol -> tristate, str: Symbol -> string)

  ghost predicate SymbolOk(env: Env, s: Symbol) {
    match s
    case SymYes => env.tri(s) == YES && env.str(s) == "y"
    case SymMod => env.tri(s) == MOD && env.str(s) == "m"
    case SymNo => env.tri(s) == NO && env.str(s) == "n"
    case Const(text) => env.tri(s) == NO && env.str(s) == text
    case Sym(_, t) =>
      match t
      case SBoolean => env.tri(s) != MOD && env.str(s) == TriName(env.tri(s))
      case STristate => env.str(s) == TriName(env.tri(s))
      case _ => env.tri(s) == NO
  }

  ghost predicate ValidEnv(env: Env) {
    forall s: Symbol :: SymbolOk(env, s)
  }

  function Eval(e: Expr, env: Env): tristate {
    match e
    case ESymbol(s) => env.tri(s)
    case EAnd(l, r) => Min(Eval(l, env), Eval(r, env))
    case EOr(l, r) => Max(Eval(l, env), Eval(r, env))
    case ENot(x) => Not(Eval(x, env))
    case EEqual(a, b) => if env.str(a) == env.str(b) then YES else NO
    case EUnequal(a, b) => if env.str(a) == env.str(b) then NO else YES
  }

  // A null expression counts as y.
  function EvalOpt(e: Option<Expr>, env: Env): tristate {
    if e.None? then YES else Eval(e.value, env)
  }

  // Kleene's information order: m may be sharpened to n or y, nothing else changes.
  predicate Sharpens(was: tristate, now: tristate) {
    was == MOD || was == now
  }

  function Size(e: Expr): nat {
    match e
    case EAnd(l, r) => 1 + Size(l) + Size(r)
    case EOr(l, r) => 1 + Size(l) + Size(r)
    case ENot(x) => 1 + Size(x)
    case _ => 1
  }

  // The two associative connectives, as the rewriters pass them around.
  datatype Conn = And | Or {
    predicate Heads(e: Expr) {
      if And? then e.EAnd? else e.EOr?
    }

    function Make(l: Expr, r: Expr): Expr {
      if And? then EAnd(l, r) else EOr(l, r)
    }

    function Op(a: tristate, b: tristate): tristate {
      if And? then Min(a, b) else Max(a, b)
    }

    // The value that leaves the other operand as it is, and its symbol.
    function Unit(): tristate {
      if And? then YES else NO
    }

    function UnitExpr(): Expr {
      if And? then ExprYes else ExprNo
    }

    function Dual(): Conn {
      if And? then Or else And
    }
  }

  lemma OpLaws(c: Conn, a: tristate, b: tristate, x: tristate, y: tristate)
    ensures c.Op(c.Op(a, b), c.Op(x, y)) == c.Op(c.Op(a, x), c.Op(b, y))
    ensures c.Op(a, c.Op(b, x)) == c.Op(c.Op(a, b), x)
    ensures c.Op(a, b) == c.Op(b, a)
    ensures c.Op(a, c.Unit()) == a
  {
  }

  lemma EvalMake(c: Conn, l: Expr, r: Expr, env: Env)
    ensures Eval(c.Make(l, r), env) == c.Op(Eval(l, env), Eval(r, env))
  {
  }

  predicate IsConn(e: Expr) { e.EAnd? || e.EOr? }

  function ConnOf(e: Expr): Conn
    requires IsConn(e)
  {
    if e.EAnd? then And else Or
  }

  // Every symbol of e, the built-in ones included, is n or y.
  ghost predicate TwoValued(e: Expr, env: Env) {
    match e
    case ESymbol(s) => env.tri(s) != MOD
    case EAnd(l, r) => TwoValued(l, env) && TwoValued(r, env)
    case EOr(l, r) => TwoValued(l, env) && TwoValued(r, env)
    case ENot(x) => TwoValued(x, env)
    case _ => true
  }

  lemma TwoValuedIsDefinite(e: Expr, env: Env)
    requires TwoValued(e, env)
    ensures Eval(e, env) != MOD
  {
    match e
    case EAnd(l, r) => TwoValuedIsDefinite(l, env); TwoValuedIsDefinite(r, env);
    case EOr(l, r) => TwoValuedIsDefinite(l, env); TwoValuedIsDefinite(r, env);
    case ENot(x) => TwoValuedIsDefinite(x, env);
    case _ =>
  }
}
