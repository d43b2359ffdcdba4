// What sym_calc_value (pdk/config/symbol.c:137-324) computes for Boolean and
// tristate symbols outside choices: the recomputation from scratch against
// which cached values are judged.
module SymFresh {
  import opened KconfigExpr
  import opened SymbolTable

  // Everything a recomputation depends on: the symbols, modules_val, the
  // user's values and the symbols still marked SYMBOL_NEW.
  datatype Inputs = Inputs(conf: Config, modulesVal: tristate, user: map<Symbol, tristate>, isNew: set<Symbol>)

  // What is recomputed for one symbol.
  datatype Derived = Derived(visible: tristate, revDep: tristate, curr: tristate, write: bool)

  function Get(m: map<Symbol, tristate>, s: Symbol): tristate {
    if s in m then m[s] else NO
  }

  // sym_get_type, outside choices
  function EffectiveType(s: Symbol, modulesVal: tristate): SymType {
    if s.Type() == STristate && modulesVal == NO then SBoolean else s.Type()
  }

  predicate IsLogic(s: Symbol) {
    s.Type() == SBoolean || s.Type() == STristate
  }

  // sym_get_string_value, given the tristate value
  function StringValue(s: Symbol, t: tristate): string {
    match s
    case SymYes => "y"
    case SymMod => "m"
    case SymNo => "n"
    case Const(text) => text
    case Sym(name, _) => if IsLogic(s) then TriName(t) else name
  }

  function PromptsVisible(ps: seq<Property>, env: Env): tristate {
    if ps == [] then NO
    else Max(if ps[0].text then EvalOpt(ps[0].visible, env) else NO, PromptsVisible(ps[1..], env))
  }

  lemma {:induction false} PromptsVisibleStep(ps: seq<Property>, k: nat, env: Env)
    requires k < |ps|
    ensures PromptsVisible(ps[..k + 1], env) ==
      Max(PromptsVisible(ps[..k], env), if ps[k].text then EvalOpt(ps[k].visible, env) else NO)
  {
    if k == 0 {
      assert ps[..1][1..] == [];
    } else {
      PromptsVisibleStep(ps[1..], k - 1, env);
      assert ps[..k + 1][1..] == ps[1..][..k] && ps[..k][1..] == ps[1..][..k - 1];
    }
  }

  // The first default whose condition is not n.
  function FirstDefault(ps: seq<Property>, env: Env): Option<Property> {
    if ps == [] then None
    else if ps[0].ptype == PDefault && EvalOpt(ps[0].visible, env) != NO then Some(ps[0])
    else FirstDefault(ps[1..], env)
  }

  function Info(conf: Config, s: Symbol): SymbolInfo {
    if s in conf then conf[s] else SymbolInfo(None, [], false)
  }

  function VisibleOf(inp: Inputs, env: Env, s: Symbol): tristate {
    var t := PromptsVisible(Info(inp.conf, s).props, env);
    if t == MOD && (s.Type() != STristate || inp.modulesVal == NO) then YES else t
  }

  function RevDepOf(inp: Inputs, env: Env, s: Symbol): tristate {
    var e := Info(inp.conf, s).revDep;
    var t := if e.Some? then Eval(e.value, env) else NO;
    if t == MOD && EffectiveType(s, inp.modulesVal) == SBoolean then YES else t
  }

  function DefaultOf(inp: Inputs, env: Env, s: Symbol): tristate {
    var p := FirstDefault(Info(inp.conf, s).props, env);
    if p.Some? then EvalOpt(p.value.expr, env) else NO
  }

  // The value before the final promotion of m for a Boolean symbol.
  function RawOf(inp: Inputs, env: Env, s: Symbol): tristate {
    var vis, rev := VisibleOf(inp, env, s), RevDepOf(inp, env, s);
    if Max(vis, rev) != NO then
      Max(Min(if s !in inp.isNew then Get(inp.user, s) else DefaultOf(inp, env, s), vis), rev)
    else DefaultOf(inp, env, s)
  }

  function Compute(inp: Inputs, env: Env, s: Symbol): Derived {
    match s
    case SymYes => Derived(NO, NO, YES, false)
    case SymMod => Derived(NO, NO, MOD, false)
    case SymNo => Derived(NO, NO, NO, false)
    case _ =>
      if !IsLogic(s) then Derived(NO, NO, NO, false)
      else
        var vis, rev := VisibleOf(inp, env, s), RevDepOf(inp, env, s);
        var raw := RawOf(inp, env, s);
        Derived(vis, rev,
                if raw == MOD && EffectiveType(s, inp.modulesVal) == SBoolean then YES else raw,
                Max(vis, rev) != NO || FirstDefault(Info(inp.conf, s).props, env).Some?)
  }

  // ---------- recomputation from scratch ----------

  ghost predicate Acyclic(conf: Config, rank: Symbol -> nat) {
    forall s, d | d in Deps(conf, s) :: rank(d) < rank(s)
  }

  function MakeEnv(tri: Symbol -> tristate): Env {
    Env(tri, s => StringValue(s, tri(s)))
  }

  ghost function FreshTri(inp: Inputs, rank: Symbol -> nat, s: Symbol): tristate
    decreases rank(s)
  {
    Compute(inp, MakeEnv(t => if rank(t) < rank(s) then FreshTri(inp, rank, t) else NO), s).curr
  }

  ghost function FreshEnv(inp: Inputs, rank: Symbol -> nat): Env {
    MakeEnv(t => FreshTri(inp, rank, t))
  }

  ghost function Fresh(inp: Inputs, rank: Symbol -> nat, s: Symbol): Derived {
    Compute(inp, FreshEnv(inp, rank), s)
  }

  // ---------- a symbol's value depends on its dependencies only ----------

  ghost predicate Agree(ds: seq<Symbol>, a: Env, b: Env) {
    forall d | d in ds :: a.tri(d) == b.tri(d) && a.str(d) == b.str(d)
  }

  lemma {:induction false} EvalAgrees(e: Expr, a: Env, b: Env)
    requires Agree(ExprSymbols(e), a, b)
    ensures Eval(e, a) == Eval(e, b)
  {
    match e
    case EAnd(l, r) => EvalAgrees(l, a, b); EvalAgrees(r, a, b);
    case EOr(l, r) => EvalAgrees(l, a, b); EvalAgrees(r, a, b);
    case ENot(x) => EvalAgrees(x, a, b);
    case EEqual(s, t) => assert s in ExprSymbols(e) && t in ExprSymbols(e);
    case EUnequal(s, t) => assert s in ExprSymbols(e) && t in ExprSymbols(e);
    case ESymbol(s) => assert s in ExprSymbols(e);
  }

  lemma OptAgrees(e: Option<Expr>, a: Env, b: Env)
    requires Agree(OptSymbols(e), a, b)
    ensures EvalOpt(e, a) == EvalOpt(e, b)
  {
    if e.Some? { EvalAgrees(e.value, a, b); }
  }

  // Prompts and defaults are neither choice nor select properties.
  predicate PropsOk(ps: seq<Property>) {
    forall k | 0 <= k < |ps| :: ps[k].ptype == PChoice || ps[k].ptype == PSelect ==> !ps[k].text
  }

  lemma {:induction false} PropsAgree(ps: seq<Property>, a: Env, b: Env)
    requires Agree(PropsSymbols(ps, false), a, b) && PropsOk(ps)
    ensures PromptsVisible(ps, a) == PromptsVisible(ps, b)
    ensures FirstDefault(ps, a) == FirstDefault(ps, b)
    ensures FirstDefault(ps, a).Some? ==> EvalOpt(FirstDefault(ps, a).value.expr, a) == EvalOpt(FirstDefault(ps, a).value.expr, b)
  {
    if ps != [] {
      var p := ps[0];
      if p.ptype != PChoice && p.ptype != PSelect {
        assert forall d | d in OptSymbols(p.visible) :: d in PropSymbols(p, false);
        OptAgrees(p.visible, a, b);
        if p.ptype == PDefault {
          assert forall d | d in OptSymbols(p.expr) :: d in PropSymbols(p, false);
          OptAgrees(p.expr, a, b);
        }
      }
      PropsAgree(ps[1..], a, b);
    }
  }

  // Choices, and dependencies on symbols with a text value, are left out.
  ghost predicate ConfOk(conf: Config) {
    && (forall s | s in conf :: !conf[s].isChoice && PropsOk(conf[s].props))
    && (forall s, d | d in Deps(conf, s) :: !IsText(d))
  }

  predicate IsText(s: Symbol) {
    s.Type() == SInt || s.Type() == SHex || s.Type() == SString
  }

  lemma ComputeAgrees(inp: Inputs, a: Env, b: Env, s: Symbol)
    requires ConfOk(inp.conf) && Agree(Deps(inp.conf, s), a, b)
    ensures Compute(inp, a, s) == Compute(inp, b, s)
  {
    var info := Info(inp.conf, s);
    if s in inp.conf {
      assert forall d | d in OptSymbols(info.revDep) :: d in Deps(inp.conf, s);
      assert forall d | d in PropsSymbols(info.props, false) :: d in Deps(inp.conf, s);
    }
    OptAgrees(info.revDep, a, b);
    PropsAgree(info.props, a, b);
  }

  // Recomputing is a fixed point: each value is what its symbol's rule gives
  // when all others have theirs.
  lemma FreshIsFixedPoint(inp: Inputs, rank: Symbol -> nat, s: Symbol)
    requires ConfOk(inp.conf) && Acyclic(inp.conf, rank)
    ensures FreshTri(inp, rank, s) == Fresh(inp, rank, s).curr
  {
    var below := MakeEnv(t => if rank(t) < rank(s) then FreshTri(inp, rank, t) else NO);
    ComputeAgrees(inp, below, FreshEnv(inp, rank), s);
  }

  // It is the only one.
  lemma {:induction false} FixedPointUnique(inp: Inputs, rank: Symbol -> nat, env: Env, s: Symbol)
    requires ConfOk(inp.conf) && Acyclic(inp.conf, rank)
    requires forall t :: env.tri(t) == Compute(inp, env, t).curr && env.str(t) == StringValue(t, env.tri(t))
    ensures env.tri(s) == FreshTri(inp, rank, s)
    decreases rank(s)
  {
    forall d | d in Deps(inp.conf, s)
      ensures env.tri(d) == FreshTri(inp, rank, d)
    {
      FixedPointUnique(inp, rank, env, d);
    }
    ComputeAgrees(inp, env, FreshEnv(inp, rank), s);
    FreshIsFixedPoint(inp, rank, s);
  }

  // The values are those the expression rewriters are proved correct for.
  lemma FreshIsValid(inp: Inputs, rank: Symbol -> nat)
    requires ConfOk(inp.conf) && Acyclic(inp.conf, rank)
    ensures ValidEnv(FreshEnv(inp, rank))
  {
    var env := FreshEnv(inp, rank);
    forall s: Symbol ensures SymbolOk(env, s) {
      FreshIsFixedPoint(inp, rank, s);
    }
  }

  lemma FreshBuiltin(inp: Inputs, rank: Symbol -> nat, s: Symbol)
    requires s in {SymYes, SymMod, SymNo}
    ensures Fresh(inp, rank, s) ==
      Derived(NO, NO, if s == SymYes then YES else if s == SymMod then MOD else NO, false)
  {
  }

  // ---------- changing the user's value of one symbol ----------

  function Assigned(inp: Inputs, s: Symbol, v: tristate): Inputs {
    inp.(user := inp.user[s := v], isNew := inp.isNew - {s})
  }

  lemma OthersComputeAlike(inp: Inputs, env: Env, s: Symbol, v: tristate, t: Symbol)
    requires t != s
    ensures Compute(Assigned(inp, s, v), env, t) == Compute(inp, env, t)
  {
  }

  // Symbols of lower rank, and others of the same rank, do not notice.
  lemma {:induction false} AssignedBelow(inp: Inputs, rank: Symbol -> nat, s: Symbol, v: tristate, t: Symbol)
    requires ConfOk(inp.conf) && Acyclic(inp.conf, rank)
    requires t != s && rank(t) <= rank(s)
    ensures FreshTri(Assigned(inp, s, v), rank, t) == FreshTri(inp, rank, t)
    decreases rank(t)
  {
    var inp' := Assigned(inp, s, v);
    forall d | d in Deps(inp.conf, t)
      ensures FreshTri(inp', rank, d) == FreshTri(inp, rank, d)
    {
      AssignedBelow(inp, rank, s, v, d);
    }
    FreshIsFixedPoint(inp, rank, t);
    FreshIsFixedPoint(inp', rank, t);
    ComputeAgrees(inp, FreshEnv(inp, rank), FreshEnv(inp', rank), t);
    OthersComputeAlike(inp, FreshEnv(inp', rank), s, v, t);
  }

  // sym_tristate_within_range, outside choices
  predicate WithinRange(s: Symbol, modulesVal: tristate, d: Derived, v: tristate) {
    var ty := EffectiveType(s, modulesVal);
    && d.visible != NO
    && (ty == SBoolean || ty == STristate)
    && !(ty == SBoolean && v == MOD)
    && d.visible > d.revDep
    && d.revDep <= v <= d.visible
  }

  // The derived state of s itself after an assignment: visibility and reverse
  // dependency stay, the value follows the user's.
  lemma AssignedSelf(inp: Inputs, rank: Symbol -> nat, s: Symbol, v: tristate)
    requires ConfOk(inp.conf) && Acyclic(inp.conf, rank)
    ensures var inp' := Assigned(inp, s, v);
      Fresh(inp', rank, s) == Compute(inp', FreshEnv(inp, rank), s)
  {
    var inp' := Assigned(inp, s, v);
    forall d | d in Deps(inp.conf, s)
      ensures FreshTri(inp', rank, d) == FreshTri(inp, rank, d)
    {
      AssignedBelow(inp, rank, s, v, d);
    }
    ComputeAgrees(inp', FreshEnv(inp, rank), FreshEnv(inp', rank), s);
  }

  lemma AcceptRule(inp: Inputs, env: Env, s: Symbol, v: tristate)
    ensures var d := Compute(inp, env, s);
      d.curr == v || WithinRange(s, inp.modulesVal, d, v) <==> Compute(Assigned(inp, s, v), env, s).curr == v
  {
  }

  // An assignment is accepted exactly if the symbol then recomputes to it.
  lemma AcceptedIffEffective(inp: Inputs, rank: Symbol -> nat, s: Symbol, v: tristate)
    requires ConfOk(inp.conf) && Acyclic(inp.conf, rank)
    ensures FreshTri(inp, rank, s) == v || WithinRange(s, inp.modulesVal, Fresh(inp, rank, s), v)
      <==> FreshTri(Assigned(inp, s, v), rank, s) == v
  {
    FreshIsFixedPoint(inp, rank, s);
    FreshIsFixedPoint(Assigned(inp, s, v), rank, s);
    AssignedSelf(inp, rank, s, v);
    AcceptRule(inp, FreshEnv(inp, rank), s, v);
  }

  // Assigning v makes v the value of s.
  ghost predicate Effective(inp: Inputs, rank: Symbol -> nat, s: Symbol, v: tristate) {
    FreshTri(Assigned(inp, s, v), rank, s) == v
  }

  predicate EffectiveAt(inp: Inputs, env: Env, s: Symbol, v: tristate) {
    Compute(Assigned(inp, s, v), env, s).curr == v
  }

  // What an assignment of v comes to, from the visibility, the reverse dependency
  // and the default.
  function Settle(asBool: bool, vis: tristate, rev: tristate, byDefault: tristate, v: tristate): tristate {
    var raw := if Max(vis, rev) != NO then Max(Min(v, vis), rev) else byDefault;
    if raw == MOD && asBool then YES else raw
  }

  lemma AssignedValue(inp: Inputs, env: Env, s: Symbol, v: tristate)
    requires IsLogic(s)
    ensures Compute(Assigned(inp, s, v), env, s).curr ==
      Settle(EffectiveType(s, inp.modulesVal) == SBoolean, VisibleOf(inp, env, s), RevDepOf(inp, env, s), DefaultOf(inp, env, s), v)
  {
    hide PromptsVisible, FirstDefault;
  }

  lemma SettleRange(asBool: bool, vis: tristate, rev: tristate, d: tristate, v: tristate)
    requires asBool ==> vis != MOD && rev != MOD
    ensures (vis != NO && !(asBool && v == MOD) && vis > rev && rev <= v <= vis) <==>
      Settle(asBool, vis, rev, d, v) == v &&
      (Settle(asBool, vis, rev, d, (v + 1) % 3) == (v + 1) % 3 || Settle(asBool, vis, rev, d, (v + 2) % 3) == (v + 2) % 3)
  {
  }

  lemma RangeRule(inp: Inputs, env: Env, s: Symbol, v: tristate)
    ensures WithinRange(s, inp.modulesVal, Compute(inp, env, s), v) <==>
      EffectiveAt(inp, env, s, v) && (EffectiveAt(inp, env, s, (v + 1) % 3) || EffectiveAt(inp, env, s, (v + 2) % 3))
  {
    hide PromptsVisible, FirstDefault, RawOf, DefaultOf, Settle;
    if IsLogic(s) {
      AssignedValue(inp, env, s, v);
      AssignedValue(inp, env, s, (v + 1) % 3);
      AssignedValue(inp, env, s, (v + 2) % 3);
      SettleRange(EffectiveType(s, inp.modulesVal) == SBoolean, VisibleOf(inp, env, s), RevDepOf(inp, env, s),
                  DefaultOf(inp, env, s), v);
    }
  }

  // The range test passes exactly for a value that can be assigned where another
  // one can be, too.
  lemma InRangeIffChoice(inp: Inputs, rank: Symbol -> nat, s: Symbol, v: tristate)
    requires ConfOk(inp.conf) && Acyclic(inp.conf, rank)
    ensures WithinRange(s, inp.modulesVal, Fresh(inp, rank, s), v) <==>
      Effective(inp, rank, s, v) && exists u: tristate :: u != v && Effective(inp, rank, s, u)
  {
    hide Compute, WithinRange, Effective, EffectiveAt, ConfOk, Acyclic;
    EffectiveHere(inp, rank, s, v);
    EffectiveHere(inp, rank, s, (v + 1) % 3);
    EffectiveHere(inp, rank, s, (v + 2) % 3);
    RangeRule(inp, FreshEnv(inp, rank), s, v);
    if u: tristate :| u != v && Effective(inp, rank, s, u) { Others(u, v); }
  }

  lemma EffectiveHere(inp: Inputs, rank: Symbol -> nat, s: Symbol, v: tristate)
    requires ConfOk(inp.conf) && Acyclic(inp.conf, rank)
    ensures Effective(inp, rank, s, v) <==> EffectiveAt(inp, FreshEnv(inp, rank), s, v)
  {
    FreshIsFixedPoint(Assigned(inp, s, v), rank, s);
    AssignedSelf(inp, rank, s, v);
  }

  lemma Others(u: tristate, v: tristate)
    requires u != v
    ensures u == (v + 1) % 3 || u == (v + 2) % 3
  {
  }

  // Assigning the value a symbol already has changes nothing anywhere.
  lemma {:induction false} SameValueChangesNothing(inp: Inputs, rank: Symbol -> nat, s: Symbol, v: tristate, t: Symbol)
    requires ConfOk(inp.conf) && Acyclic(inp.conf, rank)
    requires FreshTri(inp, rank, s) == v
    ensures Fresh(Assigned(inp, s, v), rank, t) == Fresh(inp, rank, t)
    ensures FreshTri(Assigned(inp, s, v), rank, t) == FreshTri(inp, rank, t)
    decreases rank(t)
  {
    var inp' := Assigned(inp, s, v);
    forall d | d in Deps(inp.conf, t)
      ensures FreshTri(inp', rank, d) == FreshTri(inp, rank, d)
    {
      SameValueChangesNothing(inp, rank, s, v, d);
    }
    FreshIsFixedPoint(inp, rank, t);
    FreshIsFixedPoint(inp', rank, t);
    ComputeAgrees(inp', FreshEnv(inp, rank), FreshEnv(inp', rank), t);
    if t == s {
      SettledValue(inp, FreshEnv(inp, rank), s, v);
    } else {
      OthersComputeAlike(inp, FreshEnv(inp, rank), s, v, t);
    }
  }

  lemma SettledValue(inp: Inputs, env: Env, s: Symbol, v: tristate)
    requires Compute(inp, env, s).curr == v
    ensures Compute(Assigned(inp, s, v), env, s) == Compute(inp, env, s)
  {
  }
}
