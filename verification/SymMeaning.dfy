// The value sym_calc_value gives a Boolean or tristate symbol
// (pdk/config/symbol.c:111-283), said of its properties in their order and of the
// values of their expressions when every symbol has its own value.
module SymMeaning {
  import opened KconfigExpr
  import opened SymbolTable
  import opened SymFresh

  // m is no value of a Boolean symbol, nor of a tristate one without modules.
  predicate ReadsAsBool(inp: Inputs, s: Symbol) {
    s.Type() == SBoolean || inp.modulesVal == NO
  }

  function Promoted(inp: Inputs, s: Symbol, t: tristate): tristate {
    if t == MOD && ReadsAsBool(inp, s) then YES else t
  }

  // The k-th property is a default whose condition is not n.
  predicate Applies(ps: seq<Property>, k: nat, env: Env) {
    k < |ps| && ps[k].ptype == PDefault && EvalOpt(ps[k].visible, env) != NO
  }

  predicate NoneApplies(ps: seq<Property>, k: nat, env: Env) {
    forall j: nat | j < k :: !Applies(ps, j, env)
  }

  // t is the largest condition of a prompt, n if there is none.
  ghost predicate LargestPrompt(ps: seq<Property>, t: tristate, env: Env) {
    && (forall j | 0 <= j < |ps| && ps[j].text :: EvalOpt(ps[j].visible, env) <= t)
    && (t != NO ==> exists j :: 0 <= j < |ps| && ps[j].text && EvalOpt(ps[j].visible, env) == t)
  }

  // The value of the reverse dependency, n without one.
  function Selected(inp: Inputs, s: Symbol, env: Env): tristate {
    if s in inp.conf && inp.conf[s].revDep.Some? then Promoted(inp, s, Eval(inp.conf[s].revDep.value, env)) else NO
  }

  function PropsOf(conf: Config, s: Symbol): seq<Property> {
    if s in conf then conf[s].props else []
  }

  // v bounded above by the prompts and below by what selects the symbol, unless
  // nothing of either shows it.
  function Bounded(v: tristate, prompts: tristate, selected: tristate): tristate {
    if prompts == NO && selected == NO then v else Max(Min(v, prompts), selected)
  }

  // ---------- the parts ----------

  lemma {:induction false} PromptsAre(ps: seq<Property>, t: tristate, env: Env)
    requires LargestPrompt(ps, t, env)
    ensures PromptsVisible(ps, env) == t
  {
    PromptsAreLargest(ps, env);
    var u := PromptsVisible(ps, env);
    if t != NO { var j :| 0 <= j < |ps| && ps[j].text && EvalOpt(ps[j].visible, env) == t; }
    if u != NO { var j :| 0 <= j < |ps| && ps[j].text && EvalOpt(ps[j].visible, env) == u; }
  }

  lemma {:induction false} PromptsAreLargest(ps: seq<Property>, env: Env)
    ensures LargestPrompt(ps, PromptsVisible(ps, env), env)
  {
    if ps != [] {
      PromptsAreLargest(ps[1..], env);
      var t, u := PromptsVisible(ps, env), PromptsVisible(ps[1..], env);
      forall j | 0 <= j < |ps| && ps[j].text ensures EvalOpt(ps[j].visible, env) <= t {
        if j > 0 { assert ps[1..][j - 1] == ps[j]; }
      }
      if t != NO && !(ps[0].text && EvalOpt(ps[0].visible, env) == t) {
        var j :| 0 <= j < |ps[1..]| && ps[1..][j].text && EvalOpt(ps[1..][j].visible, env) == u;
        assert ps[j + 1] == ps[1..][j];
      }
    }
  }

  lemma {:induction false} FirstDefaultIs(ps: seq<Property>, k: nat, env: Env)
    requires k <= |ps| && NoneApplies(ps, k, env) && (k < |ps| ==> Applies(ps, k, env))
    ensures FirstDefault(ps, env) == if k < |ps| then Some(ps[k]) else None
    decreases |ps|
  {
    if k > 0 {
      assert !Applies(ps, 0, env);
      forall j: nat | j < k - 1 ensures !Applies(ps[1..], j, env) { assert !Applies(ps, j + 1, env); }
      if k < |ps| { assert ps[1..][k - 1] == ps[k]; }
      FirstDefaultIs(ps[1..], k - 1, env);
    }
  }

  lemma {:induction false} LeastDefault(ps: seq<Property>, env: Env) returns (k: nat)
    ensures k <= |ps| && NoneApplies(ps, k, env) && (k < |ps| ==> Applies(ps, k, env))
  {
    k := 0;
    while k < |ps| && !Applies(ps, k, env)
      invariant k <= |ps| && NoneApplies(ps, k, env)
    {
      k := k + 1;
    }
  }

  lemma SelectedIs(inp: Inputs, s: Symbol, env: Env)
    requires IsLogic(s)
    ensures RevDepOf(inp, env, s) == Selected(inp, s, env)
  {
  }

  lemma PromptsOf(inp: Inputs, s: Symbol, t: tristate, env: Env)
    requires IsLogic(s) && LargestPrompt(PropsOf(inp.conf, s), t, env)
    ensures VisibleOf(inp, env, s) == Promoted(inp, s, t)
  {
    PromptsAre(PropsOf(inp.conf, s), t, env);
  }

  // ---------- the value ----------

  ghost predicate Setting(inp: Inputs, rank: Symbol -> nat, s: Symbol) {
    ConfOk(inp.conf) && Acyclic(inp.conf, rank) && IsLogic(s)
  }

  // What is stored beside the value: the visibility is the largest condition of a
  // prompt, the reverse dependency its value; a symbol is written exactly if one of
  // them is not n or a default applies.
  lemma StoredMeans(inp: Inputs, rank: Symbol -> nat, s: Symbol, t: tristate, k: nat)
    requires Setting(inp, rank, s)
    requires var env, ps := FreshEnv(inp, rank), PropsOf(inp.conf, s);
      LargestPrompt(ps, t, env) && k <= |ps| && NoneApplies(ps, k, env) && (k < |ps| ==> Applies(ps, k, env))
    ensures var d := Fresh(inp, rank, s);
      && d.visible == Promoted(inp, s, t)
      && d.revDep == Selected(inp, s, FreshEnv(inp, rank))
      && (d.write <==> t != NO || d.revDep != NO || k < |PropsOf(inp.conf, s)|)
  {
    hide PromptsVisible, FirstDefault, RevDepOf, VisibleOf, ConfOk, Acyclic;
    var env := FreshEnv(inp, rank);
    PromptsOf(inp, s, t, env);
    SelectedIs(inp, s, env);
    FirstDefaultIs(PropsOf(inp.conf, s), k, env);
  }

  // Nothing set by the user, no default that applies: the reverse dependency.
  lemma NoDefaultMeans(inp: Inputs, rank: Symbol -> nat, s: Symbol)
    requires Setting(inp, rank, s) && s in inp.isNew
    requires NoneApplies(PropsOf(inp.conf, s), |PropsOf(inp.conf, s)|, FreshEnv(inp, rank))
    ensures FreshTri(inp, rank, s) == Selected(inp, s, FreshEnv(inp, rank))
  {
    hide PromptsVisible, FirstDefault, RevDepOf, ConfOk, Acyclic, Applies;
    var env := FreshEnv(inp, rank);
    FreshIsFixedPoint(inp, rank, s);
    SelectedIs(inp, s, env);
    FirstDefaultIs(PropsOf(inp.conf, s), |PropsOf(inp.conf, s)|, env);
  }

  // Otherwise the first default that applies, within the bounds.
  lemma DefaultMeans(inp: Inputs, rank: Symbol -> nat, s: Symbol, t: tristate, k: nat)
    requires Setting(inp, rank, s) && s in inp.isNew
    requires var env, ps := FreshEnv(inp, rank), PropsOf(inp.conf, s);
      LargestPrompt(ps, t, env) && NoneApplies(ps, k, env) && Applies(ps, k, env)
    ensures var env := FreshEnv(inp, rank);
      var v := EvalOpt(PropsOf(inp.conf, s)[k].expr, env);
      FreshTri(inp, rank, s) == Promoted(inp, s, Bounded(v, Promoted(inp, s, t), Selected(inp, s, env)))
  {
    hide PromptsVisible, FirstDefault, RevDepOf, VisibleOf, ConfOk, Acyclic;
    var env := FreshEnv(inp, rank);
    FreshIsFixedPoint(inp, rank, s);
    PromptsOf(inp, s, t, env);
    SelectedIs(inp, s, env);
    FirstDefaultIs(PropsOf(inp.conf, s), k, env);
  }

  function UnsetOf(inp: Inputs, s: Symbol): Inputs {
    inp.(isNew := inp.isNew + {s})
  }

  // A value set by the user counts only within the bounds; where they are both n
  // it is as if nothing had been set.
  lemma UserMeans(inp: Inputs, rank: Symbol -> nat, s: Symbol, t: tristate)
    requires Setting(inp, rank, s) && s !in inp.isNew
    requires LargestPrompt(PropsOf(inp.conf, s), t, FreshEnv(inp, rank))
    ensures var env := FreshEnv(inp, rank);
      var user, selected := Get(inp.user, s), Selected(inp, s, env);
      FreshTri(inp, rank, s) ==
        if t == NO && selected == NO then FreshTri(UnsetOf(inp, s), rank, s)
        else Promoted(inp, s, Max(Min(user, Promoted(inp, s, t)), selected))
  {
    hide PromptsVisible, FirstDefault, RevDepOf, VisibleOf, ConfOk, Acyclic;
    var env := FreshEnv(inp, rank);
    FreshIsFixedPoint(inp, rank, s);
    PromptsOf(inp, s, t, env);
    SelectedIs(inp, s, env);
    if t == NO && Selected(inp, s, env) == NO {
      Unset(inp, rank, s);
      UnsetAlike(inp, env, s, s);
    }
  }

  // The rule of u does not notice, or has nothing to take from the user.
  lemma UnsetAlike(inp: Inputs, env: Env, s: Symbol, u: Symbol)
    requires u != s || (VisibleOf(inp, env, u) == NO && RevDepOf(inp, env, u) == NO)
    ensures Compute(UnsetOf(inp, s), env, u).curr == Compute(inp, env, u).curr
  {
    hide PromptsVisible, FirstDefault;
  }

  // Forgetting the user's value changes no symbol below s.
  lemma {:induction false} UnsetBelow(inp: Inputs, rank: Symbol -> nat, s: Symbol, u: Symbol)
    requires ConfOk(inp.conf) && Acyclic(inp.conf, rank) && u != s && rank(u) <= rank(s)
    ensures FreshTri(UnsetOf(inp, s), rank, u) == FreshTri(inp, rank, u)
    decreases rank(u)
  {
    var unset := UnsetOf(inp, s);
    forall d | d in Deps(inp.conf, u) ensures FreshTri(unset, rank, d) == FreshTri(inp, rank, d) {
      UnsetBelow(inp, rank, s, d);
    }
    FreshIsFixedPoint(inp, rank, u);
    FreshIsFixedPoint(unset, rank, u);
    ComputeAgrees(inp, FreshEnv(inp, rank), FreshEnv(unset, rank), u);
    UnsetAlike(inp, FreshEnv(unset, rank), s, u);
  }

  lemma Unset(inp: Inputs, rank: Symbol -> nat, s: Symbol)
    requires Setting(inp, rank, s)
    ensures var unset, env := UnsetOf(inp, s), FreshEnv(inp, rank);
      FreshTri(unset, rank, s) == Compute(unset, env, s).curr
  {
    var unset := UnsetOf(inp, s);
    forall d | d in Deps(inp.conf, s) ensures FreshTri(unset, rank, d) == FreshTri(inp, rank, d) {
      UnsetBelow(inp, rank, s, d);
    }
    FreshIsFixedPoint(unset, rank, s);
    ComputeAgrees(unset, FreshEnv(inp, rank), FreshEnv(unset, rank), s);
  }

  // Whatever is set, what selects a symbol is a lower bound.
  lemma NeverBelowSelected(inp: Inputs, rank: Symbol -> nat, s: Symbol)
    requires Setting(inp, rank, s)
    ensures FreshTri(inp, rank, s) >= Selected(inp, s, FreshEnv(inp, rank))
  {
    hide PromptsVisible, FirstDefault, RevDepOf, VisibleOf, ConfOk, Acyclic;
    FreshIsFixedPoint(inp, rank, s);
    SelectedIs(inp, s, FreshEnv(inp, rank));
  }

  // A symbol that is only named has n as its value and its name as its string, so
  // it compares as the constant of that text.
  lemma UndefinedIsItsName(inp: Inputs, rank: Symbol -> nat, name: ConstName)
    requires ConfOk(inp.conf) && Acyclic(inp.conf, rank)
    ensures var s, env := Sym(name, SUnknown), FreshEnv(inp, rank);
      && FreshTri(inp, rank, s) == NO
      && Eval(EEqual(s, Const(name)), env) == YES
      && forall text: ConstName :: Eval(EEqual(s, Const(text)), env) == YES <==> text == name
  {
    FreshIsFixedPoint(inp, rank, Sym(name, SUnknown));
  }
}
