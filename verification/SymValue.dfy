// The cache of symbol values behind SYMBOL_VALID: sym_calc_visibility,
// sym_calc_value, sym_clear_all_valid, sym_tristate_within_range and
// sym_set_tristate_value (pdk/config/symbol.c), for Boolean and tristate
// symbols outside choices and a fixed modules_val.
module SymValue {
  import opened KconfigExpr
  import opened SymbolTable
  import opened SymFresh

  // The fields sym_calc_value writes in each struct symbol, and SYMBOL_VALID.
  datatype Snapshot = Snapshot(valid: set<Symbol>, cells: map<Symbol, Derived>) {
    function Cached(s: Symbol): Derived {
      if s in cells then cells[s] else Derived(NO, NO, NO, false)
    }
  }

  // From rank r on nothing has been touched.
  ghost predicate SameFrom(rank: Symbol -> nat, r: nat, a: Snapshot, b: Snapshot) {
    forall t | rank(t) >= r :: (t in a.valid <==> t in b.valid) && a.Cached(t) == b.Cached(t)
  }

  // A solution of the whole configuration: what every symbol recomputes to.
  datatype World = World(env: Env, want: Symbol -> Derived)

  // Names the symbols for which the rules of a world are needed.
  ghost predicate Mark(s: Symbol) { true }

  ghost predicate Solves(w: World, inp: Inputs) {
    forall s {:trigger Mark(s)} ::
      && w.want(s) == Compute(inp, w.env, s)
      && w.env.tri(s) == w.want(s).curr
      && w.env.str(s) == StringValue(s, w.env.tri(s))
  }

  ghost function FreshWorld(inp: Inputs, rank: Symbol -> nat): (w: World)
    requires ConfOk(inp.conf) && Acyclic(inp.conf, rank)
    ensures Solves(w, inp)
  {
    var w := World(FreshEnv(inp, rank), s => Fresh(inp, rank, s));
    assert Solves(w, inp) by {
      forall s: Symbol
        ensures w.want(s) == Compute(inp, w.env, s) && w.env.tri(s) == w.want(s).curr &&
                w.env.str(s) == StringValue(s, w.env.tri(s))
      {
        FreshIsFixedPoint(inp, rank, s);
      }
    }
    w
  }

  // At the rank of s and above, nothing but s has been touched.
  ghost predicate OthersKept(rank: Symbol -> nat, s: Symbol, a: Snapshot, b: Snapshot) {
    forall t | t != s && rank(t) >= rank(s) :: (t in a.valid <==> t in b.valid) && a.Cached(t) == b.Cached(t)
  }

  lemma FreshBuiltins(inp: Inputs, rank: Symbol -> nat)
    requires ConfOk(inp.conf) && Acyclic(inp.conf, rank)
    ensures Fresh(inp, rank, SymYes) == Derived(NO, NO, YES, false)
    ensures Fresh(inp, rank, SymMod) == Derived(NO, NO, MOD, false)
    ensures Fresh(inp, rank, SymNo) == Derived(NO, NO, NO, false)
  {
  }

  datatype Op = Calc(s: Symbol) | Set(t: Symbol, v: tristate)

  class SymbolCache {
    const conf: Config
    const modulesVal: tristate
    ghost const rank: Symbol -> nat
    var user: map<Symbol, tristate>
    var isNew: set<Symbol>              // SYMBOL_NEW
    var valid: set<Symbol>              // SYMBOL_VALID
    var cells: map<Symbol, Derived>     // visible, rev_dep.tri, curr.tri and SYMBOL_WRITE
    var changeCount: nat                // sym_change_count

    constructor (conf: Config, modulesVal: tristate, user: map<Symbol, tristate>, isNew: set<Symbol>, ghost rank: Symbol -> nat)
      requires ConfOk(conf) && Acyclic(conf, rank)
      ensures this.conf == conf && this.modulesVal == modulesVal && this.rank == rank
      ensures Inp() == Inputs(conf, modulesVal, user, isNew)
      ensures AllOk() && valid == {SymYes, SymMod, SymNo}
    {
      hide Fresh, ConfOk, Acyclic;
      this.conf, this.modulesVal, this.rank := conf, modulesVal, rank;
      this.user, this.isNew := user, isNew;
      valid := {SymYes, SymMod, SymNo};
      cells := map[SymYes := Derived(NO, NO, YES, false), SymMod := Derived(NO, NO, MOD, false)];
      changeCount := 0;
      new;
      FreshBuiltins(Inp(), rank);
    }

    ghost function Inp(): Inputs
      reads this
    {
      Inputs(conf, modulesVal, user, isNew)
    }

    function Snap(): Snapshot
      reads this
    {
      Snapshot(valid, cells)
    }

    ghost predicate Setup() {
      ConfOk(conf) && Acyclic(conf, rank)
    }

    // The current contents of the struct of s
    function Cell(s: Symbol): Derived
      reads this
    {
      Snap().Cached(s)
    }

    // The built-in symbols are always valid, and nothing but n is stored for
    // any other symbol that is neither Boolean nor tristate.
    ghost predicate Tidy()
      reads this
    {
      && {SymYes, SymMod, SymNo} <= valid
      && forall s | !IsLogic(s) && s !in {SymYes, SymMod, SymNo} :: Cell(s) == Derived(NO, NO, NO, false)
    }

    // What is cached for a VALID symbol below rank r is what would be recomputed.
    ghost predicate OkBelow(r: nat, w: World)
      reads this
    {
      Tidy() && forall s | s in valid && rank(s) < r :: Cell(s) == w.want(s)
    }

    ghost predicate AllOk()
      reads this
    {
      Setup() && Tidy() && forall s | s in valid :: Cell(s) == Fresh(Inp(), rank, s)
    }

    // Where only s changed at its rank and above, and s is right, all is right again.
    lemma OkAgain(r: nat, s: Symbol, was: Snapshot, w: World)
      requires Setup() && Solves(w, Inp()) && rank(s) < r && OkBelow(rank(s), w) && Cell(s) == w.want(s)
      requires forall t | t in was.valid && rank(t) < r :: was.Cached(t) == w.want(t)
      requires OthersKept(rank, s, was, Snap())
      ensures OkBelow(r, w)
    {
    }

    method ExprCalcValue(e: Expr, ghost r: nat, ghost w: World) returns (t: tristate)
      requires Setup() && Solves(w, Inp()) && OkBelow(r, w)
      requires forall d | d in ExprSymbols(e) :: rank(d) < r && !IsText(d)
      modifies `valid, `cells
      ensures OkBelow(r, w) && valid >= old(valid) && SameFrom(rank, r, old(Snap()), Snap())
      ensures t == Eval(e, w.env)
      decreases r, 0, e
    {
      match e
      case ESymbol(s) =>
        t := SymTristate(s, r, w);
      case EAnd(a, b) =>
        var val1 := ExprCalcValue(a, r, w);
        var val2 := ExprCalcValue(b, r, w);
        t := Min(val1, val2);
      case EOr(a, b) =>
        var val1 := ExprCalcValue(a, r, w);
        var val2 := ExprCalcValue(b, r, w);
        t := Max(val1, val2);
      case ENot(a) =>
        var val1 := ExprCalcValue(a, r, w);
        t := Not(val1);
      case EEqual(a, b) =>
        var val1 := SymTristate(a, r, w);
        var val2 := SymTristate(b, r, w);
        assert Mark(a) && Mark(b);
        t := if StringValue(a, val1) == StringValue(b, val2) then YES else NO;
      case EUnequal(a, b) =>
        var val1 := SymTristate(a, r, w);
        var val2 := SymTristate(b, r, w);
        assert Mark(a) && Mark(b);
        t := if StringValue(a, val1) == StringValue(b, val2) then NO else YES;
    }

    // sym_calc_value, then the current value, for a symbol below rank r
    method SymTristate(s: Symbol, ghost r: nat, ghost w: World) returns (t: tristate)
      requires Setup() && Solves(w, Inp()) && OkBelow(r, w) && rank(s) < r && !IsText(s)
      modifies `valid, `cells
      ensures OkBelow(r, w) && valid >= old(valid) && SameFrom(rank, r, old(Snap()), Snap())
      ensures t == w.env.tri(s)
      decreases rank(s), 4
    {
      ghost var was := Snap();
      SymCalcValue(s, w);
      OkAgain(r, s, was, w);
      assert Mark(s);
      t := Cell(s).curr;
    }

    method OptCalcValue(e: Option<Expr>, ghost r: nat, ghost w: World) returns (t: tristate)
      requires Setup() && Solves(w, Inp()) && OkBelow(r, w)
      requires forall d | d in OptSymbols(e) :: rank(d) < r && !IsText(d)
      modifies `valid, `cells
      ensures OkBelow(r, w) && valid >= old(valid) && SameFrom(rank, r, old(Snap()), Snap())
      ensures t == EvalOpt(e, w.env)
      decreases r, 1
    {
      if e.None? {
        return YES;
      }
      t := ExprCalcValue(e.value, r, w);
    }

    // Writing the struct of s; nothing below its rank is concerned.
    method Store(s: Symbol, d: Derived, ghost w: World)
      requires OkBelow(rank(s), w) && IsLogic(s)
      modifies `cells
      ensures OkBelow(rank(s), w) && Cell(s) == d
      ensures OthersKept(rank, s, old(Snap()), Snap())
    {
      cells := cells[s := d];
    }

    // The loop over all prompts
    method PromptVisibility(s: Symbol, ghost w: World) returns (tri: tristate)
      requires Setup() && Solves(w, Inp()) && OkBelow(rank(s), w)
      modifies `valid, `cells
      ensures OkBelow(rank(s), w) && valid >= old(valid) && SameFrom(rank, rank(s), old(Snap()), Snap())
      ensures tri == PromptsVisible(Info(conf, s).props, w.env)
      decreases rank(s), 2, 0
    {
      hide ConfOk, Acyclic, Solves;
      ghost var was := Snap();
      var props := Info(conf, s).props;
      tri := NO;
      var k := 0;
      while k < |props|
        invariant 0 <= k <= |props|
        invariant OkBelow(rank(s), w) && valid >= was.valid && SameFrom(rank, rank(s), was, Snap())
        invariant tri == PromptsVisible(props[..k], w.env)
      {
        PromptsVisibleStep(props, k, w.env);
        if props[k].text {
          PropReady(s, k);
          var t := OptCalcValue(props[k].visible, rank(s), w);
          tri := Max(tri, t);
        }
        k := k + 1;
      }
      assert props[..k] == props;
    }

    method SymCalcVisibility(s: Symbol, ghost w: World)
      requires Setup() && Solves(w, Inp()) && OkBelow(rank(s), w) && IsLogic(s)
      modifies `valid, `cells
      ensures OkBelow(rank(s), w) && valid >= old(valid)
      ensures OthersKept(rank, s, old(Snap()), Snap())
      ensures Cell(s) == old(Cell(s)).(visible := VisibleOf(Inp(), w.env, s), revDep := RevDepOf(Inp(), w.env, s))
      ensures s in valid <==> s in old(valid)
      decreases rank(s), 2, 1
    {
      var tri := PromptVisibility(s, w);
      if tri == MOD && (s.Type() != STristate || modulesVal == NO) {
        tri := YES;
      }
      Store(s, Cell(s).(visible := tri), w);
      SymCalcRevDep(s, w);
    }

    // The second half of sym_calc_visibility
    method SymCalcRevDep(s: Symbol, ghost w: World)
      requires Setup() && Solves(w, Inp()) && OkBelow(rank(s), w) && IsLogic(s)
      modifies `valid, `cells
      ensures OkBelow(rank(s), w) && valid >= old(valid)
      ensures OthersKept(rank, s, old(Snap()), Snap())
      ensures Cell(s) == old(Cell(s)).(revDep := RevDepOf(Inp(), w.env, s))
      ensures s in valid <==> s in old(valid)
      decreases rank(s), 2, 0
    {
      var tri: tristate := NO;
      var info := Info(conf, s);
      if info.revDep.Some? {
        RevDepReady(s);
        tri := ExprCalcValue(info.revDep.value, rank(s), w);
      }
      if tri == MOD && EffectiveType(s, modulesVal) == SBoolean {
        tri := YES;
      }
      Store(s, Cell(s).(revDep := tri), w);
    }

    // The symbols a prompt or default looks at.
    lemma PropReady(s: Symbol, k: nat)
      requires Setup() && k < |Info(conf, s).props|
      requires Info(conf, s).props[k].text || Info(conf, s).props[k].ptype == PDefault
      ensures var p := Info(conf, s).props[k];
        && (forall d | d in OptSymbols(p.visible) :: rank(d) < rank(s) && !IsText(d))
        && (p.ptype == PDefault ==> forall d | d in OptSymbols(p.expr) :: rank(d) < rank(s) && !IsText(d))
    {
      var p := Info(conf, s).props[k];
      VisibleInProp(p, false);
      if p.ptype == PDefault { DefaultInProp(p); }
      forall d | d in PropSymbols(p, false) ensures rank(d) < rank(s) && !IsText(d) {
        PropInDeps(conf, s, k, d);
      }
    }

    // sym_get_default_prop
    method SymGetDefaultProp(s: Symbol, ghost w: World) returns (p: Option<Property>)
      requires Setup() && Solves(w, Inp()) && OkBelow(rank(s), w)
      modifies `valid, `cells
      ensures OkBelow(rank(s), w) && valid >= old(valid) && SameFrom(rank, rank(s), old(Snap()), Snap())
      ensures p == FirstDefault(Info(conf, s).props, w.env)
      ensures p.Some? ==> forall d | d in OptSymbols(p.value.expr) :: rank(d) < rank(s) && !IsText(d)
      decreases rank(s), 2, 0
    {
      ghost var was := Snap();
      ghost var env := w.env;
      var props := Info(conf, s).props;
      var k := 0;
      while k < |props|
        invariant 0 <= k <= |props|
        invariant OkBelow(rank(s), w) && valid >= was.valid && SameFrom(rank, rank(s), was, Snap())
        invariant FirstDefault(props, env) == FirstDefault(props[k..], env)
      {
        assert props[k..][0] == props[k] && props[k..][1..] == props[k + 1..];
        if props[k].ptype == PDefault {
          PropReady(s, k);
          var t := OptCalcValue(props[k].visible, rank(s), w);
          if t != NO {
            return Some(props[k]);
          }
        }
        k := k + 1;
      }
      p := None;
    }

    // The value and everything cached beside it; no other symbol at or above
    // the rank of s is touched.
    method SymCalcValue(s: Symbol, ghost w: World)
      requires Setup() && Solves(w, Inp()) && OkBelow(rank(s), w) && !IsText(s)
      requires s in valid ==> Cell(s) == w.want(s)
      modifies `valid, `cells
      ensures OkBelow(rank(s), w) && s in valid && valid >= old(valid)
      ensures Cell(s) == w.want(s)
      ensures OthersKept(rank, s, old(Snap()), Snap())
      decreases rank(s), 3
    {
      hide VisibleOf, RevDepOf, RawOf, DefaultOf, FirstDefault, ConfOk, Acyclic;
      assert Mark(s);
      if s in valid {
        return;
      }
      valid := valid + {s};
      if !IsLogic(s) {
        cells := cells[s := Cell(s).(curr := NO)];
        return;
      }
      Store(s, Cell(s).(write := false), w);
      SymCalcVisibility(s, w);
      Store(s, Cell(s).(curr := NO), w);
      var newval := NewTristate(s, w);
      if newval == MOD && EffectiveType(s, modulesVal) == SBoolean {
        newval := YES;
      }
      Store(s, Cell(s).(curr := newval), w);
    }

    // The value of s from its visibility and reverse dependency, which have just
    // been computed, and whether s is to be written.
    method NewTristate(s: Symbol, ghost w: World) returns (newval: tristate)
      requires Setup() && Solves(w, Inp()) && OkBelow(rank(s), w) && IsLogic(s)
      requires Cell(s).visible == VisibleOf(Inp(), w.env, s) && Cell(s).revDep == RevDepOf(Inp(), w.env, s)
      requires !Cell(s).write
      modifies `valid, `cells
      ensures OkBelow(rank(s), w) && valid >= old(valid)
      ensures OthersKept(rank, s, old(Snap()), Snap())
      ensures newval == RawOf(Inp(), w.env, s)
      ensures Cell(s) == old(Cell(s)).(write := Max(Cell(s).visible, Cell(s).revDep) != NO ||
                                                FirstDefault(Info(conf, s).props, w.env).Some?)
      ensures s in valid <==> s in old(valid)
      decreases rank(s), 2, 3
    {
      newval := NO;
      if Max(Cell(s).visible, Cell(s).revDep) != NO {
        Store(s, Cell(s).(write := true), w);
        newval := ChosenValue(s, w);
        newval := Max(Min(newval, Cell(s).visible), Cell(s).revDep);
      } else {
        newval := HiddenValue(s, w);
      }
    }

    // The user's value, or the default while there is none
    method ChosenValue(s: Symbol, ghost w: World) returns (t: tristate)
      requires Setup() && Solves(w, Inp()) && OkBelow(rank(s), w)
      modifies `valid, `cells
      ensures OkBelow(rank(s), w) && valid >= old(valid) && SameFrom(rank, rank(s), old(Snap()), Snap())
      ensures t == if s !in isNew then Get(user, s) else DefaultOf(Inp(), w.env, s)
      decreases rank(s), 2, 2
    {
      if s !in isNew {
        t := Get(user, s);
      } else {
        t := DefaultValue(s, w);
      }
    }

    // A symbol nobody can set has the value of its default and is written only
    // if it has one.
    method HiddenValue(s: Symbol, ghost w: World) returns (t: tristate)
      requires Setup() && Solves(w, Inp()) && OkBelow(rank(s), w) && IsLogic(s)
      modifies `valid, `cells
      ensures OkBelow(rank(s), w) && valid >= old(valid)
      ensures OthersKept(rank, s, old(Snap()), Snap())
      ensures t == DefaultOf(Inp(), w.env, s)
      ensures Cell(s) == if FirstDefault(Info(conf, s).props, w.env).Some? then old(Cell(s)).(write := true) else old(Cell(s))
      ensures s in valid <==> s in old(valid)
      decreases rank(s), 2, 2
    {
      t := NO;
      var prop := SymGetDefaultProp(s, w);
      if prop.Some? {
        Store(s, Cell(s).(write := true), w);
        t := OptCalcValue(prop.value.expr, rank(s), w);
      }
    }

    // The value of the first visible default, n if there is none.
    method DefaultValue(s: Symbol, ghost w: World) returns (t: tristate)
      requires Setup() && Solves(w, Inp()) && OkBelow(rank(s), w)
      modifies `valid, `cells
      ensures OkBelow(rank(s), w) && valid >= old(valid) && SameFrom(rank, rank(s), old(Snap()), Snap())
      ensures t == DefaultOf(Inp(), w.env, s)
      decreases rank(s), 2, 1
    {
      t := NO;
      var prop := SymGetDefaultProp(s, w);
      if prop.Some? {
        t := OptCalcValue(prop.value.expr, rank(s), w);
      }
    }

    lemma RevDepReady(s: Symbol)
      requires Setup()
      ensures forall d | d in OptSymbols(Info(conf, s).revDep) :: rank(d) < rank(s) && !IsText(d)
    {
      if s in conf { RevDepInDeps(conf, s); }
    }

    // ---------- entry points ----------

    // sym_calc_value called from outside: every VALID symbol stays right, and s
    // becomes one of them.
    method CalcValue(s: Symbol)
      requires AllOk() && !IsText(s)
      modifies `valid, `cells
      ensures AllOk() && s in valid && valid >= old(valid)
      ensures Cell(s) == Fresh(Inp(), rank, s)
    {
      hide Fresh, ConfOk, Acyclic, Solves;
      ghost var w := AWorld();
      SymCalcValue(s, w);
      WorldOk(w);
    }

    lemma AWorld() returns (w: World)
      requires AllOk()
      ensures Setup() && Solves(w, Inp()) && OkIn(w)
      ensures forall s :: w.want(s) == Fresh(Inp(), rank, s)
    {
      w := FreshWorld(Inp(), rank);
    }

    // All VALID symbols are right with respect to w.
    ghost predicate OkIn(w: World)
      reads this
    {
      Tidy() && forall s | s in valid :: Cell(s) == w.want(s)
    }

    lemma WorldOk(w: World)
      requires Setup() && OkIn(w) && forall s :: w.want(s) == Fresh(Inp(), rank, s)
      ensures AllOk()
    {
    }

    // sym_clear_all_valid: the built-in symbols are in no list and stay VALID.
    method SymClearAllValid()
      modifies `valid, `changeCount
      ensures valid == {SymYes, SymMod, SymNo} && changeCount == old(changeCount) + 1
    {
      valid := {SymYes, SymMod, SymNo};
      changeCount := changeCount + 1;
    }

    method SymTristateWithinRange(s: Symbol, v: tristate) returns (ok: bool)
      ensures ok == WithinRange(s, modulesVal, Cell(s), v)
    {
      var ty := EffectiveType(s, modulesVal);
      if Cell(s).visible == NO {
        return false;
      }
      if ty != SBoolean && ty != STristate {
        return false;
      }
      if ty == SBoolean && v == MOD {
        return false;
      }
      if Cell(s).visible <= Cell(s).revDep {
        return false;
      }
      return v >= Cell(s).revDep && v <= Cell(s).visible;
    }

    // sym_set_tristate_value, where w is what recomputation gives before the
    // assignment and w' what it gives after it: either nothing is VALID any more
    // but the built-in symbols, or s has the value already.
    method SymSetTristateValue(s: Symbol, v: tristate, ghost w: World, ghost w': World) returns (ok: bool)
      requires OkIn(w) && s in valid
      requires w.want(s).curr == v ==> forall t :: w'.want(t) == w.want(t)
      requires forall t | t in {SymYes, SymMod, SymNo} :: w'.want(t) == w.want(t)
      modifies `valid, `user, `isNew, `changeCount
      ensures OkIn(if ok then w' else w)
      ensures ok <==> Cell(s).curr == v || WithinRange(s, modulesVal, Cell(s), v)
      ensures Inp() == if ok then Assigned(old(Inp()), s, v) else old(Inp())
      ensures valid == if ok && v != Cell(s).curr then {SymYes, SymMod, SymNo} else old(valid)
    {
      var oldval := Cell(s).curr;
      if oldval != v {
        var within := SymTristateWithinRange(s, v);
        if !within {
          return false;
        }
      }
      isNew := isNew - {s};
      user := user[s := v];
      if oldval != v {
        SymClearAllValid();
      }
      return true;
    }

    // An assignment to a VALID symbol is accepted exactly if the symbol then
    // recomputes to it, and afterwards every VALID symbol is right for the new
    // user value.
    method Assign(s: Symbol, v: tristate) returns (ok: bool)
      requires AllOk() && s in valid
      modifies `valid, `user, `isNew, `changeCount
      ensures AllOk()
      ensures ok <==> FreshTri(Assigned(old(Inp()), s, v), rank, s) == v
      ensures Inp() == if ok then Assigned(old(Inp()), s, v) else old(Inp())
      ensures ok && v != old(Cell(s)).curr ==> valid == {SymYes, SymMod, SymNo}
    {
      hide FreshTri, Fresh, ConfOk, Acyclic, WithinRange, Solves;
      ghost var w, w', effective := BeforeAndAfter(s, v);
      ok := SymSetTristateValue(s, v, w, w');
      WorldOk(if ok then w' else w);
    }

    lemma BeforeAndAfter(s: Symbol, v: tristate) returns (w: World, w': World, effective: bool)
      requires AllOk() && s in valid
      ensures OkIn(w) && Setup()
      ensures w.want(s).curr == v ==> forall t :: w'.want(t) == w.want(t)
      ensures forall t | t in {SymYes, SymMod, SymNo} :: w'.want(t) == w.want(t)
      ensures forall t :: w.want(t) == Fresh(Inp(), rank, t)
      ensures forall t :: w'.want(t) == Fresh(Assigned(Inp(), s, v), rank, t)
      ensures effective <==> FreshTri(Assigned(Inp(), s, v), rank, s) == v
      ensures effective <==> Cell(s).curr == v || WithinRange(s, modulesVal, Cell(s), v)
    {
      w := AWorld();
      w' := FreshWorld(Assigned(Inp(), s, v), rank);
      effective := FreshTri(Assigned(Inp(), s, v), rank, s) == v;
      FreshIsFixedPoint(Inp(), rank, s);
      AcceptedIffEffective(Inp(), rank, s, v);
      forall t | t in {SymYes, SymMod, SymNo} ensures w'.want(t) == w.want(t) {
        FreshBuiltin(Inp(), rank, t);
        FreshBuiltin(Assigned(Inp(), s, v), rank, t);
      }
      if w.want(s).curr == v {
        forall t ensures w'.want(t) == w.want(t) {
          SameValueChangesNothing(Inp(), rank, s, v, t);
        }
      }
    }

    // Any run of evaluations, in any order, and of assignments to VALID symbols.
    method Run(ops: seq<Op>)
      requires AllOk()
      modifies this
      ensures AllOk()
    {
      for k := 0 to |ops|
        invariant AllOk()
      {
        match ops[k]
        case Calc(s) =>
          if !IsText(s) { CalcValue(s); }
        case Set(t, v) =>
          if t in valid { var ok := Assign(t, v); }
      }
    }
  }
}
