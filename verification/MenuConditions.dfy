// What menu_finalize does to the conditions of the entries (pdk/config/menu.c:198-317):
// which siblings depend on an entry, and what each entry's dependency and
// prompt visibility become.
module MenuConditions {
  import opened KconfigExpr
  import opened ExprTransform
  import opened MenuDeps
  import opened MenuTree

  // expr_contains_symbol
  predicate Contains(e: Option<Expr>, s: Symbol) {
    e.Some? && ContainsIn(e.value, s)
  }

  predicate ContainsIn(e: Expr, s: Symbol) {
    match e
    case EAnd(l, r) => ContainsIn(l, s) || ContainsIn(r, s)
    case EOr(l, r) => ContainsIn(l, s) || ContainsIn(r, s)
    case ESymbol(t) => t == s
    case EEqual(a, b) => a == s || b == s
    case EUnequal(a, b) => a == s || b == s
    case ENot(x) => ContainsIn(x, s)
  }

  // expr_depends_symbol
  predicate DependsOn(e: Option<Expr>, s: Symbol) {
    e.Some? && DependsIn(e.value, s)
  }

  predicate DependsIn(e: Expr, s: Symbol) {
    match e
    case EAnd(l, r) => DependsIn(l, s) || DependsIn(r, s)
    case ESymbol(t) => t == s
    case EEqual(a, b) => a == s && (b == SymYes || b == SymMod)
    case EUnequal(a, b) => a == s && b == SymNo
    case _ => false
  }

  // A null dependency is y for expr_is_yes, and contains no symbol.
  function VisibleOrDep(e: Entry): Option<Expr> {
    if e.prompt.Some? then e.prompt.value.visible else e.dep
  }

  // Whether the loop goes on to adopt the sibling with this condition (lines 257-271).
  predicate AdoptsEntry(sym: Symbol, basedep: Option<Expr>, dep: Option<Expr>) {
    && Contains(dep, sym)
    && (DependsOn(dep, sym) ||
        (Tested(basedep).Some? && Tested(dep).Some? && Adopts(Tested(basedep).value, Tested(dep).value)))
  }

  // The condition the children of an entry inherit (lines 218-222).
  function ParentDep(e: Entry, choices: set<Symbol>): Option<Expr> {
    if e.sym.Some? && e.sym.value in choices then Some(ESymbol(e.sym.value))
    else if e.prompt.Some? then e.prompt.value.visible
    else e.dep
  }

  // The dependency and prompt visibility of a child (lines 225-241).
  function Simplified(e: Entry, parentdep: Option<Expr>): Entry {
    var basedep := BaseDep(parentdep, e.dep);
    var tristateSymbol := e.sym.None? || e.sym.value.Type() == STristate;
    e.(dep := basedep,
       prompt := if e.prompt.None? then None
                 else Some(e.prompt.value.(visible := PropertyVisible(basedep, e.prompt.value.visible, tristateSymbol))))
  }

  // Symbol, prompt and dependency of an entry, as opposed to its links.
  predicate SameCondition(a: Entry, b: Entry) {
    a.sym == b.sym && a.prompt == b.prompt && a.dep == b.dep
  }

  // f, the children of an entry whose condition is dep, has been simplified, and
  // so has everything below it, each entry by its own parent and exactly once.
  predicate SimplifiedUnder(h: Heap, h': Heap, f: Forest, dep: Option<Expr>, choices: set<Symbol>) {
    f.Cons? ==>
      && f.id in h && f.id in h' && SameCondition(h'[f.id], Simplified(h[f.id], dep))
      && SimplifiedUnder(h, h', f.kids, ParentDep(h'[f.id], choices), choices)
      && SimplifiedUnder(h, h', f.rest, dep, choices)
  }

  // The entries of the chain keep their own conditions; what is below them has
  // been simplified.
  predicate SimplifiedBelow(h: Heap, h': Heap, f: Forest, choices: set<Symbol>) {
    f.Cons? ==>
      && f.id in h && f.id in h' && SameCondition(h'[f.id], h[f.id])
      && SimplifiedUnder(h, h', f.kids, ParentDep(h'[f.id], choices), choices)
      && SimplifiedBelow(h, h', f.rest, choices)
  }

  // No entry in ids loses its condition.
  predicate Kept(h: Heap, h': Heap, ids: seq<Id>) {
    forall id | id in ids && id in h :: id in h' && SameCondition(h[id], h'[id])
  }

  // The chain itself, without what is below it.
  function Chain(f: Forest): seq<Id> {
    if f.Nil? then [] else [f.id] + Chain(f.rest)
  }

  lemma {:induction false} UnderFrame(h: Heap, h': Heap, k: Heap, k': Heap, f: Forest, dep: Option<Expr>, choices: set<Symbol>)
    requires SimplifiedUnder(h, h', f, dep, choices) && Kept(h, k, Preorder(f)) && Kept(h', k', Preorder(f))
    ensures SimplifiedUnder(k, k', f, dep, choices)
  {
    if f.Cons? {
      assert f.id in Preorder(f);
      UnderFrame(h, h', k, k', f.kids, ParentDep(h'[f.id], choices), choices);
      UnderFrame(h, h', k, k', f.rest, dep, choices);
    }
  }

  lemma {:induction false} BelowFrame(h: Heap, h': Heap, k: Heap, k': Heap, f: Forest, choices: set<Symbol>)
    requires SimplifiedBelow(h, h', f, choices) && Kept(h, k, Preorder(f)) && Kept(h', k', Preorder(f))
    ensures SimplifiedBelow(k, k', f, choices)
  {
    if f.Cons? {
      assert f.id in Preorder(f);
      UnderFrame(h, h', k, k', f.kids, ParentDep(h'[f.id], choices), choices);
      BelowFrame(h, h', k, k', f.rest, choices);
    }
  }

  lemma {:induction false} BelowAppend(h: Heap, h': Heap, f: Forest, g: Forest, choices: set<Symbol>)
    requires SimplifiedBelow(h, h', f, choices) && SimplifiedBelow(h, h', g, choices)
    ensures SimplifiedBelow(h, h', Append(f, g), choices)
  {
    if f.Cons? { BelowAppend(h, h', f.rest, g, choices); }
  }

  // The chain has been simplified, the entries below it have not changed yet.
  predicate ChainSimplified(h: Heap, h': Heap, f: Forest, dep: Option<Expr>) {
    f.Cons? ==>
      && f.id in h && f.id in h' && h'[f.id] == Simplified(h[f.id], dep)
      && Kept(h', h, Preorder(f.kids))
      && ChainSimplified(h, h', f.rest, dep)
  }

  lemma {:induction false} ChainStep(h: Heap, was: Heap, h': Heap, done: Forest, m: Id, kids: Forest, dep: Option<Expr>)
    requires ChainSimplified(h, was, done, dep) && m in h && m in was && was[m] == h[m]
    requires h' == was[m := Simplified(h[m], dep)]
    requires m !in Preorder(done) && m !in Preorder(kids) && Kept(was, h, Preorder(kids))
    ensures ChainSimplified(h, h', Append(done, Cons(m, kids, Nil)), dep)
  {
    if done.Cons? {
      assert done.id in Preorder(done);
      ChainStep(h, was, h', done.rest, m, kids, dep);
    }
  }

  // First the children, then what is below each of them.
  lemma {:induction false} UnderFromBelow(h: Heap, mid: Heap, h': Heap, f: Forest, dep: Option<Expr>, choices: set<Symbol>)
    requires ChainSimplified(h, mid, f, dep) && SimplifiedBelow(mid, h', f, choices)
    ensures SimplifiedUnder(h, h', f, dep, choices)
  {
    if f.Cons? {
      UnderFrame(mid, h', h, h', f.kids, ParentDep(h'[f.id], choices), choices);
      UnderFromBelow(h, mid, h', f.rest, dep, choices);
    }
  }

  // Finalizing the head of f has worked on the head, what was below it, and the
  // siblings taken into it: their conditions are now simplified. The chain goes
  // on with the siblings left over, which have not been touched.
  ghost predicate Took(h: Heap, h': Heap, f: Forest, g: Forest, taken: Forest, choices: set<Symbol>) {
    && f.Cons? && g.Cons? && g.id == f.id
    && f.rest == Append(taken, g.rest)
    && Preorder(g.kids) == Preorder(f.kids) + Preorder(taken)
    && SimplifiedBelow(h, h', Cons(f.id, f.kids, taken), choices)
    && Unchanged(h, h', [f.id] + Preorder(g.kids))
  }

  lemma TookPreorder(h: Heap, h': Heap, f: Forest, g: Forest, taken: Forest, choices: set<Symbol>)
    requires Took(h, h', f, g, taken, choices)
    ensures Preorder(g) == Preorder(f) == [f.id] + Preorder(g.kids) + Preorder(g.rest)
    ensures Preorder(Cons(f.id, f.kids, taken)) == [f.id] + Preorder(g.kids)
    ensures Unchanged(h, h', Preorder(f))
  {
    PreorderAppend(taken, g.rest);
    Regroup(f.id, Preorder(f.kids), Preorder(taken), Preorder(g.rest));
    assert Preorder(f) == Preorder(g);
    UnchangedPrefix(h, h', [f.id] + Preorder(g.kids), Preorder(g.rest));
  }

  lemma Regroup(p: Id, k: seq<Id>, t: seq<Id>, r: seq<Id>)
    ensures [p] + k + (t + r) == [p] + (k + t) + r && [p] + k + t == [p] + (k + t)
  {
  }

  lemma UnchangedPrefix(h: Heap, h': Heap, a: seq<Id>, b: seq<Id>)
    requires Unchanged(h, h', a)
    ensures Unchanged(h, h', a + b)
  {
  }

  // Relinking does not change what has been taken, or the conditions.
  lemma TookRelinked(h: Heap, mid: Heap, h': Heap, f: Forest, g: Forest, g': Forest, taken: Forest, choices: set<Symbol>)
    requires Took(h, mid, f, g, taken, choices)
    requires Unchanged(mid, h', [f.id] + Preorder(g.kids)) && forall x | x in mid :: SameCondition(mid[x], h'[x])
    requires g'.Cons? && g'.id == g.id && g'.rest == g.rest && Preorder(g'.kids) == Preorder(g.kids)
    ensures Took(h, h', f, g', taken, choices)
  {
    BelowFrame(h, mid, h, h', Cons(f.id, f.kids, taken), choices);
  }

  // A run over a chain: the entries of seen have been finalized, and with the
  // next step also the head of rest and what it took.
  lemma TookStep(h: Heap, was: Heap, h': Heap, seen: Forest, rest: Forest, r: Forest, taken: Forest, choices: set<Symbol>)
    requires SimplifiedBelow(h, was, seen, choices) && Unchanged(h, was, Preorder(seen))
    requires NoDup(Preorder(seen) + Preorder(rest)) && Took(was, h', rest, r, taken, choices)
    ensures var s := Append(seen, Cons(rest.id, rest.kids, taken));
      && SimplifiedBelow(h, h', s, choices) && Unchanged(h, h', Preorder(s))
      && Append(s, r.rest) == Append(seen, rest)
      && Preorder(s) == Preorder(seen) + ([r.id] + Preorder(r.kids))
  {
    var one := Cons(rest.id, rest.kids, taken);
    TookPreorder(was, h', rest, r, taken, choices);
    NoDupSplit(Preorder(seen), Preorder(rest));
    assert Apart(Preorder(seen), Preorder(one)) && Apart(Preorder(one), Preorder(seen));
    BelowFrame(h, was, h, h', seen, choices);
    BelowFrame(was, h', h, h', one, choices);
    BelowAppend(h, h', seen, one, choices);
    PreorderAppend(seen, one);
    AppendOver(seen, one, r.rest);
  }

  // ---------- what the conditions then mean ----------

  // An entry that depends on a symbol in the sense of expr_depends_symbol is
  // ruled out while the symbol is n.
  lemma {:induction false} DependsMeans(e: Expr, s: Symbol, env: Env)
    requires ValidEnv(env) && DependsIn(e, s) && s.Type() in {SBoolean, STristate}
    ensures Eval(e, env) != NO ==> env.tri(s) != NO
  {
    match e
    case EAnd(l, r) =>
      if DependsIn(l, s) { DependsMeans(l, s, env); } else { DependsMeans(r, s, env); }
    case EEqual(a, b) => assert SymbolOk(env, a) && SymbolOk(env, b);
    case EUnequal(a, b) => assert SymbolOk(env, a) && SymbolOk(env, b);
    case _ =>
  }

  lemma {:induction false} TransBoolKeepsNots(e: Expr)
    requires NotOverSymbols(e)
    ensures NotOverSymbols(TransBool(e))
  {
    if e.EAnd? || e.EOr? {
      TransBoolKeepsNots(e.l);
      TransBoolKeepsNots(e.r);
    }
  }

  // A child of a condition that is n is n itself, prompt included.
  lemma SimplifiedHidden(e: Entry, dep: Option<Expr>, env: Env)
    requires ValidEnv(env) && NotsOkOpt(dep) && EvalOpt(dep, env) == NO
    ensures Hidden(Simplified(e, dep), env)
    ensures NotsOkOpt(BaseDep(dep, e.dep))
    ensures e.prompt.Some? ==> NotsOkOpt(Simplified(e, dep).prompt.value.visible)
  {
    BaseDepMeans(dep, e.dep, env);
    if e.prompt.Some? {
      var b := BaseDep(dep, e.dep);
      var tristateSymbol := e.sym.None? || e.sym.value.Type() == STristate;
      PropertyVisibleMeans(b, e.prompt.value.visible, tristateSymbol, env);
      BaseDepMeans(b, e.prompt.value.visible, env);
      var v := BaseDep(b, e.prompt.value.visible);
      if v.Some? { TransBoolKeepsNots(v.value); }
    }
  }

  ghost predicate Hidden(e: Entry, env: Env) {
    && EvalOpt(e.dep, env) == NO
    && (e.prompt.Some? ==> EvalOpt(e.prompt.value.visible, env) == NO)
  }

  // Outside choices, hiding a menu hides everything below it at any depth: the
  // conditions of the ancestors have reached every entry.
  lemma {:induction false} HiddenBelow(h: Heap, h': Heap, f: Forest, dep: Option<Expr>, choices: set<Symbol>, env: Env)
    requires SimplifiedUnder(h, h', f, dep, choices)
    requires ValidEnv(env) && NotsOkOpt(dep) && EvalOpt(dep, env) == NO
    requires forall id | id in Preorder(f) && id in h :: h[id].sym.Some? ==> h[id].sym.value !in choices
    ensures forall id | id in Preorder(f) :: id in h' && Hidden(h'[id], env)
  {
    if f.Cons? {
      assert f.id in Preorder(f);
      SimplifiedHidden(h[f.id], dep, env);
      HiddenBelow(h, h', f.kids, ParentDep(h'[f.id], choices), choices, env);
      HiddenBelow(h, h', f.rest, dep, choices, env);
    }
  }
}
