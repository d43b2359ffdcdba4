// The search for recursive dependencies: sym_check_deps and
// sym_check_expr_deps (pdk/config/symbol.c) and the loop over all symbols at
// the end of conf_parse (pdk/config/zconf.y).
module SymDeps {
  import opened KconfigExpr
  import opened SymbolTable
  import opened Walks

  // The dependency graph: what each symbol depends on directly.
  ghost function Graph(conf: Config): Symbol -> seq<Symbol> {
    s => Deps(conf, s)
  }

  // ---------- the search ----------

  class Checker {
    const conf: Config
    var check: set<Symbol>      // SYMBOL_CHECK
    var checked: set<Symbol>    // SYMBOL_CHECKED
    var done: set<Symbol>       // SYMBOL_CHECK_DONE

    constructor (conf: Config)
      ensures this.conf == conf && check == {} && checked == {} && done == {}
    {
      this.conf := conf;
      check, checked, done := {}, {}, {};
    }

    // Every symbol the search can meet from one of the given symbols.
    ghost function Universe(syms: set<Symbol>): (all: set<Symbol>)
      ensures syms <= all && forall t, d | t in all && d in Deps(conf, t) :: d in all
    {
      conf.Keys + syms + set t, d | t in conf.Keys && d in Deps(conf, t) :: d
    }

    // Whatever has been marked as done leads to no cycle.
    ghost predicate DoneIsAcyclic()
      reads this
    {
      forall s | s in done :: !CycleReachable(Graph(conf), s)
    }

    // The symbols being checked form the way to s.
    ghost predicate OnTheWay(s: Symbol)
      reads this
    {
      forall q | q in check :: Reaches(Graph(conf), q, s)
    }

    // The result of the search: null exactly if no walk from s closes, the
    // CHECK bits as before, and after a null result nothing new that was
    // visited leads to a cycle.
    method SymCheckDeps(s: Symbol, ghost all: set<Symbol>) returns (r: Option<Symbol>)
      requires s in all && check <= all
      requires forall t, d | t in all && d in Deps(conf, t) :: d in all
      modifies this
      ensures check == old(check) && done == old(done) && checked >= old(checked)
      ensures old(DoneIsAcyclic() && OnTheWay(s)) ==>
        && (r.Some? <==> Closes(Graph(conf), s, check))
        && (r.Some? ==> Reaches(Graph(conf), r.value, r.value))
        && (r.None? ==> forall t | t in checked - old(checked) :: !CycleReachable(Graph(conf), t))
      ensures s in done || s in check || s in checked
      decreases |all - check|, 0
    {
      hide Closes, Reaches, CycleReachable, Deps;
      if s in done {
        if DoneIsAcyclic() && OnTheWay(s) {
          AcyclicNeverCloses(Graph(conf), s, check);
        }
        return None;
      }
      if s in check {
        OnStackCloses(Graph(conf), s, check);
        return Some(s);
      }
      ghost var stack := check;
      ghost var sound := DoneIsAcyclic() && OnTheWay(s);
      check, checked := check + {s}, checked + {s};
      assert all - check < all - stack;
      SmallerSet(all - check, all - stack);
      ghost var seen := checked;
      ClosesStep(Graph(conf), s, stack);
      r := CheckAllDeps(s, all);
      check := check - {s};
      assert check == stack;
      if sound && r.None? {
        if CycleReachable(Graph(conf), s) { CyclesClose(Graph(conf), s, stack); }
        forall t | t in checked - old(checked) ensures !CycleReachable(Graph(conf), t) {
          assert t == s || t in checked - seen;
        }
      }
    }

    // The search started from outside: the answer, with all CHECK bits clear
    // before and after. A symbol it reports lies on a cycle.
    method CheckOne(s: Symbol) returns (r: Option<Symbol>)
      requires check == {} && DoneIsAcyclic()
      modifies this
      ensures check == {} && done == old(done) && checked >= old(checked)
      ensures r.Some? <==> CycleReachable(Graph(conf), s)
      ensures r.Some? ==> Reaches(Graph(conf), r.value, r.value)
    {
      ClosesEmpty(Graph(conf), s);
      r := SymCheckDeps(s, Universe({s}));
    }

    // Whatever has been searched leads to no cycle.
    ghost predicate AllHarmless()
      reads this
    {
      forall t | t in done || t in checked :: !CycleReachable(Graph(conf), t)
    }

    // The loop over all symbols after parsing.
    method ConfParseCheck(syms: seq<Symbol>) returns (warned: bool)
      requires check == {} && checked == {} && done == {}
      modifies this
      ensures check == {}
      ensures warned <==> exists s :: s in syms && CycleReachable(Graph(conf), s)
      ensures !warned ==> forall s | s in syms :: s in done
    {
      hide CycleReachable, Deps;
      ghost var all := Universe(set s | s in syms);
      warned := false;
      var k := 0;
      while k < |syms|
        invariant 0 <= k <= |syms| && check == {}
        invariant !warned ==> AllHarmless() && forall j | 0 <= j < k :: syms[j] in done
        invariant warned ==> exists s :: s in syms && CycleReachable(Graph(conf), s)
      {
        var hit := CheckNext(syms[k], all);
        warned := warned || hit;
        k := k + 1;
      }
    }

    // One round: a symbol that an earlier search has visited is marked as done
    // without a search of its own.
    method CheckNext(s: Symbol, ghost all: set<Symbol>) returns (hit: bool)
      requires check == {} && s in all && forall t, d | t in all && d in Deps(conf, t) :: d in all
      modifies this
      ensures check == {} && done >= old(done)
      ensures old(AllHarmless()) ==> (hit <==> CycleReachable(Graph(conf), s))
      ensures old(AllHarmless()) && !hit ==> AllHarmless() && s in done
    {
      var r: Option<Symbol> := None;
      if s !in checked {
        ClosesEmpty(Graph(conf), s);
        r := SymCheckDeps(s, all);
      }
      hit := r.Some?;
      if !hit { done := done + {s}; }
    }

    // The expressions of s in the order of the source: the reverse dependency,
    // then each property that is neither a choice nor a select.
    method CheckAllDeps(s: Symbol, ghost all: set<Symbol>) returns (r: Option<Symbol>)
      requires s in check && s in all && check <= all
      requires forall t, d | t in all && d in Deps(conf, t) :: d in all
      modifies this
      ensures check == old(check) && done == old(done) && checked >= old(checked)
      ensures old(DoneIsAcyclic() && forall q | q in check :: q == s || Reaches(Graph(conf), q, s)) ==>
        && (r.Some? <==> exists d :: d in Deps(conf, s) && Closes(Graph(conf), d, check))
        && (r.Some? ==> Reaches(Graph(conf), r.value, r.value))
        && (r.None? ==> forall t | t in checked - old(checked) :: !CycleReachable(Graph(conf), t))
      decreases |all - check|, 6
    {
      if s !in conf {
        return None;
      }
      var info := conf[s];
      r := SymCheckExprDeps(info.revDep, s, all);
      if r.Some? {
        return;
      }
      r := CheckProps(info.props, info.isChoice, s, all);
    }

    method CheckProps(props: seq<Property>, isChoice: bool, ghost s: Symbol, ghost all: set<Symbol>) returns (r: Option<Symbol>)
      requires s in check && s in all && check <= all
      requires forall t, d | t in all && d in Deps(conf, t) :: d in all
      requires forall d | d in PropsSymbols(props, isChoice) :: d in Deps(conf, s)
      modifies this
      ensures check == old(check) && done == old(done) && checked >= old(checked)
      ensures old(DoneIsAcyclic() && forall q | q in check :: q == s || Reaches(Graph(conf), q, s)) ==>
        && (r.Some? <==> exists d :: d in PropsSymbols(props, isChoice) && Closes(Graph(conf), d, check))
        && (r.Some? ==> Reaches(Graph(conf), r.value, r.value))
        && (r.None? ==> forall t | t in checked - old(checked) :: !CycleReachable(Graph(conf), t))
      decreases |all - check|, 5
    {
      ghost var sound := DoneIsAcyclic() && forall q | q in check :: q == s || Reaches(Graph(conf), q, s);
      ghost var seen: seq<Symbol> := [];
      var k := 0;
      while k < |props|
        invariant 0 <= k <= |props|
        invariant check == old(check) && done == old(done) && checked >= old(checked)
        invariant sound ==> forall t | t in checked - old(checked) :: !CycleReachable(Graph(conf), t)
        invariant seen == PropsSymbols(props[..k], isChoice)
        invariant sound ==> forall d | d in seen :: !Closes(Graph(conf), d, check)
      {
        PropsSymbolsStep(props, isChoice, k);
        seen := seen + PropSymbols(props[k], isChoice);
        PropInProps(props, isChoice, k);
        r := CheckProp(props[k], isChoice, s, all);
        if r.Some? { return; }
        k := k + 1;
      }
      assert props[..k] == props;
      r := None;
    }

    method CheckProp(prop: Property, isChoice: bool, ghost s: Symbol, ghost all: set<Symbol>) returns (r: Option<Symbol>)
      requires s in check && s in all && check <= all
      requires forall t, d | t in all && d in Deps(conf, t) :: d in all
      requires forall d | d in PropSymbols(prop, isChoice) :: d in Deps(conf, s)
      modifies this
      ensures check == old(check) && done == old(done) && checked >= old(checked)
      ensures old(DoneIsAcyclic() && forall q | q in check :: q == s || Reaches(Graph(conf), q, s)) ==>
        && (r.Some? <==> exists d :: d in PropSymbols(prop, isChoice) && Closes(Graph(conf), d, check))
        && (r.Some? ==> Reaches(Graph(conf), r.value, r.value))
        && (r.None? ==> forall t | t in checked - old(checked) :: !CycleReachable(Graph(conf), t))
      decreases |all - check|, 4
    {
      if prop.ptype == PChoice || prop.ptype == PSelect {
        return None;
      }
      r := SymCheckExprDeps(prop.visible, s, all);
      if r.None? && prop.ptype == PDefault && !isChoice {
        r := SymCheckExprDeps(prop.expr, s, all);
      }
    }

    method SymCheckExprDeps(e: Option<Expr>, ghost s: Symbol, ghost all: set<Symbol>) returns (r: Option<Symbol>)
      requires s in check && s in all && check <= all
      requires forall t, d | t in all && d in Deps(conf, t) :: d in all
      requires forall d | d in OptSymbols(e) :: d in Deps(conf, s)
      modifies this
      ensures check == old(check) && done == old(done) && checked >= old(checked)
      ensures old(DoneIsAcyclic() && forall q | q in check :: q == s || Reaches(Graph(conf), q, s)) ==>
        && (r.Some? <==> exists d :: d in OptSymbols(e) && Closes(Graph(conf), d, check))
        && (r.Some? ==> Reaches(Graph(conf), r.value, r.value))
        && (r.None? ==> forall t | t in checked - old(checked) :: !CycleReachable(Graph(conf), t))
      decreases |all - check|, 3, e
    {
      if e.None? {
        return None;
      }
      r := SymCheckExpr(e.value, s, all);
    }

    method SymCheckExpr(e: Expr, ghost s: Symbol, ghost all: set<Symbol>) returns (r: Option<Symbol>)
      requires s in check && s in all && check <= all
      requires forall t, d | t in all && d in Deps(conf, t) :: d in all
      requires forall d | d in ExprSymbols(e) :: d in Deps(conf, s)
      modifies this
      ensures check == old(check) && done == old(done) && checked >= old(checked)
      ensures old(DoneIsAcyclic() && forall q | q in check :: q == s || Reaches(Graph(conf), q, s)) ==>
        && (r.Some? <==> exists d :: d in ExprSymbols(e) && Closes(Graph(conf), d, check))
        && (r.Some? ==> Reaches(Graph(conf), r.value, r.value))
        && (r.None? ==> forall t | t in checked - old(checked) :: !CycleReachable(Graph(conf), t))
      decreases |all - check|, 2, e
    {
      match e
      case EAnd(left, right) =>
        r := SymCheckExpr(left, s, all);
        if r.None? { r := SymCheckExpr(right, s, all); }
      case EOr(left, right) =>
        r := SymCheckExpr(left, s, all);
        if r.None? { r := SymCheckExpr(right, s, all); }
      case ENot(x) =>
        r := SymCheckExpr(x, s, all);
      case EEqual(a, b) =>
        r := SymCheckDepOf(a, s, all);
        if r.None? { r := SymCheckDepOf(b, s, all); }
      case EUnequal(a, b) =>
        r := SymCheckDepOf(a, s, all);
        if r.None? { r := SymCheckDepOf(b, s, all); }
      case ESymbol(a) =>
        r := SymCheckDepOf(a, s, all);
    }

    // The call of sym_check_deps for a symbol d that s depends on.
    method SymCheckDepOf(d: Symbol, ghost s: Symbol, ghost all: set<Symbol>) returns (r: Option<Symbol>)
      requires s in check && s in all && check <= all
      requires forall t, d | t in all && d in Deps(conf, t) :: d in all
      requires d in Deps(conf, s)
      modifies this
      ensures check == old(check) && done == old(done) && checked >= old(checked)
      ensures old(DoneIsAcyclic() && forall q | q in check :: q == s || Reaches(Graph(conf), q, s)) ==>
        && (r.Some? <==> Closes(Graph(conf), d, check))
        && (r.Some? ==> Reaches(Graph(conf), r.value, r.value))
        && (r.None? ==> forall t | t in checked - old(checked) :: !CycleReachable(Graph(conf), t))
      decreases |all - check|, 1
    {
      if forall q | q in check :: q == s || Reaches(Graph(conf), q, s) {
        forall q | q in check ensures Reaches(Graph(conf), q, d) {
          ReachesThrough(Graph(conf), q, s, d);
        }
      }
      r := SymCheckDeps(d, all);
    }
  }

  lemma PropInProps(ps: seq<Property>, isChoice: bool, k: nat)
    requires k < |ps|
    ensures forall d | d in PropSymbols(ps[k], isChoice) :: d in PropsSymbols(ps, isChoice)
  {
    forall d | d in PropSymbols(ps[k], isChoice) ensures d in PropsSymbols(ps, isChoice) {
      PropsSymbolsContain(ps, isChoice, k, d);
    }
  }

  lemma {:induction false} PropsSymbolsStep(ps: seq<Property>, isChoice: bool, k: nat)
    requires k < |ps|
    ensures PropsSymbols(ps[..k + 1], isChoice) == PropsSymbols(ps[..k], isChoice) + PropSymbols(ps[k], isChoice)
  {
    hide PropsSymbols, PropSymbols;
    var a, b := ps[..k + 1], ps[..k];
    PropsSymbolsHead(a, isChoice);
    if k == 0 {
      NoProps(a[1..], isChoice);
      NoProps(b, isChoice);
    } else {
      PropsSymbolsStep(ps[1..], isChoice, k - 1);
      PropsSymbolsHead(b, isChoice);
      assert a[1..] == ps[1..][..k] && b[1..] == ps[1..][..k - 1];
      assert a[0] == b[0] && ps[1..][k - 1] == ps[k];
    }
  }

  lemma NoProps(ps: seq<Property>, isChoice: bool)
    requires ps == []
    ensures PropsSymbols(ps, isChoice) == []
  {
  }

  lemma {:induction false} SmallerSet<T>(a: set<T>, b: set<T>)
    requires a < b
    ensures |a| < |b|
  {
    assert b == a + (b - a) && b - a != {};
  }

  // ---------- what is no dependency ----------

  // A configuration without its choice and select properties, and without the
  // expressions that are no default values of its own.
  function Stripped(conf: Config): Config {
    map s | s in conf :: conf[s].(props := StrippedProps(conf[s].props, conf[s].isChoice))
  }

  function StrippedProps(ps: seq<Property>, isChoice: bool): seq<Property> {
    if ps == [] then []
    else if ps[0].ptype == PChoice || ps[0].ptype == PSelect then StrippedProps(ps[1..], isChoice)
    else [if ps[0].ptype == PDefault && !isChoice then ps[0] else ps[0].(expr := None)] + StrippedProps(ps[1..], isChoice)
  }

  lemma {:induction false} StripKeepsSymbols(ps: seq<Property>, isChoice: bool)
    ensures PropsSymbols(StrippedProps(ps, isChoice), isChoice) == PropsSymbols(ps, isChoice)
  {
    if ps != [] {
      var rest := StrippedProps(ps[1..], isChoice);
      StripKeepsSymbols(ps[1..], isChoice);
      if ps[0].ptype != PChoice && ps[0].ptype != PSelect {
        var p := if ps[0].ptype == PDefault && !isChoice then ps[0] else ps[0].(expr := None);
        assert ([p] + rest)[1..] == rest;
        PropsSymbolsHead([p] + rest, isChoice);
      }
    }
  }

  lemma StripKeepsDeps(conf: Config, s: Symbol)
    ensures Deps(Stripped(conf), s) == Deps(conf, s)
  {
    hide PropsSymbols, StrippedProps;
    if s in conf { StripKeepsSymbols(conf[s].props, conf[s].isChoice); }
  }

  // They play no part in cycles: a symbol may select one that depends on it.
  lemma StripKeepsCycles(conf: Config, s: Symbol)
    ensures CycleReachable(Graph(Stripped(conf)), s) <==> CycleReachable(Graph(conf), s)
  {
    hide Stripped, Deps, CycleReachable;
    forall t ensures Deps(Stripped(conf), t) == Deps(conf, t) { StripKeepsDeps(conf, t); }
    SameGraphCycles(conf, Stripped(conf), s);
    SameGraphCycles(Stripped(conf), conf, s);
  }

  lemma SameGraphCycles(conf: Config, other: Config, s: Symbol)
    requires forall t :: Deps(conf, t) == Deps(other, t)
    ensures CycleReachable(Graph(conf), s) ==> CycleReachable(Graph(other), s)
  {
    hide Deps;
    if CycleReachable(Graph(conf), s) {
      var p :| Named(p) && IsWalk(Graph(conf), p) && p[0] == s && Repeats(p);
      assert IsWalk(Graph(other), p) by {
        forall i | 0 <= i < |p| - 1 ensures p[i + 1] in Graph(other)(p[i]) { assert Deps(conf, p[i]) == Deps(other, p[i]); }
      }
    }
  }

  // The edges of the graph.
  lemma EdgeIff(conf: Config, s: Symbol, d: Symbol)
    ensures d in Deps(conf, s) <==> Edge(conf, s, d)
  {
    if s in conf { PropsSymbolsIff(conf[s].props, conf[s].isChoice, d); }
  }

  predicate Edge(conf: Config, s: Symbol, d: Symbol) {
    && s in conf
    && (d in OptSymbols(conf[s].revDep) || exists k :: 0 <= k < |conf[s].props| && Contributes(conf[s].props[k], conf[s].isChoice, d))
  }

  // The condition of a property counts, and the value of a default outside choices.
  predicate Contributes(p: Property, isChoice: bool, d: Symbol) {
    && p.ptype !in {PChoice, PSelect}
    && (d in OptSymbols(p.visible) || (p.ptype == PDefault && !isChoice && d in OptSymbols(p.expr)))
  }

  lemma {:induction false} PropsSymbolsIff(ps: seq<Property>, isChoice: bool, d: Symbol)
    ensures d in PropsSymbols(ps, isChoice) <==> exists k :: 0 <= k < |ps| && Contributes(ps[k], isChoice, d)
  {
    if ps != [] {
      PropsSymbolsIff(ps[1..], isChoice, d);
      assert d in PropSymbols(ps[0], isChoice) <==> Contributes(ps[0], isChoice, d);
      if k :| 0 <= k < |ps[1..]| && Contributes(ps[1..][k], isChoice, d) { assert Contributes(ps[k + 1], isChoice, d); }
      if k :| 0 < k < |ps| && Contributes(ps[k], isChoice, d) { assert Contributes(ps[1..][k - 1], isChoice, d); }
    }
  }
}
