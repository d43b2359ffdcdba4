// The search for dependency cycles (pdk/config/symbol.c:692-756) and the value
// cache: the configurations the search accepts are exactly those in which every
// symbol can be evaluated after its dependencies.
module SymRank {
  import opened KconfigExpr
  import opened SymbolTable
  import opened SymDeps
  import opened SymFresh
  import opened Walks

  // The longest walk from s of at most n steps.
  function Depth(conf: Config, n: nat, s: Symbol): nat
    decreases n, 1, 0
  {
    if n == 0 then 0 else DepthBelow(conf, n - 1, Deps(conf, s))
  }

  function DepthBelow(conf: Config, n: nat, ds: seq<Symbol>): nat
    decreases n, 2, |ds|
  {
    if ds == [] then 0
    else
      var first, others := 1 + Depth(conf, n, ds[0]), DepthBelow(conf, n, ds[1..]);
      if first >= others then first else others
  }

  lemma {:induction false} DepthOver(conf: Config, n: nat, ds: seq<Symbol>, d: Symbol)
    requires d in ds
    ensures DepthBelow(conf, n, ds) >= 1 + Depth(conf, n, d)
  {
    if d != ds[0] { DepthOver(conf, n, ds[1..], d); }
  }

  lemma {:induction false} DeepestOf(conf: Config, n: nat, ds: seq<Symbol>) returns (d: Symbol)
    requires DepthBelow(conf, n, ds) > 0
    ensures d in ds && DepthBelow(conf, n, ds) == 1 + Depth(conf, n, d)
  {
    d := ds[0];
    if DepthBelow(conf, n, ds) != 1 + Depth(conf, n, d) { d := DeepestOf(conf, n, ds[1..]); }
  }

  // A walk of that length, all but its last symbol with dependencies.
  lemma {:induction false} DepthWalk(conf: Config, n: nat, s: Symbol) returns (p: seq<Symbol>)
    ensures |p| == Depth(conf, n, s) + 1 && IsWalk(Graph(conf), p) && p[0] == s
    ensures forall i | 0 <= i < |p| - 1 :: p[i] in conf
  {
    p := [s];
    if n > 0 && Depth(conf, n, s) > 0 {
      var d := DeepestOf(conf, n - 1, Deps(conf, s));
      var q := DepthWalk(conf, n - 1, d);
      WalkCons(Graph(conf), s, q);
      p := [s] + q;
      forall i | 0 <= i < |p| - 1 ensures p[i] in conf { assert i > 0 ==> p[i] == q[i - 1]; }
    }
  }

  // More steps than symbols: one is met twice.
  lemma {:induction false} Crowded(p: seq<Symbol>, keys: set<Symbol>)
    requires |p| > |keys| && forall s | s in p :: s in keys
    ensures Repeats(p)
    decreases |p|
  {
    var q := p[1..];
    if p[0] in q {
      var j :| 0 <= j < |q| && q[j] == p[0];
      assert p[0] == p[j + 1];
    } else {
      forall s | s in q ensures s in keys - {p[0]} {}
      Crowded(q, keys - {p[0]});
      var i, j :| 0 <= i < j < |q| && q[i] == q[j];
      assert p[i + 1] == p[j + 1];
    }
  }

  ghost predicate NoCycle(conf: Config) {
    forall s | s in conf :: !CycleReachable(Graph(conf), s)
  }

  lemma DeepIsCyclic(conf: Config, n: nat, s: Symbol)
    requires Depth(conf, n, s) > |conf|
    ensures s in conf && CycleReachable(Graph(conf), s)
  {
    var p := DepthWalk(conf, n, s);
    assert Named(p);
    var q := p[..|p| - 1];
    assert |conf| == |conf.Keys| && p[0] in conf;
    Crowded(q, conf.Keys);
    var i, j :| 0 <= i < j < |q| && q[i] == q[j];
    assert p[i] == p[j];
  }

  lemma DepthBounded(conf: Config, n: nat, s: Symbol)
    requires NoCycle(conf)
    ensures Depth(conf, n, s) <= |conf|
  {
    if Depth(conf, n, s) > |conf| { DeepIsCyclic(conf, n, s); }
  }

  // Walks that end before the limit do not depend on it.
  lemma {:induction false} DepthStable(conf: Config, n: nat, s: Symbol)
    requires Depth(conf, n, s) < n
    ensures Depth(conf, n + 1, s) == Depth(conf, n, s)
    decreases n, 1, 0
  {
    DepthBelowStable(conf, n - 1, Deps(conf, s));
  }

  lemma {:induction false} DepthBelowStable(conf: Config, n: nat, ds: seq<Symbol>)
    requires DepthBelow(conf, n, ds) <= n
    ensures DepthBelow(conf, n + 1, ds) == DepthBelow(conf, n, ds)
    decreases n, 2, |ds|
  {
    if ds != [] {
      DepthStable(conf, n, ds[0]);
      DepthBelowStable(conf, n, ds[1..]);
    }
  }

  lemma NoCycleGivesRank(conf: Config) returns (rank: Symbol -> nat)
    requires NoCycle(conf)
    ensures Acyclic(conf, rank)
  {
    var n := |conf| + 1;
    rank := s => Depth(conf, n, s);
    forall s, d | d in Deps(conf, s) ensures rank(d) < rank(s) {
      DepthBounded(conf, n, s);
      DepthStable(conf, n, s);
      DepthOver(conf, n, Deps(conf, s), d);
    }
  }

  lemma {:induction false} RankFalls(conf: Config, rank: Symbol -> nat, p: seq<Symbol>, i: nat, j: nat)
    requires Acyclic(conf, rank) && IsWalk(Graph(conf), p) && i < j < |p|
    ensures rank(p[j]) < rank(p[i])
    decreases j
  {
    assert p[j - 1 + 1] in Graph(conf)(p[j - 1]);
    if i < j - 1 { RankFalls(conf, rank, p, i, j - 1); }
  }

  lemma RankedNeverRepeats(conf: Config, rank: Symbol -> nat, p: seq<Symbol>)
    requires Acyclic(conf, rank) && IsWalk(Graph(conf), p)
    ensures !Repeats(p)
  {
    forall i, j | 0 <= i < j < |p| ensures p[i] != p[j] { RankFalls(conf, rank, p, i, j); }
  }

  // No cycle is reachable exactly if the symbols can be ranked.
  lemma NoCycleIffRanked(conf: Config)
    ensures NoCycle(conf) <==> exists rank: Symbol -> nat :: Acyclic(conf, rank)
  {
    if NoCycle(conf) {
      var rank := NoCycleGivesRank(conf);
    }
    if rank: Symbol -> nat :| Acyclic(conf, rank) {
      forall p | IsWalk(Graph(conf), p) ensures !Repeats(p) { RankedNeverRepeats(conf, rank, p); }
    }
  }

  // The check after parsing, over all symbols of a configuration, warns exactly if
  // there is no such rank, which the theorems about the value cache assume.
  method CheckConfiguration(c: Checker, syms: seq<Symbol>) returns (warned: bool)
    requires c.check == {} && c.checked == {} && c.done == {} && forall s | s in c.conf :: s in syms
    modifies c
    ensures warned <==> !exists rank: Symbol -> nat :: Acyclic(c.conf, rank)
  {
    NoCycleIffRanked(c.conf);
    forall s | s !in c.conf ensures !CycleReachable(Graph(c.conf), s) { Isolated(c.conf, s); }
    warned := c.ConfParseCheck(syms);
  }

  lemma Isolated(conf: Config, s: Symbol)
    requires s !in conf
    ensures !CycleReachable(Graph(conf), s)
  {
    forall p | IsWalk(Graph(conf), p) && p[0] == s ensures !Repeats(p) { FirstStep(conf, p); }
  }

  lemma FirstStep(conf: Config, p: seq<Symbol>)
    requires IsWalk(Graph(conf), p)
    ensures |p| >= 2 ==> p[0] in conf
  {
    if |p| >= 2 { assert p[0 + 1] in Graph(conf)(p[0]); }
  }
}
