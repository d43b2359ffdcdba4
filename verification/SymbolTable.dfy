// Symbols with their properties (struct symbol and struct property,
// pdk/config/expr.h), and which symbols a symbol depends on.
module SymbolTable {
  import opened KconfigExpr

  datatype PropType = PUnknown | PPrompt | PComment | PMenu | PDefault | PChoice | PSelect | PRange

  // text says whether the property has a prompt text
  datatype Property = Property(ptype: PropType, text: bool, visible: Option<Expr>, expr: Option<Expr>)

  datatype SymbolInfo = SymbolInfo(revDep: Option<Expr>, props: seq<Property>, isChoice: bool)

  // A symbol without an entry has no properties and is not selected.
  type Config = map<Symbol, SymbolInfo>

  function ExprSymbols(e: Expr): seq<Symbol> {
    match e
    case EAnd(l, r) => ExprSymbols(l) + ExprSymbols(r)
    case EOr(l, r) => ExprSymbols(l) + ExprSymbols(r)
    case ENot(x) => ExprSymbols(x)
    case EEqual(s, t) => [s, t]
    case EUnequal(s, t) => [s, t]
    case ESymbol(s) => [s]
  }

  function OptSymbols(e: Option<Expr>): seq<Symbol> {
    if e.None? then [] else ExprSymbols(e.value)
  }

  // The symbols a property contributes: those of its visibility and, for a
  // default of a symbol that is not a choice, those of its value.
  function PropSymbols(p: Property, isChoice: bool): seq<Symbol> {
    if p.ptype == PChoice || p.ptype == PSelect then []
    else OptSymbols(p.visible) + if p.ptype != PDefault || isChoice then [] else OptSymbols(p.expr)
  }

  function PropsSymbols(ps: seq<Property>, isChoice: bool): seq<Symbol> {
    if ps == [] then [] else PropSymbols(ps[0], isChoice) + PropsSymbols(ps[1..], isChoice)
  }

  function Deps(conf: Config, s: Symbol): seq<Symbol> {
    if s !in conf then []
    else OptSymbols(conf[s].revDep) + PropsSymbols(conf[s].props, conf[s].isChoice)
  }

  lemma PropsSymbolsHead(ps: seq<Property>, isChoice: bool)
    requires ps != []
    ensures PropsSymbols(ps, isChoice) == PropSymbols(ps[0], isChoice) + PropsSymbols(ps[1..], isChoice)
  {
  }

  lemma {:induction false} PropsSymbolsContain(ps: seq<Property>, isChoice: bool, k: nat, d: Symbol)
    requires k < |ps| && d in PropSymbols(ps[k], isChoice)
    ensures d in PropsSymbols(ps, isChoice)
  {
    PropsSymbolsHead(ps, isChoice);
    InEither(PropSymbols(ps[0], isChoice), PropsSymbols(ps[1..], isChoice), d);
    if k > 0 {
      assert ps[1..][k - 1] == ps[k];
      PropsSymbolsContain(ps[1..], isChoice, k - 1, d);
    }
  }

  lemma InEither(a: seq<Symbol>, b: seq<Symbol>, d: Symbol)
    ensures d in a || d in b ==> d in a + b
  {
  }

  lemma VisibleInProp(p: Property, isChoice: bool)
    requires p.ptype != PChoice && p.ptype != PSelect
    ensures forall d | d in OptSymbols(p.visible) :: d in PropSymbols(p, isChoice)
  {
  }

  lemma DefaultInProp(p: Property)
    requires p.ptype == PDefault
    ensures forall d | d in OptSymbols(p.expr) :: d in PropSymbols(p, false)
  {
  }

  lemma RevDepInDeps(conf: Config, s: Symbol)
    requires s in conf
    ensures forall d | d in OptSymbols(conf[s].revDep) :: d in Deps(conf, s)
  {
  }

  lemma PropInDeps(conf: Config, s: Symbol, k: nat, d: Symbol)
    requires s in conf && k < |conf[s].props| && d in PropSymbols(conf[s].props[k], conf[s].isChoice)
    ensures d in Deps(conf, s)
  {
    PropsSymbolsContain(conf[s].props, conf[s].isChoice, k, d);
  }
}
