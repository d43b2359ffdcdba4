// Where menu_finalize (pdk/config/menu.c:198-317) leaves the entries: the tree it
// makes, as a function of the tree it starts from and of the conditions the
// entries end up with.
module MenuShape {
  import opened KconfigExpr
  import opened MenuTree
  import opened MenuConditions

  predicate NoPromptText(e: Entry) {
    e.prompt.None? || !e.prompt.value.hasText
  }

  // The chain once the children of such entries have been hoisted, also out of
  // hoisted ones.
  function Hoist(h: Heap, f: Forest): Forest
    decreases |Preorder(f)|
  {
    if f.Nil? then Nil
    else if f.kids.Cons? && f.id in h && NoPromptText(h[f.id]) then
      HoistKeepsPreorder(f.id, f.kids, f.rest);
      Cons(f.id, Nil, Hoist(h, Append(f.kids, f.rest)))
    else Cons(f.id, f.kids, Hoist(h, f.rest))
  }

  // The condition an entry is compared by as a parent (line 252).
  function OwnVisible(e: Entry): Option<Expr> {
    if e.prompt.Some? then e.prompt.value.visible else None
  }

  // Every entry of the chain passes the test for joining the sub-menu.
  predicate AllAdopted(h: Heap, f: Forest, sym: Symbol, basedep: Option<Expr>) {
    f.Cons? ==> f.id in h && AdoptsEntry(sym, basedep, VisibleOrDep(h[f.id])) && AllAdopted(h, f.rest, sym, basedep)
  }

  // The first entry after the sub-menu, if there is one, fails that test.
  predicate NextStaysOut(h: Heap, f: Forest, sym: Symbol, basedep: Option<Expr>) {
    f.Cons? ==> f.id in h && !AdoptsEntry(sym, basedep, VisibleOrDep(h[f.id]))
  }

  lemma HoistKeepsPreorder(m: Id, kids: Forest, rest: Forest)
    ensures Preorder(Cons(m, Nil, Append(kids, rest))) == Preorder(Cons(m, kids, rest))
  {
    PreorderAppend(kids, rest);
    assert [m] + [] + (Preorder(kids) + Preorder(rest)) == [m] + Preorder(kids) + Preorder(rest);
  }

  // What finalizing the head of the chain makes of the chain: its children, and
  // the siblings left to it (lines 202-317).
  function HeadShape(c: Heap, f: Forest): (r: Forest)
    requires f.Cons?
    ensures r.Cons? && r.id == f.id && |Preorder(r.rest)| <= |Preorder(f.rest)|
    decreases |Preorder(f)|, 1
  {
    if f.kids.Cons? then Cons(f.id, Hoist(c, ChainShape(c, f.kids)), f.rest)
    else if f.id in c && c[f.id].sym.Some? then
      var (d, r) := AdoptShape(c, f.rest, c[f.id].sym.value, OwnVisible(c[f.id]));
      Cons(f.id, Hoist(c, d), r)
    else f
  }

  // The run of siblings that pass the test, each finalized in turn, and the rest.
  function AdoptShape(c: Heap, f: Forest, sym: Symbol, basedep: Option<Expr>): (r: (Forest, Forest))
    ensures |Preorder(r.1)| <= |Preorder(f)|
    decreases |Preorder(f)|, 2
  {
    if f.Cons? && f.id in c && AdoptsEntry(sym, basedep, VisibleOrDep(c[f.id])) then
      var h := HeadShape(c, f);
      var (d, r) := AdoptShape(c, h.rest, sym, basedep);
      (Cons(f.id, h.kids, d), r)
    else (Nil, f)
  }

  // The whole chain, one head after the other.
  function ChainShape(c: Heap, f: Forest): Forest
    decreases |Preorder(f)|, 2
  {
    if f.Nil? then Nil
    else var h := HeadShape(c, f); Cons(f.id, h.kids, ChainShape(c, h.rest))
  }

  // ---------- no entry is lost, doubled or moved ----------

  lemma {:induction false} HoistPreorder(c: Heap, f: Forest)
    ensures Preorder(Hoist(c, f)) == Preorder(f)
    decreases |Preorder(f)|
  {
    if f.Cons? {
      HoistKeepsPreorder(f.id, f.kids, f.rest);
      if f.kids.Cons? && f.id in c && NoPromptText(c[f.id]) {
        HoistPreorder(c, Append(f.kids, f.rest));
      } else {
        HoistPreorder(c, f.rest);
      }
    }
  }

  lemma {:induction false} HeadShapePreorder(c: Heap, f: Forest)
    requires f.Cons?
    ensures Preorder(HeadShape(c, f)) == Preorder(f)
    decreases |Preorder(f)|, 1
  {
    hide AdoptsEntry, AdoptShape, ChainShape, NoPromptText, Hoist;
    if f.kids.Cons? {
      ChainShapePreorder(c, f.kids);
      HoistPreorder(c, ChainShape(c, f.kids));
    } else if f.id in c && c[f.id].sym.Some? {
      AdoptShapePreorder(c, f.rest, c[f.id].sym.value, OwnVisible(c[f.id]));
      var (d, r) := AdoptShape(c, f.rest, c[f.id].sym.value, OwnVisible(c[f.id]));
      HoistPreorder(c, d);
      assert [f.id] + Preorder(d) + Preorder(r) == [f.id] + (Preorder(d) + Preorder(r));
      assert [f.id] + [] + Preorder(f.rest) == [f.id] + Preorder(f.rest);
    }
  }

  lemma {:induction false} AdoptShapePreorder(c: Heap, f: Forest, sym: Symbol, basedep: Option<Expr>)
    ensures var (d, r) := AdoptShape(c, f, sym, basedep); Preorder(d) + Preorder(r) == Preorder(f)
    decreases |Preorder(f)|, 2
  {
    hide AdoptsEntry, HeadShape, Hoist;
    if f.Cons? && f.id in c && AdoptsEntry(sym, basedep, VisibleOrDep(c[f.id])) {
      var h := HeadShape(c, f);
      HeadShapePreorder(c, f);
      AdoptShapePreorder(c, h.rest, sym, basedep);
      var (d, r) := AdoptShape(c, h.rest, sym, basedep);
      assert AdoptShape(c, f, sym, basedep) == (Cons(f.id, h.kids, d), r);
      Associates([f.id] + Preorder(h.kids), Preorder(d), Preorder(r));
    }
  }

  lemma Associates(a: seq<Id>, b: seq<Id>, c: seq<Id>)
    ensures a + b + c == a + (b + c)
  {
  }

  lemma {:induction false} ChainShapePreorder(c: Heap, f: Forest)
    ensures Preorder(ChainShape(c, f)) == Preorder(f)
    decreases |Preorder(f)|, 2
  {
    hide HeadShape, Hoist;
    if f.Cons? {
      HeadShapePreorder(c, f);
      ChainShapePreorder(c, HeadShape(c, f).rest);
    }
  }

  // ---------- which entries go where ----------

  // The run is the longest one of entries that pass the test.
  lemma {:induction false} AdoptShapeMaximal(c: Heap, f: Forest, sym: Symbol, basedep: Option<Expr>)
    requires forall id | id in Preorder(f) :: id in c
    ensures var (d, r) := AdoptShape(c, f, sym, basedep);
      AllAdopted(c, d, sym, basedep) && NextStaysOut(c, r, sym, basedep)
    decreases |Preorder(f)|
  {
    hide AdoptsEntry, HeadShape, Hoist;
    if f.Cons? {
      assert f.id in Preorder(f);
      if AdoptsEntry(sym, basedep, VisibleOrDep(c[f.id])) {
        var h := HeadShape(c, f);
        HeadShapePreorder(c, f);
        assert forall id | id in Preorder(h.rest) :: id in Preorder(h);
        AdoptShapeMaximal(c, h.rest, sym, basedep);
      }
    }
  }

  // No entry of the chain has children and no prompt text.
  predicate NothingToHoist(c: Heap, f: Forest) {
    f.Cons? ==> !(f.kids.Cons? && f.id in c && NoPromptText(c[f.id])) && NothingToHoist(c, f.rest)
  }

  lemma {:induction false} HoistComplete(c: Heap, f: Forest)
    ensures NothingToHoist(c, Hoist(c, f))
    decreases |Preorder(f)|
  {
    if f.Cons? {
      HoistKeepsPreorder(f.id, f.kids, f.rest);
      if f.kids.Cons? && f.id in c && NoPromptText(c[f.id]) {
        HoistComplete(c, Append(f.kids, f.rest));
      } else {
        HoistComplete(c, f.rest);
      }
    }
  }

  lemma {:induction false} HoistSame(h: Heap, h': Heap, f: Forest)
    requires forall x | x in Preorder(f) :: x in h && x in h' && SameCondition(h[x], h'[x])
    ensures Hoist(h, f) == Hoist(h', f)
    decreases |Preorder(f)|
  {
    if f.Cons? {
      assert f.id in Preorder(f);
      HoistKeepsPreorder(f.id, f.kids, f.rest);
      var up := Cons(f.id, Nil, Append(f.kids, f.rest));
      assert Preorder(up) == [f.id] + [] + Preorder(Append(f.kids, f.rest));
      assert forall x | x in Preorder(Append(f.kids, f.rest)) :: x in Preorder(up);
      if f.kids.Cons? && NoPromptText(h[f.id]) { HoistSame(h, h', Append(f.kids, f.rest)); } else { HoistSame(h, h', f.rest); }
    }
  }

  // ---------- the conditions it is a function of ----------

  // The conditions below a chain are determined by the tree.
  lemma {:induction false} UnderUnique(h: Heap, a: Heap, b: Heap, f: Forest, dep: Option<Expr>, choices: set<Symbol>)
    requires SimplifiedUnder(h, a, f, dep, choices) && SimplifiedUnder(h, b, f, dep, choices)
    ensures forall x | x in Preorder(f) :: x in a && x in b && SameCondition(a[x], b[x])
  {
    if f.Cons? {
      UnderUnique(h, a, b, f.kids, ParentDep(a[f.id], choices), choices);
      UnderUnique(h, a, b, f.rest, dep, choices);
    }
  }

  lemma {:induction false} BelowUnique(h: Heap, a: Heap, b: Heap, f: Forest, choices: set<Symbol>)
    requires SimplifiedBelow(h, a, f, choices) && SimplifiedBelow(h, b, f, choices)
    ensures forall x | x in Preorder(f) :: x in a && x in b && SameCondition(a[x], b[x])
  {
    if f.Cons? {
      UnderUnique(h, a, b, f.kids, ParentDep(a[f.id], choices), choices);
      BelowUnique(h, a, b, f.rest, choices);
    }
  }

  lemma {:induction false} BelowParts(h: Heap, c: Heap, f: Forest, g: Forest, choices: set<Symbol>)
    requires SimplifiedBelow(h, c, Append(f, g), choices)
    ensures SimplifiedBelow(h, c, f, choices) && SimplifiedBelow(h, c, g, choices)
  {
    if f.Cons? { BelowParts(h, c, f.rest, g, choices); }
  }

  // After the children have been simplified, the conditions still to come are
  // those below them.
  lemma {:induction false} BelowFromUnder(h: Heap, mid: Heap, c: Heap, f: Forest, dep: Option<Expr>, choices: set<Symbol>)
    requires ChainSimplified(h, mid, f, dep) && SimplifiedUnder(h, c, f, dep, choices)
    requires forall x | x in Preorder(f) :: x in h && x in mid
    ensures SimplifiedBelow(mid, c, f, choices)
  {
    if f.Cons? {
      KeptBack(mid, h, Preorder(f.kids));
      UnderFrame(h, c, mid, c, f.kids, ParentDep(c[f.id], choices), choices);
      BelowFromUnder(h, mid, c, f.rest, dep, choices);
    }
  }

  lemma KeptBack(a: Heap, b: Heap, ids: seq<Id>)
    requires Kept(a, b, ids) && forall x | x in ids :: x in a && x in b
    ensures Kept(b, a, ids)
  {
  }

  // What has been finalized has its final conditions; what is left is as before.
  lemma TookRest(h: Heap, h': Heap, c: Heap, f: Forest, g: Forest, taken: Forest, choices: set<Symbol>)
    requires Took(h, h', f, g, taken, choices) && SimplifiedBelow(h, c, f, choices) && NoDup(Preorder(f))
    ensures SimplifiedBelow(h', c, g.rest, choices)
    ensures forall x | x in [f.id] + Preorder(g.kids) :: x in h' && x in c && SameCondition(h'[x], c[x])
  {
    TookPreorder(h, h', f, g, taken, choices);
    NoDupSplit([f.id] + Preorder(g.kids), Preorder(g.rest));
    var one := Cons(f.id, f.kids, taken);
    assert f == Append(one, g.rest);
    BelowParts(h, c, one, g.rest, choices);
    BelowUnique(h, h', c, one, choices);
    BelowFrame(h, c, h', c, g.rest, choices);
  }

  // There are such conditions, whatever the tree.
  lemma {:induction false} UnderExists(h: Heap, f: Forest, dep: Option<Expr>, choices: set<Symbol>) returns (c: Heap)
    requires NoDup(Preorder(f)) && forall x | x in Preorder(f) :: x in h
    ensures SimplifiedUnder(h, c, f, dep, choices) && c.Keys == h.Keys
  {
    hide Simplified, AdoptsEntry;
    c := h;
    if f.Cons? {
      NoDupParts(f);
      assert f.id in Preorder(f);
      var e := Simplified(h[f.id], dep);
      var below := UnderExists(h, f.kids, ParentDep(e, choices), choices);
      var after := UnderExists(h, f.rest, dep, choices);
      c := Merged(h, f, e, below, after);
      UnderFrame(h, below, h, c, f.kids, ParentDep(e, choices), choices);
      UnderFrame(h, after, h, c, f.rest, dep, choices);
    }
  }

  function Merged(h: Heap, f: Forest, e: Entry, below: Heap, after: Heap): Heap
    requires f.Cons? && below.Keys == h.Keys && after.Keys == h.Keys
  {
    map x | x in h :: if x == f.id then e else if x in Preorder(f.kids) then below[x] else after[x]
  }

  lemma {:induction false} ConditionsExist(h: Heap, f: Forest, choices: set<Symbol>) returns (c: Heap)
    requires NoDup(Preorder(f)) && forall x | x in Preorder(f) :: x in h
    ensures SimplifiedBelow(h, c, f, choices) && c.Keys == h.Keys
  {
    hide Simplified, AdoptsEntry;
    c := h;
    if f.Cons? {
      NoDupParts(f);
      assert f.id in Preorder(f);
      var e := h[f.id];
      var below := UnderExists(h, f.kids, ParentDep(e, choices), choices);
      var after := ConditionsExist(h, f.rest, choices);
      c := Merged(h, f, e, below, after);
      UnderFrame(h, below, h, c, f.kids, ParentDep(e, choices), choices);
      BelowFrame(h, after, h, c, f.rest, choices);
    }
  }
}
