// menu_finalize (pdk/config/menu.c:198-337): it simplifies the dependencies of
// the entries, turns following siblings that depend on an entry into its
// sub-menu, and lifts the children of entries without a prompt up one level.
// Whatever it does to the links, the entries stay the same in the same preorder.
module MenuFinalize {
  import opened KconfigExpr
  import opened ExprTransform
  import opened MenuDeps
  import opened MenuTree
  import opened MenuConditions
  import opened MenuShape

  // Line 307: a child with a list of its own and no prompt text.
  predicate Lifts(e: Entry) {
    e.list.Some? && NoPromptText(e)
  }

  // No entry of the chain is to be lifted out of.
  predicate NoneLifts(h: Heap, f: Forest) {
    f.Cons? ==> f.id in h && !Lifts(h[f.id]) && NoneLifts(h, f.rest)
  }

  lemma {:induction false} NoneLiftsSnoc(h: Heap, h': Heap, f: Forest, id: Id, kids: Forest)
    requires NoneLifts(h, f) && id in h' && !Lifts(h'[id])
    requires forall x | x in Preorder(f) :: x in h ==> x in h' && h'[x] == h[x]
    ensures NoneLifts(h', Append(f, Cons(id, kids, Nil)))
  {
    if f.Cons? {
      assert f.id in Preorder(f);
      NoneLiftsSnoc(h, h', f.rest, id, kids);
    }
  }

  // One entry further.
  lemma HoistHead(h: Heap, e: Entry, done: Forest, rest: Forest, r: Forest)
    requires rest.Cons? && rest.id in h && SameCondition(h[rest.id], e) && (e.list.Some? <==> rest.kids.Cons?)
    requires r == if Lifts(e) then Cons(rest.id, Nil, Append(rest.kids, rest.rest)) else rest
    ensures Append(Append(done, Cons(rest.id, r.kids, Nil)), Hoist(h, r.rest)) == Append(done, Hoist(h, rest))
  {
    AppendSnoc(done, rest.id, r.kids, Hoist(h, r.rest));
  }

  // A chain that has been worked through up to menu, and what is still ahead.
  ghost predicate Halfway(h: Heap, done: Forest, rest: Forest, first: Option<Id>, menu: Option<Id>, par: Option<Id>, restPar: Option<Id>) {
    && Linked(h, done, first, par, menu) && Linked(h, rest, menu, restPar, None)
    && NoDup(Preorder(done) + Preorder(rest))
  }

  // One step: the head of rest, now with the parent of the chain, is done.
  lemma HalfwayStep(h: Heap, done: Forest, rest: Forest, first: Option<Id>, m: Id, par: Option<Id>, restPar: Option<Id>)
    requires rest.Cons? && rest.id == m && m in h && h[m].parent == par
    requires Linked(h, done, first, par, Some(m))
    requires Linked(h, rest.kids, h[m].list, Some(m), None) && Linked(h, rest.rest, h[m].next, restPar, None)
    requires NoDup(Preorder(done) + Preorder(rest))
    ensures var d := Append(done, Cons(m, rest.kids, Nil));
      Halfway(h, d, rest.rest, first, h[m].next, par, restPar) &&
      Preorder(d) + Preorder(rest.rest) == Preorder(done) + Preorder(rest)
  {
    LinkedAppend(h, done, Cons(m, rest.kids, Nil), first, Some(m), par, h[m].next);
    MoveOver(done, rest);
  }

  // done has joined the sub-menu, rest is still to be looked at.
  ghost predicate AdoptedSoFar(c: Heap, f: Forest, done: Forest, rest: Forest, sym: Symbol, basedep: Option<Expr>) {
    var (d, r) := AdoptShape(c, rest, sym, basedep);
    AdoptShape(c, f, sym, basedep) == (Append(done, d), r)
  }

  lemma AdoptedOneMore(c: Heap, f: Forest, done: Forest, rest: Forest, h: Forest, sym: Symbol, basedep: Option<Expr>)
    requires AdoptedSoFar(c, f, done, rest, sym, basedep)
    requires rest.Cons? && rest.id in c && AdoptsEntry(sym, basedep, VisibleOrDep(c[rest.id])) && h == HeadShape(c, rest)
    ensures AdoptedSoFar(c, f, Append(done, Cons(rest.id, h.kids, Nil)), h.rest, sym, basedep)
  {
    AppendSnoc(done, rest.id, h.kids, AdoptShape(c, h.rest, sym, basedep).0);
  }

  // done has been simplified, rest is still as it was.
  ghost predicate SimplifyInvariant(h: Heap, h': Heap, f: Forest, done: Forest, rest: Forest,
                                    menu: Option<Id>, par: Option<Id>, dep: Option<Expr>) {
    && Linked(h', rest, menu, par, None) && Append(done, rest) == f
    && NoDup(Preorder(done) + Preorder(rest)) && Preorder(done) + Preorder(rest) == Preorder(f)
    && ChainSimplified(h, h', done, dep)
    && Unchanged(h, h', Preorder(done)) && SameLinks(h, h', Preorder(f))
  }

  lemma SimplifyStep(h: Heap, h': Heap, f: Forest, done: Forest, rest: Forest, m: Id, par: Option<Id>, dep: Option<Expr>)
    requires rest.Cons? && rest.id == m && SimplifyInvariant(h, h', f, done, rest, Some(m), par, dep)
    ensures m in h' && SimplifyInvariant(h, h'[m := Simplified(h'[m], dep)], f,
      Append(done, Cons(m, rest.kids, Nil)), rest.rest, h'[m].next, par, dep)
  {
    hide Simplified, ChainSimplified, SameLinks;
    NoDupSplit(Preorder(done), Preorder(rest));
    NoDupParts(rest);
    LinkedInHeap(h', rest, Some(m), par, None);
    var k := h'[m := Simplified(h'[m], dep)];
    LinkedElsewhere(h', k, [m], rest.rest, h'[m].next, par, None);
    SimplifiedInPlace(h, h', k, Preorder(f), Preorder(done), rest, m, dep);
    ChainStep(h, h', k, done, m, rest.kids, dep);
    MoveOver(done, rest);
  }

  // The entry itself has not been touched before, and keeps its links.
  lemma SimplifiedInPlace(h: Heap, h': Heap, k: Heap, ids: seq<Id>, done: seq<Id>, rest: Forest, m: Id, dep: Option<Expr>)
    requires rest.Cons? && rest.id == m && m in h' && k == h'[m := Simplified(h'[m], dep)]
    requires Unchanged(h, h', done) && SameLinks(h, h', ids) && NoDup(done + Preorder(rest))
    ensures m in h && h'[m] == h[m] && Kept(h', h, Preorder(rest.kids)) && SameLinks(h, k, ids)
    ensures m !in done && Unchanged(h, k, done + [m])
  {
    NoDupSplit(done, Preorder(rest));
    assert m in Preorder(rest) && forall x | x in Preorder(rest.kids) :: x in Preorder(rest);
    assert Simplified(h'[m], dep).next == h'[m].next && Simplified(h'[m], dep).list == h'[m].list
        && Simplified(h'[m], dep).parent == h'[m].parent;
  }

  lemma SiblingsSimplified(h: Heap, c: Heap, f: Forest, choices: set<Symbol>)
    requires f.Cons? && SimplifiedBelow(h, c, f, choices)
    ensures SimplifiedBelow(h, c, f.rest, choices)
  {
  }

  // An entry without children has taken the siblings that were finalized.
  lemma TookSiblings(h: Heap, h': Heap, f: Forest, done: Forest, rest: Forest, taken: Forest, choices: set<Symbol>)
    requires f.Cons? && f.kids.Nil? && f.rest == Append(taken, rest) && Preorder(done) == Preorder(taken)
    requires SimplifiedBelow(h, h', taken, choices) && Unchanged(h, h', Preorder(taken))
    requires f.id in h && f.id in h' && h'[f.id] == h[f.id]
    ensures Took(h, h', f, Cons(f.id, done, rest), taken, choices)
  {
    hide Simplified, ParentDep, Append;
    assert [] + Preorder(taken) == Preorder(taken);
  }

  class Menus {
    var heap: Heap
    const choices: set<Symbol>

    constructor (heap: Heap, choices: set<Symbol>)
      ensures this.heap == heap && this.choices == choices
    {
      this.heap, this.choices := heap, choices;
    }

    // The first loop over the children: conditions only, no link changes.
    method SimplifyChildren(first: Option<Id>, parentdep: Option<Expr>, ghost f: Forest, ghost par: Option<Id>)
      requires Linked(heap, f, first, par, None) && NoDup(Preorder(f))
      modifies this
      ensures Linked(heap, f, first, par, None) && ChainSimplified(old(heap), heap, f, parentdep)
      ensures Unchanged(old(heap), heap, Preorder(f)) && SameLinks(old(heap), heap, Preorder(f))
    {
      var menu := first;
      ghost var done, rest := Nil, f;
      LinkedInHeap(heap, f, first, par, None);
      while menu.Some?
        invariant SimplifyInvariant(old(heap), heap, f, done, rest, menu, par, parentdep)
        decreases rest
      {
        var m := menu.value;
        SimplifyStep(old(heap), heap, f, done, rest, m, par, parentdep);
        heap := heap[m := Simplified(heap[m], parentdep)];
        menu := heap[m].next;
        done, rest := Append(done, Cons(m, rest.kids, Nil)), rest.rest;
      }
      AppendNil(done);
      LinkedFrame(old(heap), heap, f, first, par, None);
    }

    // Every child in turn (lines 249-250). Finalizing one may take following
    // siblings out of the chain, but never ahead of it.
    method FinalizeList(first: Option<Id>, ghost f: Forest, ghost par: Option<Id>, ghost c: Heap) returns (ghost g: Forest)
      requires Linked(heap, f, first, par, None) && NoDup(Preorder(f)) && SimplifiedBelow(heap, c, f, choices)
      modifies this
      ensures Linked(heap, g, first, par, None) && Preorder(g) == Preorder(f)
      ensures SimplifiedBelow(old(heap), heap, f, choices) && g == ChainShape(c, f)
      ensures Unchanged(old(heap), heap, Preorder(f))
      decreases |Preorder(f)|, 3
    {
      var menu := first;
      ghost var done, seen, rest := Nil, Nil, f;
      while menu.Some?
        invariant Halfway(heap, done, rest, first, menu, par, par)
        invariant Append(seen, rest) == f && Preorder(done) == Preorder(seen)
        invariant SimplifiedBelow(old(heap), heap, seen, choices) && Unchanged(old(heap), heap, Preorder(seen))
        invariant |Preorder(rest)| <= |Preorder(f)|
        invariant SimplifiedBelow(heap, c, rest, choices) && Append(done, ChainShape(c, rest)) == ChainShape(c, f)
        decreases |Preorder(rest)|
      {
        var m := menu.value;
        ghost var was := heap;
        NoDupSplit(Preorder(done), Preorder(rest));
        ghost var r, taken := MenuFinalize(m, rest, par, c);
        TookRest(was, heap, c, rest, r, taken, choices);
        AppendSnoc(done, m, r.kids, ChainShape(c, r.rest));
        TookStep(old(heap), was, heap, seen, rest, r, taken, choices);
        LinkedElsewhere(was, heap, Preorder(rest), done, first, par, menu);
        HalfwayStep(heap, done, r, first, m, par, par);
        MoveOver(done, r);
        done := Append(done, Cons(m, r.kids, Nil));
        seen := Append(seen, Cons(m, rest.kids, taken));
        rest := r.rest;
        menu := heap[m].next;
      }
      assert rest.Nil?;
      AppendNil(seen);
      AppendNil(done);
      g := done;
    }

    // menu_finalize(p): f is the chain that starts with p, and c holds the
    // conditions the entries will have. The results are the chain afterwards and
    // the siblings that have gone below p.
    method MenuFinalize(p: Id, ghost f: Forest, ghost par: Option<Id>, ghost c: Heap)
      returns (ghost g: Forest, ghost taken: Forest)
      requires f.Cons? && Linked(heap, f, Some(p), par, None) && NoDup(Preorder(f)) && SimplifiedBelow(heap, c, f, choices)
      modifies this
      ensures g == HeadShape(c, f) && Took(old(heap), heap, f, g, taken, choices)
      ensures Linked(heap, g, Some(p), par, None) && Preorder(g) == Preorder(f)
      ensures NoneLifts(heap, g.kids)
      ensures Unchanged(old(heap), heap, Preorder(f))
      ensures p in old(heap) && SameCondition(old(heap)[p], heap[p])
      decreases |Preorder(f)|, 2
    {
      NoDupParts(f);
      LinkedInHeap(heap, f.kids, heap[p].list, Some(p), None);
      g, taken := f, Nil;
      ghost var was := heap;
      if heap[p].list.Some? {
        ghost var kids := FinalizeBelow(p, f, par, c);
        g := Cons(p, kids, f.rest);
      } else if heap[p].sym.Some? {
        g, taken := AdoptSiblings(p, f, par, c);
      }
      ghost var mid, g1 := heap, g;
      TookPreorder(was, mid, f, g1, taken, choices);
      TookRest(was, mid, c, f, g1, taken, choices);
      g := LiftChildren(p, g1, par);
      TookRelinked(was, mid, heap, f, g1, g, taken, choices);
      TookPreorder(was, heap, f, g, taken, choices);
      HoistSame(mid, c, g1.kids);
    }

    // The entry has a list: its children are simplified, then finalized.
    method FinalizeBelow(p: Id, ghost f: Forest, ghost par: Option<Id>, ghost c: Heap) returns (ghost kids: Forest)
      requires f.Cons? && Linked(heap, f, Some(p), par, None) && NoDup(Preorder(f)) && SimplifiedBelow(heap, c, f, choices)
      modifies this
      ensures Linked(heap, Cons(p, kids, f.rest), Some(p), par, None) && Preorder(kids) == Preorder(f.kids)
      ensures heap[p] == old(heap)[p] && kids == ChainShape(c, f.kids)
      ensures SimplifiedUnder(old(heap), heap, f.kids, ParentDep(heap[p], choices), choices)
      ensures Unchanged(old(heap), heap, Preorder(f.kids))
      decreases |Preorder(f)|, 1
    {
      NoDupParts(f);
      LinkedInHeap(heap, f.kids, heap[p].list, Some(p), None);
      SimplifyChildren(heap[p].list, ParentDep(heap[p], choices), f.kids, Some(p));
      ghost var mid := heap;
      BelowFromUnder(old(heap), mid, c, f.kids, ParentDep(heap[p], choices), choices);
      kids := FinalizeList(heap[p].list, f.kids, Some(p), c);
      UnderFromBelow(old(heap), mid, heap, f.kids, ParentDep(heap[p], choices), choices);
      LinkedElsewhere(old(heap), heap, Preorder(f.kids), f.rest, old(heap)[p].next, par, None);
    }

    // The entry has no list: the siblings after it that depend on it, up to the
    // first that does not, become its list (lines 251-282).
    method AdoptSiblings(p: Id, ghost f: Forest, ghost par: Option<Id>, ghost c: Heap) returns (ghost g: Forest, ghost taken: Forest)
      requires f.Cons? && Linked(heap, f, Some(p), par, None) && NoDup(Preorder(f)) && SimplifiedBelow(heap, c, f, choices)
      requires heap[p].list.None? && heap[p].sym.Some?
      modifies this
      ensures Took(old(heap), heap, f, g, taken, choices)
      ensures var (d, r) := AdoptShape(c, f.rest, old(heap)[p].sym.value, OwnVisible(old(heap)[p])); g == Cons(p, d, r)
      ensures Linked(heap, g, Some(p), par, None)
      ensures p in old(heap) && SameCondition(old(heap)[p], heap[p])
      decreases |Preorder(f)|, 1
    {
      hide AdoptsEntry, AdoptShape, Took, SimplifiedBelow;
      NoDupParts(f);
      SiblingsSimplified(heap, c, f, choices);
      LinkedInHeap(heap, f.kids, heap[p].list, Some(p), None);
      assert f.kids.Nil? && Preorder(f) == [p] + Preorder(f.rest);
      var last;
      ghost var done, rest, menu;
      last, done, taken, rest, menu := AdoptRun(p, f.rest, par, c);
      g := Cons(p, done, rest);
      PreorderAppend(taken, rest);
      TookSiblings(old(heap), heap, f, done, rest, taken, choices);
      if last.Some? {
        ghost var was := heap;
        NoDupSplit(Preorder(done), Preorder(rest));
        LinkIn(p, last.value, done, rest, menu, par);
        TookRelinked(old(heap), was, heap, f, g, g, taken, choices);
      }
    }

    // The loop over the siblings (lines 255-276)
    method AdoptRun(p: Id, ghost f: Forest, ghost par: Option<Id>, ghost c: Heap)
      returns (lastMenu: Option<Id>, ghost done: Forest, ghost taken: Forest, ghost rest: Forest, ghost end: Option<Id>)
      requires p in heap && heap[p].sym.Some? && p !in Preorder(f)
      requires Linked(heap, f, heap[p].next, par, None) && NoDup(Preorder(f)) && SimplifiedBelow(heap, c, f, choices)
      modifies this
      ensures Append(taken, rest) == f && Preorder(done) == Preorder(taken)
      ensures SimplifiedBelow(old(heap), heap, taken, choices)
      ensures Unchanged(old(heap), heap, Preorder(taken)) && heap[p] == old(heap)[p]
      ensures Halfway(heap, done, rest, heap[p].next, end, Some(p), par)
      ensures lastMenu == if done.Nil? then None else Some(LastId(done))
      ensures done.Nil? ==> taken.Nil?
      ensures (done, rest) == AdoptShape(c, f, heap[p].sym.value, OwnVisible(heap[p]))
      decreases |Preorder(f)|, 4
    {
      hide AdoptsEntry, HeadShape;
      var sym, basedep := heap[p].sym.value, OwnVisible(heap[p]);
      var menu := heap[p].next;
      lastMenu, done, taken, rest := None, Nil, Nil, f;
      while menu.Some?
        invariant Append(taken, rest) == f && Preorder(done) == Preorder(taken)
        invariant p !in Preorder(taken) && p !in Preorder(rest)
        invariant SimplifiedBelow(old(heap), heap, taken, choices) && Unchanged(old(heap), heap, Preorder(taken))
        invariant Halfway(heap, done, rest, heap[p].next, menu, Some(p), par)
        invariant lastMenu == if done.Nil? then None else Some(LastId(done))
        invariant done.Nil? ==> taken.Nil?
        invariant |Preorder(rest)| <= |Preorder(f)|
        invariant SimplifiedBelow(heap, c, rest, choices) && AdoptedSoFar(c, f, done, rest, sym, basedep)
        decreases |Preorder(rest)|
      {
        var m := menu.value;
        LinkedInHeap(heap, rest, menu, par, None);
        if !AdoptsEntry(sym, basedep, VisibleOrDep(heap[m])) {
          break;
        }
        ghost var was := heap;
        ghost var d, r, t := AdoptOne(p, m, done, rest, par, c);
        TookStep(old(heap), was, heap, taken, rest, r, t, choices);
        TookPreorder(was, heap, rest, r, t, choices);
        AdoptedOneMore(c, f, done, rest, r, sym, basedep);
        taken := Append(taken, Cons(m, rest.kids, t));
        done, rest := d, r.rest;
        lastMenu := Some(m);
        menu := heap[m].next;
      }
      LinkedInHeap(heap, rest, menu, par, None);
      AppendNil(done);
      end := menu;
    }

    // The next sibling joins (lines 272-275): it is finalized among its old
    // siblings, then gets its new parent.
    method AdoptOne(p: Id, m: Id, ghost done: Forest, ghost rest: Forest, ghost par: Option<Id>, ghost c: Heap)
      returns (ghost done': Forest, ghost r: Forest, ghost taken: Forest)
      requires p in heap && p !in Preorder(done) && p !in Preorder(rest)
      requires rest.Cons? && rest.id == m && Halfway(heap, done, rest, heap[p].next, Some(m), Some(p), par)
      requires SimplifiedBelow(heap, c, rest, choices)
      modifies this
      ensures Took(old(heap), heap, rest, r, taken, choices) && m in heap
      ensures r == HeadShape(c, rest) && SimplifiedBelow(heap, c, r.rest, choices)
      ensures Halfway(heap, done', r.rest, heap[p].next, heap[m].next, Some(p), par)
      ensures Preorder(done') == Preorder(done) + ([m] + Preorder(r.kids))
      ensures done' == Append(done, Cons(m, r.kids, Nil)) && done'.Cons? && LastId(done') == m
      decreases |Preorder(rest)|, 3
    {
      hide AdoptsEntry, Simplified, SimplifiedBelow, HeadShape, Took;
      ghost var was := heap;
      NoDupSplit(Preorder(done), Preorder(rest));
      r, taken := MenuFinalize(m, rest, par, c);
      NoDupParts(r);
      ghost var mid := heap;
      heap := heap[m := heap[m].(parent := Some(p))];
      TookRelinked(was, mid, heap, rest, r, r, taken, choices);
      TookRest(was, heap, c, rest, r, taken, choices);
      LinkedElsewhere(mid, heap, [m], r.kids, mid[m].list, Some(m), None);
      LinkedElsewhere(mid, heap, [m], r.rest, mid[m].next, par, None);
      LinkedElsewhere(was, heap, Preorder(rest), done, was[p].next, Some(p), Some(m));
      HalfwayStep(heap, done, r, heap[p].next, m, Some(p), par);
      LastIdAppend(done, m, r.kids);
      MoveOver(done, r);
      done' := Append(done, Cons(m, r.kids, Nil));
    }

    // The adopted siblings become the list of p, and p is followed by the rest
    // (lines 277-281).
    method LinkIn(p: Id, last: Id, ghost done: Forest, ghost rest: Forest, ghost menu: Option<Id>, ghost par: Option<Id>)
      requires p in heap && p !in Preorder(done) && p !in Preorder(rest)
      requires heap[p].list.None? && heap[p].parent == par
      requires done.Cons? && last == LastId(done) && Halfway(heap, done, rest, heap[p].next, menu, Some(p), par)
      modifies this
      ensures Linked(heap, Cons(p, done, rest), Some(p), par, None)
      ensures Unchanged(old(heap), heap, [p] + Preorder(done))
      ensures forall x | x in heap :: SameCondition(old(heap)[x], heap[x])
    {
      ghost var was := heap;
      NoDupSplit(Preorder(done), Preorder(rest));
      LinkedInHeap(was, done, was[p].next, Some(p), menu);
      LastIdIn(done);
      Redirect(was, done, was[p].next, Some(p), menu, None);
      ghost var mid := was[last := was[last].(next := None)];
      heap := heap[p := heap[p].(list := heap[p].next)];
      heap := heap[p := heap[p].(next := heap[last].next)];
      heap := heap[last := heap[last].(next := None)];
      assert Unchanged(mid, heap, [p]);
      LinkedElsewhere(mid, heap, [p], done, was[p].next, Some(p), None);
      LinkedElsewhere(was, heap, [p, last], rest, menu, par, None);
    }

    // The children of p in turn; one that is lifted out of is followed by its
    // former children, which are looked at next (lines 283-317).
    method LiftChildren(p: Id, ghost f: Forest, ghost par: Option<Id>) returns (ghost g: Forest)
      requires f.Cons? && Linked(heap, f, Some(p), par, None) && NoDup(Preorder(f))
      modifies this
      ensures g.Cons? && g.id == p && g.rest == f.rest && Preorder(g.kids) == Preorder(f.kids)
      ensures Linked(heap, g, Some(p), par, None)
      ensures NoneLifts(heap, g.kids) && g.kids == Hoist(old(heap), f.kids)
      ensures Unchanged(old(heap), heap, Preorder(f.kids)) && heap[p] == old(heap)[p]
      ensures forall x | x in heap :: SameCondition(old(heap)[x], heap[x])
    {
      NoDupParts(f);
      ghost var kids := LiftRun(p, f.kids);
      g := Cons(p, kids, f.rest);
      LinkedElsewhere(old(heap), heap, Preorder(f.kids), f.rest, old(heap)[p].next, par, None);
    }

    method LiftRun(p: Id, ghost f: Forest) returns (ghost g: Forest)
      requires p in heap && p !in Preorder(f) && Linked(heap, f, heap[p].list, Some(p), None) && NoDup(Preorder(f))
      modifies this
      ensures Unchanged(old(heap), heap, Preorder(f)) && heap[p] == old(heap)[p]
      ensures Linked(heap, g, heap[p].list, Some(p), None) && Preorder(g) == Preorder(f)
      ensures NoneLifts(heap, g) && g == Hoist(old(heap), f)
      ensures forall x | x in heap :: SameCondition(old(heap)[x], heap[x])
    {
      var menu := heap[p].list;
      ghost var done, rest := Nil, f;
      while menu.Some?
        invariant Unchanged(old(heap), heap, Preorder(f))
        invariant Halfway(heap, done, rest, heap[p].list, menu, Some(p), Some(p))
        invariant Preorder(done) + Preorder(rest) == Preorder(f)
        invariant forall x | x in heap :: SameCondition(old(heap)[x], heap[x])
        invariant NoneLifts(heap, done) && Append(done, Hoist(old(heap), rest)) == Hoist(old(heap), f)
        decreases |Preorder(rest)|
      {
        var m := menu.value;
        LinkedInHeap(heap, rest, menu, Some(p), None);
        done, rest := LiftOne(p, m, done, rest, old(heap));
        menu := heap[m].next;
      }
      LinkedInHeap(heap, rest, menu, Some(p), None);
      AppendNil(done);
      g := done;
    }

    // One child (lines 307-316)
    method LiftOne(p: Id, m: Id, ghost done: Forest, ghost rest: Forest, ghost h: Heap) returns (ghost done': Forest, ghost rest': Forest)
      requires p in heap && p !in Preorder(done) && p !in Preorder(rest)
      requires rest.Cons? && rest.id == m && Halfway(heap, done, rest, heap[p].list, Some(m), Some(p), Some(p))
      requires NoneLifts(heap, done)
      requires h.Keys == heap.Keys && forall x | x in heap :: SameCondition(h[x], heap[x])
      modifies this
      ensures Unchanged(old(heap), heap, Preorder(rest)) && m in heap
      ensures Halfway(heap, done', rest', heap[p].list, heap[m].next, Some(p), Some(p))
      ensures Preorder(done') + Preorder(rest') == Preorder(done) + Preorder(rest)
      ensures |Preorder(rest')| < |Preorder(rest)|
      ensures forall x | x in heap :: SameCondition(old(heap)[x], heap[x])
      ensures NoneLifts(heap, done') && Append(done', Hoist(h, rest')) == Append(done, Hoist(h, rest))
    {
      ghost var was := heap;
      ghost var r := rest;
      NoDupSplit(Preorder(done), Preorder(rest));
      LinkedInHeap(was, rest.kids, was[m].list, Some(m), None);
      if heap[m].list.Some? && (heap[m].prompt.None? || !heap[m].prompt.value.hasText) {
        NoDupParts(rest);
        Lift(p, m, rest.kids, rest.rest);
        HoistKeepsPreorder(m, rest.kids, rest.rest);
        r := Cons(m, Nil, Append(rest.kids, rest.rest));
        LinkedElsewhere(was, heap, Preorder(rest), done, heap[p].list, Some(p), Some(m));
      }
      assert !Lifts(heap[m]) by { LinkedInHeap(heap, r.kids, heap[m].list, Some(m), None); }
      HalfwayStep(heap, done, r, heap[p].list, m, Some(p), Some(p));
      NoneLiftsSnoc(was, heap, done, m, r.kids);
      HoistHead(h, was[m], done, rest, r);
      done' := Append(done, Cons(m, r.kids, Nil));
      rest' := r.rest;
    }

    // The children of m get p for their parent and are put between m and its
    // next sibling.
    method Lift(p: Id, m: Id, ghost kids: Forest, ghost rest: Forest)
      requires m in heap && heap[m].parent == Some(p) && heap[m].list.Some?
      requires m !in Preorder(kids) && m !in Preorder(rest) && NoDup(Preorder(kids)) && Apart(Preorder(kids), Preorder(rest))
      requires Linked(heap, kids, heap[m].list, Some(m), None) && Linked(heap, rest, heap[m].next, Some(p), None)
      modifies this
      ensures Linked(heap, Cons(m, Nil, Append(kids, rest)), Some(m), Some(p), None)
      ensures Unchanged(old(heap), heap, [m] + Preorder(kids))
      ensures forall x | x in heap :: SameCondition(old(heap)[x], heap[x])
    {
      LinkedInHeap(heap, kids, heap[m].list, Some(m), None);
      var last := Reparent(p, m, heap[m].list.value, kids);
      NoDupSplit(Preorder(kids), Preorder(rest));
      LinkedElsewhere(old(heap), heap, Preorder(kids), rest, old(heap)[m].next, Some(p), None);
      Splice(p, m, last, kids, rest);
    }

    // Lines 313-315: the reparented children go between m and its next sibling.
    method Splice(p: Id, m: Id, last: Id, ghost kids: Forest, ghost rest: Forest)
      requires m in heap && heap[m].parent == Some(p) && m !in Preorder(kids) && m !in Preorder(rest)
      requires kids.Cons? && last == LastId(kids) && Linked(heap, kids, heap[m].list, Some(p), None)
      requires Linked(heap, rest, heap[m].next, Some(p), None)
      requires NoDup(Preorder(kids)) && Apart(Preorder(kids), Preorder(rest))
      modifies this
      ensures Linked(heap, Cons(m, Nil, Append(kids, rest)), Some(m), Some(p), None)
      ensures Unchanged(old(heap), heap, [m] + Preorder(kids))
      ensures forall x | x in heap :: SameCondition(old(heap)[x], heap[x])
    {
      ghost var was := heap;
      LastIdIn(kids);
      Redirect(was, kids, was[m].list, Some(p), None, was[m].next);
      heap := heap[last := heap[last].(next := heap[m].next)];
      LinkedElsewhere(was, heap, [last], rest, was[m].next, Some(p), None);
      LinkedAppend(heap, kids, rest, was[m].list, was[m].next, Some(p), None);
      ghost var mid := heap;
      heap := heap[m := heap[m].(next := heap[m].list)];
      heap := heap[m := heap[m].(list := None)];
      PreorderAppend(kids, rest);
      LinkedElsewhere(mid, heap, [m], Append(kids, rest), was[m].list, Some(p), None);
    }

    // Lines 308-312: the whole chain gets a new parent; the last entry is found
    // on the way.
    method Reparent(p: Id, m: Id, first: Id, ghost f: Forest) returns (last: Id)
      requires f.Cons? && Linked(heap, f, Some(first), Some(m), None) && NoDup(Preorder(f))
      modifies this
      ensures Linked(heap, f, Some(first), Some(p), None) && last == LastId(f)
      ensures Unchanged(old(heap), heap, Preorder(f))
      ensures forall x | x in heap :: SameCondition(old(heap)[x], heap[x])
    {
      last := first;
      ghost var done, rest := Nil, f;
      while true
        invariant rest.Cons? && Halfway(heap, done, rest, Some(first), Some(last), Some(p), Some(m))
        invariant Append(done, rest) == f
        invariant Unchanged(old(heap), heap, Preorder(f))
        invariant forall x | x in heap :: SameCondition(old(heap)[x], heap[x])
        decreases |Preorder(rest)|
      {
        ghost var was := heap;
        NoDupSplit(Preorder(done), Preorder(rest));
        NoDupParts(rest);
        PreorderAppend(done, rest);
        heap := heap[last := heap[last].(parent := Some(p))];
        LinkedElsewhere(was, heap, [last], done, Some(first), Some(p), Some(last));
        LinkedElsewhere(was, heap, [last], rest.kids, was[last].list, Some(last), None);
        LinkedElsewhere(was, heap, [last], rest.rest, was[last].next, Some(m), None);
        HalfwayStep(heap, done, rest, Some(first), last, Some(p), Some(m));
        AppendSnoc(done, rest.id, rest.kids, rest.rest);
        LastIdAppend(done, rest.id, rest.kids);
        done, rest := Append(done, Cons(rest.id, rest.kids, Nil)), rest.rest;
        LinkedInHeap(heap, rest, heap[last].next, Some(m), None);
        if heap[last].next.None? {
          AppendNil(done);
          break;
        }
        last := heap[last].next.value;
      }
    }
  }
}
