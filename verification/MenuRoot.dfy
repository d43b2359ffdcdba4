// Finalizing the whole menu and writing the configuration (pdk/config/zconf.y:496
// and pdk/config/confdata.c:346-463): entries change their places in the tree, the
// symbols keep theirs in the file.
module MenuRoot {
  import opened KconfigExpr
  import opened MenuTree
  import opened MenuConditions
  import opened MenuShape
  import opened MenuFinalize
  import opened MenuWalk

  lemma {:induction false} SymbolsOfAppend(h: Heap, a: seq<Id>, b: seq<Id>)
    ensures SymbolsOf(h, a + b) == SymbolsOf(h, a) + SymbolsOf(h, b)
  {
    if a == [] {
      assert a + b == b;
    } else {
      assert (a + b)[1..] == a[1..] + b;
      SymbolsOfAppend(h, a[1..], b);
    }
  }

  // Simplifying conditions leaves the symbols alone.
  lemma {:induction false} SameSymbols(h: Heap, h': Heap, f: Forest, dep: Option<Expr>, choices: set<Symbol>)
    requires SimplifiedUnder(h, h', f, dep, choices)
    ensures SymbolsOf(h', Preorder(f)) == SymbolsOf(h, Preorder(f))
  {
    if f.Cons? {
      SameSymbols(h, h', f.kids, ParentDep(h'[f.id], choices), choices);
      SameSymbols(h, h', f.rest, dep, choices);
      SymbolsOfCons(h, f);
      SymbolsOfCons(h', f);
    }
  }

  lemma SymbolsOfCons(h: Heap, f: Forest)
    requires f.Cons? && f.id in h
    ensures SymbolsOf(h, Preorder(f)) ==
      (if h[f.id].sym.Some? then [h[f.id].sym.value] else [])
      + SymbolsOf(h, Preorder(f.kids)) + SymbolsOf(h, Preorder(f.rest))
  {
    SymbolsOfAppend(h, [f.id] + Preorder(f.kids), Preorder(f.rest));
    SymbolsOfAppend(h, [f.id], Preorder(f.kids));
    assert [f.id][1..] == [];
  }

  // The root has no siblings, so it takes none; what comes back is its tree.
  lemma RootKeeps(h: Heap, h': Heap, root: Id, kids: Forest, g: Forest, taken: Forest, choices: set<Symbol>)
    requires Took(h, h', Cons(root, kids, Nil), g, taken, choices) && Linked(h', g, Some(root), None, None)
    ensures Rooted(h', root, g.kids) && Preorder(g.kids) == Preorder(kids)
    ensures SymbolsOf(h', Preorder(g.kids)) == SymbolsOf(h, Preorder(kids))
  {
    assert taken == Nil && g.rest == Nil;
    assert Preorder(kids) + [] == Preorder(kids);
    SameSymbols(h, h', kids, ParentDep(h'[root], choices), choices);
  }

  // menu_finalize(&rootmenu) followed by conf_write: the symbols are written in the
  // order of their first entries in the menu as it was read.
  method FinalizeAndWrite(m: Menus, root: Id, ghost kids: Forest) returns (written: seq<Symbol>)
    requires Rooted(m.heap, root, kids) && NoDup([root] + Preorder(kids))
    modifies m
    ensures written == old(WriteOrder(SymbolsOf(m.heap, Preorder(kids)), m.choices))
  {
    ghost var f := Cons(root, kids, Nil);
    ghost var was := m.heap;
    assert Preorder(f) == [root] + Preorder(kids);
    LinkedInHeap(was, f, Some(root), None, None);
    ghost var c := ConditionsExist(was, f, m.choices);
    ghost var g, taken := m.MenuFinalize(root, f, None, c);
    RootKeeps(was, m.heap, root, kids, g, taken, m.choices);
    var w := new ConfWriter(m.heap, m.choices);
    w.ConfWrite(root, g.kids);
    written := w.written;
    assert [] + written == written;
  }
}
