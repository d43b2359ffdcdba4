// Walking the menu tree without a stack: next_menu, and the two traversals of
// conf_write that write every symbol once (pdk/config/confdata.c).
module MenuWalk {
  import opened KconfigExpr
  import opened MenuTree

  // Climbing from m, at most d steps up, ends in r: the sibling after m, or else
  // after the nearest ancestor that has one.
  predicate ClimbsTo(h: Heap, m: Id, d: nat, r: Option<Id>)
    decreases d
  {
    && m in h
    && if h[m].next.Some? then r == h[m].next
       else if h[m].parent.None? then r == None
       else d > 0 && ClimbsTo(h, h[m].parent.value, d - 1, r)
  }

  predicate NextIs(h: Heap, m: Id, d: nat, r: Option<Id>) {
    m in h && if h[m].list.Some? then r == h[m].list else ClimbsTo(h, m, d, r)
  }

  // The entry after the j-th one of p, where p is followed by after.
  function Succ(p: seq<Id>, after: Option<Id>, j: nat): Option<Id>
    requires j < |p|
  {
    if j + 1 < |p| then Some(p[j + 1]) else after
  }

  function Head(p: seq<Id>, after: Option<Id>): Option<Id> {
    if p == [] then after else Some(p[0])
  }

  lemma SuccParts(x: Id, k: seq<Id>, r: seq<Id>, after: Option<Id>, j: nat)
    requires j < |[x] + k + r|
    ensures var p := [x] + k + r;
      if j == 0 then p[j] == x && Succ(p, after, j) == Head(k, Head(r, after))
      else if j <= |k| then p[j] == k[j - 1] && Succ(p, after, j) == Succ(k, Head(r, after), j - 1)
      else p[j] == r[j - 1 - |k|] && Succ(p, after, j) == Succ(r, after, j - 1 - |k|)
  {
  }

  lemma HeadOfPreorder(f: Forest, after: Option<Id>)
    ensures Head(Preorder(f), after) == First(f, after)
  {
  }

  // In a chain whose parent climbs to after, every entry is followed by the next
  // one in preorder and the last by after.
  lemma {:induction false} NextAt(h: Heap, f: Forest, first: Option<Id>, par: Option<Id>, after: Option<Id>, up: nat, j: nat)
    returns (d: nat)
    requires Linked(h, f, first, par, None) && j < |Preorder(f)|
    requires if par.Some? then ClimbsTo(h, par.value, up, after) else after == None
    ensures NextIs(h, Preorder(f)[j], d, Succ(Preorder(f), after, j))
    decreases f
  {
    var kp, rp := Preorder(f.kids), Preorder(f.rest);
    LinkedInHeap(h, f.kids, h[f.id].list, Some(f.id), None);
    LinkedInHeap(h, f.rest, h[f.id].next, par, None);
    SuccParts(f.id, kp, rp, after, j);
    HeadOfPreorder(f.rest, after);
    HeadOfPreorder(f.kids, First(f.rest, after));
    var onward := First(f.rest, after);
    assert ClimbsTo(h, f.id, up + 1, onward);
    if j == 0 {
      d := up + 1;
    } else if j <= |kp| {
      d := NextAt(h, f.kids, h[f.id].list, Some(f.id), onward, up + 1, j - 1);
    } else {
      d := NextAt(h, f.rest, h[f.id].next, par, after, up, j - 1 - |kp|);
    }
  }

  // The entries below rootmenu, which itself has neither parent nor sibling.
  predicate Rooted(h: Heap, root: Id, f: Forest) {
    && root in h && h[root].next == None && h[root].parent == None
    && Linked(h, f, h[root].list, Some(root), None)
  }

  // From the j-th entry in preorder next_menu leads to the one after it, and
  // from the last one to null.
  method NextMenu(h: Heap, menu: Id, ghost root: Id, ghost f: Forest, ghost j: nat) returns (r: Option<Id>)
    requires Rooted(h, root, f) && j < |Preorder(f)| && Preorder(f)[j] == menu
    ensures r == if j + 1 < |Preorder(f)| then Some(Preorder(f)[j + 1]) else None
  {
    ghost var d := NextAt(h, f, h[root].list, Some(root), None, 0, j);
    ghost var target := Succ(Preorder(f), None, j);
    if h[menu].list.Some? {
      return h[menu].list;
    }
    var m := menu;
    while true
      invariant ClimbsTo(h, m, d, target)
      decreases d
    {
      if h[m].next.Some? {
        return h[m].next;
      }
      if h[m].parent.None? {
        return None;
      }
      m := h[m].parent.value;
      d := d - 1;
    }
  }

  // ---------- conf_write ----------

  function SymbolsOf(h: Heap, ids: seq<Id>): seq<Symbol> {
    if ids == [] then []
    else if ids[0] in h && h[ids[0]].sym.Some? then [h[ids[0]].sym.value] + SymbolsOf(h, ids[1..])
    else SymbolsOf(h, ids[1..])
  }

  lemma {:induction false} SymbolsOfSnoc(h: Heap, ids: seq<Id>, j: nat)
    requires j < |ids| && ids[j] in h
    ensures SymbolsOf(h, ids[..j + 1]) == SymbolsOf(h, ids[..j]) + if h[ids[j]].sym.Some? then [h[ids[j]].sym.value] else []
  {
    var a, b := ids[..j + 1], ids[..j];
    if j == 0 {
      assert a[1..] == [];
    } else {
      SymbolsOfSnoc(h, ids[1..], j - 1);
      assert a[1..] == ids[1..][..j] && b[1..] == ids[1..][..j - 1];
    }
  }

  // Each symbol that is not a choice, at its first appearance.
  function WriteOrder(syms: seq<Symbol>, choices: set<Symbol>): seq<Symbol> {
    if syms == [] then []
    else
      var before := WriteOrder(syms[..|syms| - 1], choices);
      var s := syms[|syms| - 1];
      if s in choices || s in before then before else before + [s]
  }

  lemma {:induction false} WriteOrderOnce(syms: seq<Symbol>, choices: set<Symbol>)
    ensures var out := WriteOrder(syms, choices);
      && (forall i, j | 0 <= i < j < |out| :: out[i] != out[j])
      && (forall s :: s in out <==> s in syms && s !in choices)
  {
    if syms != [] {
      var init, last := syms[..|syms| - 1], syms[|syms| - 1];
      WriteOrderOnce(init, choices);
      assert syms == init + [last];
    }
  }

  // The j-th symbol is met there for the first time.
  predicate FirstMet(syms: seq<Symbol>, j: int) {
    0 <= j < |syms| && syms[j] !in syms[..j]
  }

  ghost predicate Before(out: seq<Symbol>, s: Symbol, t: Symbol) {
    exists a, b :: 0 <= a < b < |out| && out[a] == s && out[b] == t
  }

  // The order is that of the first appearances.
  lemma {:induction false} WriteOrderFirst(syms: seq<Symbol>, choices: set<Symbol>, i: int, j: int)
    requires FirstMet(syms, i) && FirstMet(syms, j) && syms[i] !in choices && syms[j] !in choices && i < j
    ensures Before(WriteOrder(syms, choices), syms[i], syms[j])
  {
    var n := |syms| - 1;
    var init := syms[..n];
    var before, out := WriteOrder(init, choices), WriteOrder(syms, choices);
    assert init[..i] == syms[..i] && init[i] == syms[i];
    if j < n {
      assert init[..j] == syms[..j] && init[j] == syms[j];
      WriteOrderFirst(init, choices, i, j);
      var a, b :| 0 <= a < b < |before| && before[a] == syms[i] && before[b] == syms[j];
      assert out[a] == syms[i] && out[b] == syms[j];
    } else {
      assert j == n && syms[..j] == init;
      WriteOrderOnce(init, choices);
      assert init[i] in before;
      var a :| 0 <= a < |before| && before[a] == syms[i];
      assert syms[j] !in before && out == before + [syms[j]];
      assert out[a] == syms[i] && out[|before|] == syms[j];
    }
  }

  class ConfWriter {
    const heap: Heap
    const choices: set<Symbol>        // SYMBOL_CHOICE
    var forceWrite: set<Symbol>       // SYMBOL_FORCEWRITE
    var written: seq<Symbol>          // the symbols in the order they go to the file

    constructor (heap: Heap, choices: set<Symbol>)
      ensures this.heap == heap && this.choices == choices && forceWrite == {} && written == []
    {
      this.heap, this.choices := heap, choices;
      forceWrite, written := {}, [];
    }

    // Two walks over the tree: the first marks the symbol of every entry, the
    // second writes each marked one and takes its mark away.
    method ConfWrite(root: Id, ghost f: Forest)
      requires Rooted(heap, root, f)
      modifies this
      ensures written == old(written) + WriteOrder(SymbolsOf(heap, Preorder(f)), choices)
    {
      ghost var p := Preorder(f);
      LinkedInHeap(heap, f, heap[root].list, Some(root), None);
      var menu := heap[root].list;
      ghost var j := 0;
      while menu.Some?
        invariant 0 <= j <= |p|
        invariant menu == if j < |p| then Some(p[j]) else None
        invariant forall s | s in SymbolsOf(heap, p[..j]) :: s in forceWrite
        invariant written == old(written)
        decreases |p| - j
      {
        SymbolsOfSnoc(heap, p, j);
        if heap[menu.value].sym.Some? {
          forceWrite := forceWrite + {heap[menu.value].sym.value};
        }
        menu := NextMenu(heap, menu.value, root, f, j);
        j := j + 1;
      }
      assert p[..j] == p;
      ghost var all := SymbolsOf(heap, p);
      menu := heap[root].list;
      j := 0;
      while menu.Some?
        invariant 0 <= j <= |p|
        invariant menu == if j < |p| then Some(p[j]) else None
        invariant written == old(written) + WriteOrder(SymbolsOf(heap, p[..j]), choices)
        invariant forall s | s in all && s !in choices :: s in forceWrite <==> s !in WriteOrder(SymbolsOf(heap, p[..j]), choices)
        decreases |p| - j
      {
        SymbolsOfSnoc(heap, p, j);
        ghost var seen := SymbolsOf(heap, p[..j]);
        var sym := heap[menu.value].sym;
        if sym.Some? {
          assert (seen + [sym.value])[..|seen|] == seen;
          SymbolIn(heap, p, j);
          if sym.value !in choices && sym.value in forceWrite {
            forceWrite := forceWrite - {sym.value};
            written := written + [sym.value];
          }
        } else {
          assert seen + [] == seen;
        }
        menu := NextMenu(heap, menu.value, root, f, j);
        j := j + 1;
      }
      assert p[..j] == p;
    }
  }

  lemma {:induction false} SymbolIn(h: Heap, ids: seq<Id>, j: nat)
    requires j < |ids| && ids[j] in h && h[ids[j]].sym.Some?
    ensures h[ids[j]].sym.value in SymbolsOf(h, ids)
  {
    if j > 0 { SymbolIn(h, ids[1..], j - 1); }
  }
}
