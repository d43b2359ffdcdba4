// The menu entries and the links between them (struct menu, pdk/config/expr.h).
// An entry is named by a number; its struct is looked up in a map, so that a
// link can be followed and overwritten as the pointers are.
module MenuTree {
  import opened KconfigExpr

  type Id = nat

  datatype Prompt = Prompt(hasText: bool, visible: Option<Expr>)

  datatype Entry = Entry(next: Option<Id>, list: Option<Id>, parent: Option<Id>,
                         sym: Option<Symbol>, prompt: Option<Prompt>, dep: Option<Expr>)

  type Heap = map<Id, Entry>

  // A chain of siblings with everything below them.
  datatype Forest = Nil | Cons(id: Id, kids: Forest, rest: Forest)

  function Preorder(f: Forest): seq<Id> {
    match f
    case Nil => []
    case Cons(id, kids, rest) => [id] + Preorder(kids) + Preorder(rest)
  }

  function Append(f: Forest, g: Forest): Forest {
    match f
    case Nil => g
    case Cons(id, kids, rest) => Cons(id, kids, Append(rest, g))
  }

  function First(f: Forest, end: Option<Id>): Option<Id> {
    if f.Nil? then end else Some(f.id)
  }

  predicate NoDup(s: seq<Id>) {
    forall i, j | 0 <= i < j < |s| :: s[i] != s[j]
  }

  // From first, the next links run through f and on to end; every entry of the
  // chain has par as its parent, and its list holds its children.
  predicate Linked(h: Heap, f: Forest, first: Option<Id>, par: Option<Id>, end: Option<Id>) {
    match f
    case Nil => first == end
    case Cons(id, kids, rest) =>
      && first == Some(id)
      && id in h
      && h[id].parent == par
      && Linked(h, kids, h[id].list, Some(id), None)
      && Linked(h, rest, h[id].next, par, end)
  }

  // The entries in ids are linked alike in both heaps.
  predicate SameLinks(h: Heap, h': Heap, ids: seq<Id>) {
    forall id | id in ids :: id in h && id in h' &&
      h'[id].next == h[id].next && h'[id].list == h[id].list && h'[id].parent == h[id].parent
  }

  predicate Unchanged(h: Heap, h': Heap, ids: seq<Id>) {
    h.Keys == h'.Keys && forall id | id in h && id !in ids :: h'[id] == h[id]
  }

  predicate Apart(a: seq<Id>, b: seq<Id>) {
    forall x | x in a :: x !in b
  }

  lemma {:induction false} LinkedFrame(h: Heap, h': Heap, f: Forest, first: Option<Id>, par: Option<Id>, end: Option<Id>)
    requires Linked(h, f, first, par, end) && SameLinks(h, h', Preorder(f))
    ensures Linked(h', f, first, par, end)
  {
    if f.Cons? {
      assert f.id in Preorder(f);
      LinkedFrame(h, h', f.kids, h[f.id].list, Some(f.id), None);
      LinkedFrame(h, h', f.rest, h[f.id].next, par, end);
    }
  }

  lemma {:induction false} LinkedInHeap(h: Heap, f: Forest, first: Option<Id>, par: Option<Id>, end: Option<Id>)
    requires Linked(h, f, first, par, end)
    ensures first == First(f, end)
    ensures forall id | id in Preorder(f) :: id in h
  {
    if f.Cons? {
      LinkedInHeap(h, f.kids, h[f.id].list, Some(f.id), None);
      LinkedInHeap(h, f.rest, h[f.id].next, par, end);
    }
  }

  // Changes elsewhere do not disturb a chain.
  lemma LinkedElsewhere(h: Heap, h': Heap, ids: seq<Id>, f: Forest, first: Option<Id>, par: Option<Id>, end: Option<Id>)
    requires Linked(h, f, first, par, end) && Unchanged(h, h', ids) && Apart(Preorder(f), ids)
    ensures Linked(h', f, first, par, end)
  {
    LinkedInHeap(h, f, first, par, end);
    LinkedFrame(h, h', f, first, par, end);
  }

  lemma {:induction false} PreorderAppend(f: Forest, g: Forest)
    ensures Preorder(Append(f, g)) == Preorder(f) + Preorder(g)
  {
    if f.Cons? {
      PreorderAppend(f.rest, g);
    }
  }

  lemma {:induction false} AppendNil(f: Forest)
    ensures Append(f, Nil) == f
  {
    if f.Cons? { AppendNil(f.rest); }
  }

  lemma {:induction false} LinkedAppend(h: Heap, f: Forest, g: Forest, first: Option<Id>, mid: Option<Id>, par: Option<Id>, end: Option<Id>)
    requires Linked(h, f, first, par, mid) && Linked(h, g, mid, par, end)
    ensures Linked(h, Append(f, g), first, par, end)
  {
    if f.Cons? {
      LinkedAppend(h, f.rest, g, h[f.id].next, mid, par, end);
    }
  }

  lemma {:induction false} AppendSnoc(f: Forest, id: Id, kids: Forest, g: Forest)
    ensures Append(Append(f, Cons(id, kids, Nil)), g) == Append(f, Cons(id, kids, g))
  {
    if f.Cons? { AppendSnoc(f.rest, id, kids, g); }
  }

  lemma {:induction false} AppendOver(f: Forest, g: Forest, h: Forest)
    ensures Append(Append(f, g), h) == Append(f, Append(g, h))
  {
    if f.Cons? { AppendOver(f.rest, g, h); }
  }

  // Moving the head of rest to the end of done.
  lemma MoveOver(done: Forest, rest: Forest)
    requires rest.Cons?
    ensures var d := Append(done, Cons(rest.id, rest.kids, Nil));
      && Append(d, rest.rest) == Append(done, rest)
      && Preorder(d) == Preorder(done) + ([rest.id] + Preorder(rest.kids))
      && Preorder(d) + Preorder(rest.rest) == Preorder(done) + Preorder(rest)
  {
    var one := Cons(rest.id, rest.kids, Nil);
    AppendSnoc(done, rest.id, rest.kids, rest.rest);
    PreorderAppend(done, one);
    assert Preorder(one) == [rest.id] + Preorder(rest.kids);
    assert Preorder(done) + ([rest.id] + Preorder(rest.kids)) + Preorder(rest.rest) == Preorder(done) + Preorder(rest);
  }

  // The last entry of the chain itself.
  function LastId(f: Forest): Id
    requires f.Cons?
  {
    if f.rest.Nil? then f.id else LastId(f.rest)
  }

  lemma {:induction false} LastIdIn(f: Forest)
    requires f.Cons?
    ensures LastId(f) in Preorder(f)
  {
    if f.rest.Cons? { LastIdIn(f.rest); }
  }

  lemma {:induction false} LastIdAppend(f: Forest, id: Id, kids: Forest)
    ensures LastId(Append(f, Cons(id, kids, Nil))) == id
  {
    if f.Cons? { LastIdAppend(f.rest, id, kids); }
  }

  // Overwriting the next link of the last entry redirects the end of the chain.
  lemma {:induction false} Redirect(h: Heap, f: Forest, first: Option<Id>, par: Option<Id>, end: Option<Id>, end': Option<Id>)
    requires f.Cons? && Linked(h, f, first, par, end) && NoDup(Preorder(f))
    ensures LastId(f) in h && h[LastId(f)].next == end
    ensures Linked(h[LastId(f) := h[LastId(f)].(next := end')], f, first, par, end')
  {
    var p, k, r := Preorder(f), Preorder(f.kids), Preorder(f.rest);
    assert p == [f.id] + k + r;
    LinkedInHeap(h, f, first, par, end);
    LastIdIn(f);
    var l := LastId(f);
    var h' := h[l := h[l].(next := end')];
    assert f.id == p[0];
    if f.rest.Nil? {
      assert l !in k by { NotInKids(f); }
      LinkedFrame(h, h', f.kids, h[f.id].list, Some(f.id), None);
    } else {
      NoDupParts(f);
      LastIdIn(f.rest);
      Redirect(h, f.rest, h[f.id].next, par, end, end');
      assert l != f.id && l !in k;
      LinkedFrame(h, h', f.kids, h[f.id].list, Some(f.id), None);
    }
  }

  lemma NotInKids(f: Forest)
    requires f.Cons? && NoDup(Preorder(f))
    ensures f.id !in Preorder(f.kids) && f.id !in Preorder(f.rest)
  {
    NoDupParts(f);
  }

  lemma NoDupParts(f: Forest)
    requires f.Cons? && NoDup(Preorder(f))
    ensures NoDup(Preorder(f.kids)) && NoDup(Preorder(f.rest))
    ensures f.id !in Preorder(f.kids) && f.id !in Preorder(f.rest)
    ensures Apart(Preorder(f.kids), Preorder(f.rest)) && Apart(Preorder(f.rest), Preorder(f.kids))
  {
    var k, r := Preorder(f.kids), Preorder(f.rest);
    assert Preorder(f) == [f.id] + (k + r);
    NoDupSplit([f.id], k + r);
    NoDupSplit(k, r);
    assert f.id in [f.id] && Apart([f.id], k + r);
  }

  lemma NoDupSplit(a: seq<Id>, b: seq<Id>)
    ensures NoDup(a + b) <==> NoDup(a) && NoDup(b) && Apart(a, b)
    ensures Apart(a, b) <==> Apart(b, a)
  {
    var s := a + b;
    if NoDup(s) {
      forall i, j | 0 <= i < j < |a| ensures a[i] != a[j] { assert s[i] == a[i] && s[j] == a[j]; }
      forall i, j | 0 <= i < j < |b| ensures b[i] != b[j] { assert s[|a| + i] == b[i] && s[|a| + j] == b[j]; }
      forall i, j | 0 <= i < |a| && 0 <= j < |b| ensures a[i] != b[j] {
        assert s[i] == a[i] && s[|a| + j] == b[j];
      }
    }
    if NoDup(a) && NoDup(b) && Apart(a, b) {
      forall i, j | 0 <= i < j < |s| ensures s[i] != s[j] {
        if j < |a| {
          assert s[i] == a[i] && s[j] == a[j];
        } else if i >= |a| {
          assert s[i] == b[i - |a|] && s[j] == b[j - |a|];
        } else {
          assert s[i] == a[i] && a[i] in a && s[j] == b[j - |a|];
        }
      }
    }
  }
}
