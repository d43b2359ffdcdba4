// Walks and cycles in a directed graph given by its successor lists, and what
// a depth-first search without memory has to find.
module Walks {
  ghost predicate IsWalk<T(!new)>(next: T -> seq<T>, p: seq<T>) {
    |p| > 0 && forall i | 0 <= i < |p| - 1 :: p[i + 1] in next(p[i])
  }

  // Walks are only tried for what follows where they are named.
  predicate Named<T>(p: seq<T>) { true }

  // b can be reached from a in at least one step.
  ghost predicate Reaches<T(!new)>(next: T -> seq<T>, a: T, b: T) {
    exists p {:trigger Named(p)} :: Named(p) && IsWalk(next, p) && |p| >= 2 && p[0] == a && p[|p| - 1] == b
  }

  ghost predicate Repeats<T(!new)>(p: seq<T>) {
    exists i, j :: 0 <= i < j < |p| && p[i] == p[j]
  }

  ghost predicate CycleReachable<T(!new)>(next: T -> seq<T>, s: T) {
    exists p {:trigger Named(p)} :: Named(p) && IsWalk(next, p) && p[0] == s && Repeats(p)
  }

  // A walk from s closes a cycle or ends on the stack.
  ghost predicate Closes<T(!new)>(next: T -> seq<T>, s: T, stack: set<T>) {
    exists p {:trigger Named(p)} :: Named(p) && IsWalk(next, p) && p[0] == s && (Repeats(p) || p[|p| - 1] in stack)
  }

  lemma WalkTail<T(!new)>(next: T -> seq<T>, p: seq<T>, lo: nat, hi: nat)
    requires IsWalk(next, p) && lo < hi <= |p|
    ensures IsWalk(next, p[lo..hi])
  {
    var q := p[lo..hi];
    forall i | 0 <= i < |q| - 1 ensures q[i + 1] in next(q[i]) {
      assert q[i] == p[lo + i] && q[i + 1] == p[lo + i + 1];
    }
  }

  lemma WalkCons<T(!new)>(next: T -> seq<T>, s: T, q: seq<T>)
    requires IsWalk(next, q) && q[0] in next(s)
    ensures IsWalk(next, [s] + q)
  {
    var p := [s] + q;
    forall i | 0 <= i < |p| - 1 ensures p[i + 1] in next(p[i]) {
      assert p[i + 1] == q[i];
      assert i > 0 ==> p[i] == q[i - 1];
    }
  }

  lemma ClosesOnward<T(!new)>(next: T -> seq<T>, s: T, stack: set<T>) returns (d: T)
    requires s !in stack && Closes(next, s, stack)
    ensures d in next(s) && Closes(next, d, stack + {s})
  {
    var p :| Named(p) && IsWalk(next, p) && p[0] == s && (Repeats(p) || p[|p| - 1] in stack);
    assert |p| >= 2;
    var q := p[1..];
    assert Named(q);
    WalkTail(next, p, 1, |p|);
    d := q[0];
    assert p[0 + 1] in next(p[0]);
    if p[|p| - 1] in stack {
      assert q[|q| - 1] == p[|p| - 1];
    } else {
      var i, j :| 0 <= i < j < |p| && p[i] == p[j];
      if i == 0 {
        WalkTail(next, p, 1, j + 1);
        var w := p[1..j + 1];
        assert Named(w) && IsWalk(next, w) && w[0] == d && w[|w| - 1] == s;
      } else {
        assert q[i - 1] == q[j - 1];
        assert Repeats(q);
      }
    }
  }

  lemma ClosesBackward<T(!new)>(next: T -> seq<T>, s: T, d: T, stack: set<T>)
    requires d in next(s) && Closes(next, d, stack + {s})
    ensures Closes(next, s, stack)
  {
    var q :| Named(q) && IsWalk(next, q) && q[0] == d && (Repeats(q) || q[|q| - 1] in stack + {s});
    WalkCons(next, s, q);
    var p := [s] + q;
    assert Named(p);
    if Repeats(q) {
      var i, j :| 0 <= i < j < |q| && q[i] == q[j];
      assert p[i + 1] == p[j + 1];
    } else if q[|q| - 1] == s {
      assert p[0] == p[|p| - 1];
    } else {
      assert p[|p| - 1] == q[|q| - 1];
    }
  }

  lemma ClosesStep<T(!new)>(next: T -> seq<T>, s: T, stack: set<T>)
    requires s !in stack
    ensures Closes(next, s, stack) <==> exists d :: d in next(s) && Closes(next, d, stack + {s})
  {
    if Closes(next, s, stack) {
      var d := ClosesOnward(next, s, stack);
    }
    if d :| d in next(s) && Closes(next, d, stack + {s}) {
      ClosesBackward(next, s, d, stack);
    }
  }

  lemma OnStackCloses<T(!new)>(next: T -> seq<T>, s: T, stack: set<T>)
    requires s in stack
    ensures Closes(next, s, stack)
  {
    var p := [s];
    assert Named(p) && IsWalk(next, p) && p[|p| - 1] in stack;
  }

  lemma CyclesClose<T(!new)>(next: T -> seq<T>, s: T, stack: set<T>)
    requires CycleReachable(next, s)
    ensures Closes(next, s, stack)
  {
  }

  lemma ClosesEmpty<T(!new)>(next: T -> seq<T>, s: T)
    ensures Closes(next, s, {}) <==> CycleReachable(next, s)
  {
  }

  lemma ReachesThrough<T(!new)>(next: T -> seq<T>, q: T, s: T, d: T)
    requires d in next(s) && (q == s || Reaches(next, q, s))
    ensures Reaches(next, q, d)
  {
    if q == s {
      assert Named([s, d]) && IsWalk(next, [s, d]);
    } else {
      var p :| Named(p) && IsWalk(next, p) && |p| >= 2 && p[0] == q && p[|p| - 1] == s;
      var w := p + [d];
      forall i | 0 <= i < |w| - 1 ensures w[i + 1] in next(w[i]) {
        if i < |p| - 1 { assert w[i] == p[i] && w[i + 1] == p[i + 1]; }
      }
      assert Named(w) && w[0] == q && w[|w| - 1] == d && IsWalk(next, w);
    }
  }

  // Going from s to q and from q back to s closes a cycle.
  lemma ThereAndBack<T(!new)>(next: T -> seq<T>, s: T, p: seq<T>, q: T)
    requires IsWalk(next, p) && p[0] == s && p[|p| - 1] == q && Reaches(next, q, s)
    ensures CycleReachable(next, s)
  {
    var w :| Named(w) && IsWalk(next, w) && |w| >= 2 && w[0] == q && w[|w| - 1] == s;
    var c := p + w[1..];
    forall i | 0 <= i < |c| - 1 ensures c[i + 1] in next(c[i]) {
      if i < |p| - 1 {
        assert c[i] == p[i] && c[i + 1] == p[i + 1];
      } else {
        assert c[i] == w[i - |p| + 1] && c[i + 1] == w[i - |p| + 2];
      }
    }
    assert Named(c) && IsWalk(next, c) && c[0] == s && c[|c| - 1] == s;
  }

  // Nothing without a reachable cycle leads back to a vertex that leads to it.
  lemma AcyclicNeverCloses<T(!new)>(next: T -> seq<T>, s: T, stack: set<T>)
    requires !CycleReachable(next, s)
    requires forall q | q in stack :: Reaches(next, q, s)
    ensures !Closes(next, s, stack)
  {
    forall p | IsWalk(next, p) && p[0] == s ensures !Repeats(p) && p[|p| - 1] !in stack {
      assert Named(p);
      if p[|p| - 1] in stack {
        ThereAndBack(next, s, p, p[|p| - 1]);
      }
    }
  }
}
