// However the threads of a channel have been interleaved, letting them finish
// and reading what has arrived brings the sender's window back: the flow control
// of paramiko/channel.py cannot lock itself up.
module ChannelProgress {
  import opened KconfigExpr
  import opened Bytes
  import opened ChannelState
  import opened ChannelFlow

  function ActAll(x: Side, acts: seq<Action>): Side
    decreases |acts|
  {
    if acts == [] then x else ActAll(Act(x, acts[0]), acts[1..])
  }

  function Lefts(acts: seq<Action>): seq<Step> {
    if acts == [] then [] else [Left(acts[0])] + Lefts(acts[1..])
  }

  function Rights(acts: seq<Action>): seq<Step> {
    if acts == [] then [] else [Right(acts[0])] + Rights(acts[1..])
  }

  lemma {:induction false} RunLefts(s: System, acts: seq<Action>)
    ensures Run(s, Lefts(acts)) == s.(left := ActAll(s.left, acts))
    decreases |acts|
  {
    if acts != [] {
      assert Lefts(acts)[1..] == Lefts(acts[1..]);
      RunLefts(Next(s, Left(acts[0])), acts[1..]);
    }
  }

  lemma {:induction false} RunRights(s: System, acts: seq<Action>)
    ensures Run(s, Rights(acts)) == s.(right := ActAll(s.right, acts))
    decreases |acts|
  {
    if acts != [] {
      assert Rights(acts)[1..] == Rights(acts[1..]);
      RunRights(Next(s, Right(acts[0])), acts[1..]);
    }
  }

  // The steps left to the threads of one side.
  function Work(ps: seq<Pending>): nat {
    if ps == [] then 0 else (if ps[0].Read? then 2 else 1) + Work(ps[1..])
  }

  lemma {:induction false} WorkAppend(ps: seq<Pending>, p: Pending)
    ensures Work(ps + [p]) == Work(ps) + (if p.Read? then 2 else 1)
  {
    if ps == [] {
      assert ps + [p] == [p] && [p][1..] == [];
    } else {
      assert (ps + [p])[1..] == ps[1..] + [p];
      WorkAppend(ps[1..], p);
    }
  }

  predicate NothingMoving(ps: seq<Pending>) {
    forall p | p in ps :: !p.Moving?
  }

  predicate SameBuffers(x: Side, y: Side) {
    x.e.inBuffer == y.e.inBuffer && x.e.inStderr == y.e.inStderr
  }

  // The threads of one side finish.
  lemma {:induction false} FinishAll(x: Side) returns (acts: seq<Action>)
    ensures forall a | a in acts :: a == Finish(0)
    ensures ActAll(x, acts).pending == []
    ensures NothingMoving(x.pending) ==> SameBuffers(x, ActAll(x, acts))
    decreases Work(x.pending)
  {
    hide Act, Work;
    acts := [];
    if x.pending != [] {
      FinishOne(x);
      var rest := FinishAll(Act(x, Finish(0)));
      acts := [Finish(0)] + rest;
    }
  }

  // The first thread goes one step on, and has less to do.
  lemma FinishOne(x: Side)
    requires x.pending != []
    ensures var y := Act(x, Finish(0));
      && Work(y.pending) < Work(x.pending)
      && (NothingMoving(x.pending) ==> NothingMoving(y.pending) && SameBuffers(x, y))
  {
    var p := x.pending[0];
    assert Without(x.pending, 0) == x.pending[1..];
    if p.Read? { WorkAppend(x.pending[1..], Unsent(Adjust(CheckAddWindow(x.e, p.n).1))); }
    assert p in x.pending;
  }

  // Everything from left to right arrives.
  lemma {:induction false} DeliverRight(s: System) returns (steps: seq<Step>)
    ensures forall t | t in steps :: t == ToRight
    ensures var r := Run(s, steps);
      r.left == s.left.(sent := []) && r.right.sent == s.right.sent
    decreases |s.left.sent|
  {
    steps := [];
    if s.left.sent != [] {
      var rest := DeliverRight(Next(s, ToRight));
      steps := [ToRight] + rest;
    }
  }

  lemma {:induction false} DeliverLeft(s: System) returns (steps: seq<Step>)
    requires OutsHeld(s.left.pending) == 0
    ensures forall t | t in steps :: t == ToLeft
    ensures var r := Run(s, steps);
      r.right == s.right.(sent := []) && r.left.sent == s.left.sent && OutsHeld(r.left.pending) == 0
    decreases |s.right.sent|
  {
    steps := [];
    if s.right.sent != [] {
      var ms := Receive(s.left.e, s.right.sent[0]).1;
      NoCredit(ms);
      HeldAppend(s.left.pending, Unsents(ms));
      var rest := DeliverLeft(Next(s, ToLeft));
      steps := [ToLeft] + rest;
    }
  }

  lemma ReadAll(x: Side) returns (acts: seq<Action>)
    requires x.pending == []
    ensures acts == [ReadOut(|x.e.inBuffer|), ReadErr(|x.e.inStderr|)]
    ensures var y := ActAll(x, acts);
      NothingMoving(y.pending) && y.e.inBuffer == [] && y.e.inStderr == []
  {
    acts := [ReadOut(|x.e.inBuffer|), ReadErr(|x.e.inStderr|)];
    var y := Act(x, acts[0]);
    var z := Act(y, acts[1]);
    assert acts[1..] == [acts[1]] && acts[1..][1..] == [];
    assert ActAll(x, acts) == ActAll(y, acts[1..]) == ActAll(z, acts[1..][1..]) == z;
  }

  // Nobody sends any more; threads finish, messages arrive, the receiver reads.
  predicate Draining(t: Step) {
    t.ToLeft? || t.ToRight? || t == Left(Finish(0)) || t == Right(Finish(0))
    || (t.Right? && (t.a.ReadOut? || t.a.ReadErr?))
  }

  predicate AllDraining(steps: seq<Step>) {
    forall t | t in steps :: Draining(t)
  }

  lemma Joined(s: System, a: seq<Step>, b: seq<Step>)
    ensures Run(s, a + b) == Run(Run(s, a), b)
    ensures AllDraining(a) && AllDraining(b) ==> AllDraining(a + b)
  {
    LostAppend(s, a, b);
  }

  lemma FinishLeft(s: System) returns (steps: seq<Step>)
    ensures AllDraining(steps)
    ensures var r := Run(s, steps); r.left.pending == [] && r.right == s.right
  {
    var acts := FinishAll(s.left);
    steps := Lefts(acts);
    RunLefts(s, acts);
    OnlyFinishes(acts);
  }

  lemma FinishRight(s: System) returns (steps: seq<Step>)
    ensures AllDraining(steps)
    ensures var r := Run(s, steps);
      r.right.pending == [] && r.left == s.left && (NothingMoving(s.right.pending) ==> SameBuffers(s.right, r.right))
  {
    var acts := FinishAll(s.right);
    steps := Rights(acts);
    RunRights(s, acts);
    OnlyFinishes(acts);
  }

  lemma ReadRight(s: System) returns (steps: seq<Step>)
    requires s.right.pending == []
    ensures AllDraining(steps)
    ensures var r := Run(s, steps);
      r.left == s.left && NothingMoving(r.right.pending) && r.right.e.inBuffer == [] && r.right.e.inStderr == []
  {
    var acts := ReadAll(s.right);
    steps := Rights(acts);
    RunRights(s, acts);
    TwoReads(acts);
  }

  // From any state such steps lead to one where nothing is on its way: what the
  // left end has goes out and arrives, is read and counted, and the grants return.
  lemma Drains(s: System) returns (steps: seq<Step>)
    ensures AllDraining(steps)
    ensures Quiet(Run(s, steps))
  {
    hide Run;
    var t1 := FinishLeft(s);
    var s1 := Run(s, t1);
    var t2 := DeliverRight(s1);
    var s2 := Run(s1, t2);
    Joined(s, t1, t2);
    var t3 := FinishRight(s2);
    var s3 := Run(s2, t3);
    Joined(s, t1 + t2, t3);
    var t4 := ReadRight(s3);
    var s4 := Run(s3, t4);
    Joined(s, t1 + t2 + t3, t4);
    var t5 := FinishRight(s4);
    var s5 := Run(s4, t5);
    Joined(s, t1 + t2 + t3 + t4, t5);
    var t6 := DeliverLeft(s5);
    Joined(s, t1 + t2 + t3 + t4 + t5, t6);
    steps := t1 + t2 + t3 + t4 + t5 + t6;
  }

  lemma {:induction false} OnlyFinishes(acts: seq<Action>)
    requires forall a | a in acts :: a == Finish(0)
    ensures forall t | t in Lefts(acts) :: t == Left(Finish(0))
    ensures forall t | t in Rights(acts) :: t == Right(Finish(0))
  {
    if acts != [] {
      assert acts[0] in acts && forall a | a in acts[1..] :: a in acts;
      OnlyFinishes(acts[1..]);
    }
  }

  lemma TwoReads(acts: seq<Action>)
    requires |acts| == 2 && acts[0].ReadOut? && acts[1].ReadErr?
    ensures Rights(acts) == [Right(acts[0]), Right(acts[1])]
  {
    assert acts[1..] == [acts[1]] && acts[1..][1..] == [];
    assert Rights(acts[1..]) == [Right(acts[1])] + Rights([]);
  }

  // From every reachable state the window comes back to at least nine tenths by
  // such steps alone, apart from what has been discarded, unless the receiver has
  // been shut or shuts on the way.
  lemma WindowComesBack(s: System, run: seq<Step>) returns (steps: seq<Step>)
    requires Initial(s)
    ensures AllDraining(steps)
    ensures var r, W := Run(Run(s, run), steps), s.right.e.inWindow;
      r.right.e.IsOpen() ==>
        && W - W / 10 - LostRight(s, run + steps) <= r.left.e.outWindow <= W - LostRight(s, run)
        && (OnlyKnown(run) && W >= 1 ==> r.left.e.outWindow >= W - W / 10 > 0)
  {
    steps := Drains(Run(s, run));
    LostAppend(s, run, steps);
    if Run(s, run + steps).right.e.IsOpen() { NoStall(s, run + steps, []); }
  }
}
