// The bytes that go through a channel (paramiko/channel.py), over whole runs of the
// protocol of ChannelFlow: which stream each of them comes out of, and in which order.
module ChannelStreams {
  import opened KconfigExpr
  import opened Bytes
  import opened ChannelState
  import opened ChannelFlow

  // ---------- one direction of a run ----------

  function Sender(s: System, right: bool): Side {
    if right then s.left else s.right
  }

  function Receiver(s: System, right: bool): Side {
    Sender(s, !right)
  }

  // The action of the sender or receiver, if the step is one of it.
  function BySender(t: Step, right: bool): Option<Action> {
    if right && t.Left? then Some(t.a) else if !right && t.Right? then Some(t.a) else None
  }

  function ByReceiver(t: Step, right: bool): Option<Action> {
    BySender(t, !right)
  }

  predicate Arrives(t: Step, right: bool) {
    if right then t.ToRight? else t.ToLeft?
  }

  // What a thread hands to the transport in a step of its side.
  function Handed(x: Side, a: Option<Action>): seq<Message> {
    if a.Some? && a.value.Finish? && a.value.i < |x.pending| && x.pending[a.value.i].Unsent?
    then [x.pending[a.value.i].m] else []
  }

  function HandedOver(s: System, steps: seq<Step>, right: bool): seq<Message>
    decreases |steps|
  {
    if steps == [] then []
    else Handed(Sender(s, right), BySender(steps[0], right)) + HandedOver(Next(s, steps[0]), steps[1..], right)
  }

  // What recv and recv_stderr return.
  function Out(x: Side, a: Option<Action>): seq<byte> {
    if a.Some? && a.value.ReadOut? then Split(x.e.inBuffer, a.value.n).0 else []
  }

  function Err(x: Side, a: Option<Action>): seq<byte> {
    if a.Some? && a.value.ReadErr? then Split(x.e.inStderr, a.value.n).0 else []
  }

  function OutRead(s: System, steps: seq<Step>, right: bool): seq<byte>
    decreases |steps|
  {
    if steps == [] then []
    else Out(Receiver(s, right), ByReceiver(steps[0], right)) + OutRead(Next(s, steps[0]), steps[1..], right)
  }

  function ErrRead(s: System, steps: seq<Step>, right: bool): seq<byte>
    decreases |steps|
  {
    if steps == [] then []
    else Err(Receiver(s, right), ByReceiver(steps[0], right)) + ErrRead(Next(s, steps[0]), steps[1..], right)
  }

  // ---------- what messages are for ----------

  function OutBytes(combined: bool, m: Message): seq<byte> {
    match m
    case Data(s) => s
    case Extended(code, s) => if code == 1 && combined then s else []
    case _ => []
  }

  function ErrBytes(combined: bool, m: Message): seq<byte> {
    match m
    case Extended(code, s) => if code == 1 && !combined then s else []
    case _ => []
  }

  function ForOut(combined: bool, ms: seq<Message>): seq<byte> {
    if ms == [] then [] else OutBytes(combined, ms[0]) + ForOut(combined, ms[1..])
  }

  function ForErr(combined: bool, ms: seq<Message>): seq<byte> {
    if ms == [] then [] else ErrBytes(combined, ms[0]) + ForErr(combined, ms[1..])
  }

  lemma {:induction false} ForAppend(combined: bool, a: seq<Message>, b: seq<Message>)
    ensures ForOut(combined, a + b) == ForOut(combined, a) + ForOut(combined, b)
    ensures ForErr(combined, a + b) == ForErr(combined, a) + ForErr(combined, b)
  {
    if a == [] {
      assert a + b == b;
    } else {
      assert (a + b)[1..] == a[1..] + b;
      ForAppend(combined, a[1..], b);
      Regroup(OutBytes(combined, a[0]), ForOut(combined, a[1..]), ForOut(combined, b));
      Regroup(ErrBytes(combined, a[0]), ForErr(combined, a[1..]), ForErr(combined, b));
    }
  }

  lemma Regroup(a: seq<byte>, b: seq<byte>, c: seq<byte>)
    ensures a + (b + c) == a + b + c
  {
  }

  lemma ForOne(combined: bool, m: Message)
    ensures ForOut(combined, [m]) == OutBytes(combined, m) && ForErr(combined, [m]) == ErrBytes(combined, m)
  {
    assert [m][1..] == [];
    assert OutBytes(combined, m) + [] == OutBytes(combined, m) && ErrBytes(combined, m) + [] == ErrBytes(combined, m);
  }

  // ---------- combined streams ----------

  // A receiver that combines its streams keeps nothing on stderr.
  predicate CombinedOk(x: Side) {
    x.e.combineStderr ==> x.e.inStderr == []
  }

  lemma ActCombined(x: Side, a: Action)
    requires CombinedOk(x)
    ensures CombinedOk(Act(x, a))
  {
  }

  lemma StepCombined(s: System, t: Step)
    requires CombinedOk(s.left) && CombinedOk(s.right)
    ensures CombinedOk(Next(s, t).left) && CombinedOk(Next(s, t).right)
  {
    hide Act;
    match t
    case Left(a) => ActCombined(s.left, a);
    case Right(a) => ActCombined(s.right, a);
    case _ =>
  }

  lemma {:induction false} RunCombined(s: System, steps: seq<Step>)
    requires CombinedOk(s.left) && CombinedOk(s.right)
    ensures CombinedOk(Run(s, steps).left) && CombinedOk(Run(s, steps).right)
    decreases |steps|
  {
    if steps != [] {
      StepCombined(s, steps[0]);
      RunCombined(Next(s, steps[0]), steps[1..]);
    }
  }

  // In every reachable state.
  lemma CombinedNeverHasStderr(s: System, steps: seq<Step>)
    requires Initial(s)
    ensures var r := Run(s, steps);
      && (r.left.e.combineStderr ==> r.left.e.inStderr == [])
      && (r.right.e.combineStderr ==> r.right.e.inStderr == [])
  {
    RunCombined(s, steps);
  }

  lemma ActFlag(y: Side, a: Action)
    ensures Act(y, a).e.combineStderr == if a.Combine? then a.on else y.e.combineStderr
  {
    hide Split, Unsents, Without;
  }

  lemma ReceiveFlag(e: Endpoint, m: Message)
    ensures Receive(e, m).0.combineStderr == e.combineStderr
  {
  }

  // The streams are combined or not as the receiver has said last.
  lemma FlagFollows(s: System, t: Step, right: bool)
    ensures Receiver(Next(s, t), right).e.combineStderr ==
      var a := ByReceiver(t, right);
      if a.Some? && a.value.Combine? then a.value.on else Receiver(s, right).e.combineStderr
  {
    hide Act, Receive;
    var x, y := Sender(s, right), Receiver(s, right);
    if ByReceiver(t, right).Some? {
      ActFlag(y, ByReceiver(t, right).value);
    } else if Arrives(t, right) && x.sent != [] {
      ReceiveFlag(y.e, x.sent[0]);
    }
  }

  // ---------- the order of the bytes while nobody switches ----------

  // The receiver has its streams combined or not, and has nothing to move.
  predicate Steady(y: Side, combined: bool) {
    y.e.combineStderr == combined && CombinedOk(y) && forall p | p in y.pending :: !p.Moving?
  }

  predicate NeverSwitches(steps: seq<Step>, right: bool, combined: bool) {
    forall t | t in steps :: ByReceiver(t, right) != Some(Combine(!combined))
  }

  // What one step of the receiver reads it takes from the front of its buffers.
  lemma ReceiverReads(y: Side, a: Action, combined: bool)
    requires Steady(y, combined) && a != Combine(!combined)
    ensures var y' := Act(y, a);
      && Steady(y', combined)
      && Out(y, Some(a)) + y'.e.inBuffer == y.e.inBuffer
      && Err(y, Some(a)) + y'.e.inStderr == y.e.inStderr
  {
    match a
    case ReadOut(n) => HoldsNoMove(y, Read(|Split(y.e.inBuffer, n).0|));
    case ReadErr(n) => HoldsNoMove(y, Read(|Split(y.e.inStderr, n).0|));
    case StartSend(s, stderr) => SendSteady(y, s, if stderr then Some(1) else None, combined);
    case StartTyped(code, s) => SendSteady(y, s, Some(code), combined);
    case Finish(i) => FinishSteady(y, i, combined);
    case ShutdownWrite => UnsentsDontMove(SendEof(y.e).1);
    case CloseIt => UnsentsDontMove(CloseInternal(y.e).1);
    case _ =>
  }

  lemma HoldsNoMove(y: Side, p: Pending)
    requires (forall q | q in y.pending :: !q.Moving?) && !p.Moving?
    ensures forall q | q in y.pending + [p] :: !q.Moving?
  {
  }

  lemma SendSteady(y: Side, s: seq<byte>, code: Option<int>, combined: bool)
    requires Steady(y, combined)
    ensures var y' := Send(y, s, code);
      Steady(y', combined) && y'.e.inBuffer == y.e.inBuffer && y'.e.inStderr == y.e.inStderr
  {
  }

  lemma FinishSteady(y: Side, i: nat, combined: bool)
    requires Steady(y, combined)
    ensures var y' := Act(y, Finish(i));
      Steady(y', combined) && y'.e.inBuffer == y.e.inBuffer && y'.e.inStderr == y.e.inStderr
  {
    if i < |y.pending| {
      assert y.pending[i] in y.pending;
      forall q | q in Without(y.pending, i) ensures q in y.pending {}
    }
  }

  lemma {:induction false} UnsentsDontMove(ms: seq<Message>)
    ensures forall p | p in Unsents(ms) :: !p.Moving?
  {
    if ms != [] { UnsentsDontMove(ms[1..]); }
  }

  // What the transport feeds the receiver goes to the end of the right buffer.
  lemma ReceiverFed(y: Side, m: Message, combined: bool)
    requires Steady(y, combined)
    ensures var (e, ms) := Receive(y.e, m);
      var y' := y.(e := e, pending := y.pending + Unsents(ms));
      && Steady(y', combined)
      && y'.e.inBuffer == y.e.inBuffer + OutBytes(combined, m)
      && y'.e.inStderr == y.e.inStderr + ErrBytes(combined, m)
  {
    UnsentsDontMove(Receive(y.e, m).1);
  }

  // A step of the sender only adds what it hands over.
  lemma SenderHands(x: Side, a: Action)
    ensures Act(x, a).sent == x.sent + Handed(x, Some(a))
  {
  }

  lemma StepStreams(s: System, t: Step, right: bool, combined: bool)
    requires Steady(Receiver(s, right), combined) && ByReceiver(t, right) != Some(Combine(!combined))
    ensures var r := Next(s, t);
      var (x, y, x', y') := (Sender(s, right), Receiver(s, right), Sender(r, right), Receiver(r, right));
      && Steady(y', combined)
      && Out(y, ByReceiver(t, right)) + y'.e.inBuffer + ForOut(combined, x'.sent)
         == y.e.inBuffer + ForOut(combined, x.sent) + ForOut(combined, Handed(x, BySender(t, right)))
      && Err(y, ByReceiver(t, right)) + y'.e.inStderr + ForErr(combined, x'.sent)
         == y.e.inStderr + ForErr(combined, x.sent) + ForErr(combined, Handed(x, BySender(t, right)))
  {
    hide Act, Receive, ForOut, ForErr, Steady, Handed, Out, Err;
    var x, y := Sender(s, right), Receiver(s, right);
    if BySender(t, right).Some? {
      var a := BySender(t, right).value;
      SenderHands(x, a);
      ForAppend(combined, x.sent, Handed(x, Some(a)));
      NothingRead(y);
      Regroup(y.e.inBuffer, ForOut(combined, x.sent), ForOut(combined, Handed(x, Some(a))));
      Regroup(y.e.inStderr, ForErr(combined, x.sent), ForErr(combined, Handed(x, Some(a))));
    } else if ByReceiver(t, right).Some? {
      ReceiverReads(y, ByReceiver(t, right).value, combined);
      NothingHanded(x, combined);
    } else {
      NothingRead(y);
      NothingHanded(x, combined);
      if Arrives(t, right) { DeliverStreams(x, y, combined); } else { DeliverBack(y, x, combined); }
    }
  }

  lemma NothingRead(y: Side)
    ensures Out(y, None) == [] && Err(y, None) == []
  {
  }

  lemma NothingHanded(x: Side, combined: bool)
    ensures Handed(x, None) == [] && ForOut(combined, []) == [] && ForErr(combined, []) == []
  {
  }

  lemma DeliverStreams(x: Side, y: Side, combined: bool)
    requires Steady(y, combined)
    ensures var (x', y') := Deliver(x, y);
      && Steady(y', combined)
      && y'.e.inBuffer + ForOut(combined, x'.sent) == y.e.inBuffer + ForOut(combined, x.sent)
      && y'.e.inStderr + ForErr(combined, x'.sent) == y.e.inStderr + ForErr(combined, x.sent)
  {
    hide Receive, Steady, OutBytes, ErrBytes;
    if x.sent != [] {
      var m := x.sent[0];
      ReceiverFed(y, m, combined);
      Regroup(y.e.inBuffer, OutBytes(combined, m), ForOut(combined, x.sent[1..]));
      Regroup(y.e.inStderr, ErrBytes(combined, m), ForErr(combined, x.sent[1..]));
    }
  }

  // A message the other way only leaves the receiver's queue.
  lemma DeliverBack(y: Side, x: Side, combined: bool)
    requires Steady(y, combined)
    ensures var (y', x') := Deliver(y, x); Steady(y', combined) && y'.e == y.e && x'.sent == x.sent
  {
  }

  lemma {:induction false} RunStreams(s: System, steps: seq<Step>, right: bool, combined: bool)
    requires Steady(Receiver(s, right), combined) && NeverSwitches(steps, right, combined)
    ensures var r := Run(s, steps);
      var (x, y) := (Sender(s, right), Receiver(s, right));
      && OutRead(s, steps, right) + Receiver(r, right).e.inBuffer + ForOut(combined, Sender(r, right).sent)
         == y.e.inBuffer + ForOut(combined, x.sent) + ForOut(combined, HandedOver(s, steps, right))
      && ErrRead(s, steps, right) + Receiver(r, right).e.inStderr + ForErr(combined, Sender(r, right).sent)
         == y.e.inStderr + ForErr(combined, x.sent) + ForErr(combined, HandedOver(s, steps, right))
    decreases |steps|
  {
    hide Next, Steady, ForOut, ForErr, Handed, Out, Err;
    if steps == [] {
      NothingHanded(Sender(s, right), combined);
    } else {
      assert steps[0] in steps;
      assert forall t | t in steps[1..] :: t in steps;
      StepStreams(s, steps[0], right, combined);
      RunStreams(Next(s, steps[0]), steps[1..], right, combined);
      var x, y := Sender(s, right), Receiver(s, right);
      var n := Next(s, steps[0]);
      var h := Handed(x, BySender(steps[0], right));
      ForAppend(combined, h, HandedOver(n, steps[1..], right));
      var r := Run(n, steps[1..]);
      Chained(Out(y, ByReceiver(steps[0], right)), Receiver(n, right).e.inBuffer, ForOut(combined, Sender(n, right).sent),
              OutRead(n, steps[1..], right), Receiver(r, right).e.inBuffer, ForOut(combined, Sender(r, right).sent),
              y.e.inBuffer, ForOut(combined, x.sent), ForOut(combined, h), ForOut(combined, HandedOver(n, steps[1..], right)));
      Chained(Err(y, ByReceiver(steps[0], right)), Receiver(n, right).e.inStderr, ForErr(combined, Sender(n, right).sent),
              ErrRead(n, steps[1..], right), Receiver(r, right).e.inStderr, ForErr(combined, Sender(r, right).sent),
              y.e.inStderr, ForErr(combined, x.sent), ForErr(combined, h), ForErr(combined, HandedOver(n, steps[1..], right)));
    }
  }

  lemma Chained(o: seq<byte>, b: seq<byte>, w: seq<byte>, o': seq<byte>, b': seq<byte>, w': seq<byte>,
                b0: seq<byte>, w0: seq<byte>, h: seq<byte>, h': seq<byte>)
    requires o + b + w == b0 + w0 + h && o' + b' + w' == b + w + h'
    ensures o + o' + b' + w' == b0 + w0 + (h + h')
  {
    assert o + o' + b' + w' == o + (o' + b' + w');
    assert o + (b + w + h') == (o + b + w) + h';
    assert b0 + w0 + h + h' == b0 + w0 + (h + h');
  }

  // While the receiver never switches, what has been read of each stream, what is
  // in its buffer and what is on its way to it are, in this order, the bytes handed
  // to the transport for it.
  lemma StreamsInOrder(s: System, steps: seq<Step>, right: bool, combined: bool)
    requires Initial(s) && Receiver(s, right).e.combineStderr == combined && NeverSwitches(steps, right, combined)
    ensures var r := Run(s, steps);
      var ms := HandedOver(s, steps, right);
      && OutRead(s, steps, right) + Receiver(r, right).e.inBuffer + ForOut(combined, Sender(r, right).sent) == ForOut(combined, ms)
      && ErrRead(s, steps, right) + Receiver(r, right).e.inStderr + ForErr(combined, Sender(r, right).sent) == ForErr(combined, ms)
  {
    RunStreams(s, steps, right, combined);
    var ms := HandedOver(s, steps, right);
    assert [] + [] + ForOut(combined, ms) == ForOut(combined, ms) && [] + [] + ForErr(combined, ms) == ForErr(combined, ms);
  }

  // ---------- however often it switches ----------

  function MovedBy(p: Pending): multiset<byte> {
    if p.Moving? then multiset(p.s) else multiset{}
  }

  function Moved(ps: seq<Pending>): multiset<byte> {
    if ps == [] then multiset{} else MovedBy(ps[0]) + Moved(ps[1..])
  }

  lemma {:induction false} MovedAppend(ps: seq<Pending>, qs: seq<Pending>)
    ensures Moved(ps + qs) == Moved(ps) + Moved(qs)
  {
    if ps == [] {
      assert ps + qs == qs;
    } else {
      assert (ps + qs)[1..] == ps[1..] + qs;
      MovedAppend(ps[1..], qs);
    }
  }

  lemma MovedOne(p: Pending)
    ensures Moved([p]) == MovedBy(p)
  {
    assert [p][1..] == [];
  }

  lemma {:induction false} MovedWithout(ps: seq<Pending>, i: nat)
    requires i < |ps|
    ensures Moved(ps) == Moved(Without(ps, i)) + MovedBy(ps[i])
    decreases i
  {
    var rest := Without(ps, i);
    if i == 0 {
      assert rest == ps[1..];
    } else {
      assert rest[0] == ps[0] && rest[1..] == Without(ps[1..], i - 1);
      MovedWithout(ps[1..], i - 1);
    }
  }

  lemma {:induction false} MovedUnsents(ms: seq<Message>)
    ensures Moved(Unsents(ms)) == multiset{}
  {
    if ms != [] {
      MovedAppend([Unsent(ms[0])], Unsents(ms[1..]));
      MovedOne(Unsent(ms[0]));
      MovedUnsents(ms[1..]);
    }
  }

  // Every byte that has arrived at a side and has not been read.
  function Kept(y: Side): multiset<byte> {
    multiset(y.e.inBuffer) + multiset(y.e.inStderr) + Moved(y.pending)
  }

  lemma HoldKept(y: Side, e: Endpoint, p: Pending)
    ensures Kept(y.(e := e, pending := y.pending + [p])) ==
      multiset(e.inBuffer) + multiset(e.inStderr) + Moved(y.pending) + MovedBy(p)
  {
    MovedAppend(y.pending, [p]);
    MovedOne(p);
  }

  lemma UnsentsKept(y: Side, e: Endpoint, ms: seq<Message>)
    ensures Kept(y.(e := e, pending := y.pending + Unsents(ms))) ==
      multiset(e.inBuffer) + multiset(e.inStderr) + Moved(y.pending)
  {
    MovedAppend(y.pending, Unsents(ms));
    MovedUnsents(ms);
  }

  lemma SplitParts(buffer: seq<byte>, n: nat)
    ensures multiset(Split(buffer, n).0) + multiset(Split(buffer, n).1) == multiset(buffer)
  {
    if |buffer| > n { assert buffer == buffer[..n] + buffer[n..]; }
  }

  lemma SendKept(y: Side, s: seq<byte>, code: Option<int>)
    ensures Kept(Send(y, s, code)) == Kept(y)
  {
    var (e, size) := TakeWindow(y.e, |s|);
    if 0 < size <= |s| { HoldKept(y, e, Unsent(Typed(code, s[..size]))); }
  }

  lemma FinishKept(y: Side, i: nat)
    ensures Kept(Act(y, Finish(i))) == Kept(y)
  {
    hide Kept, Continue;
    if i < |y.pending| {
      var z := y.(pending := Without(y.pending, i));
      WithoutKept(y, i);
      ContinueKept(z, y.pending[i]);
    }
  }

  lemma WithoutKept(y: Side, i: nat)
    requires i < |y.pending|
    ensures Kept(y) == Kept(y.(pending := Without(y.pending, i))) + MovedBy(y.pending[i])
  {
    MovedWithout(y.pending, i);
  }

  lemma ContinueKept(z: Side, p: Pending)
    ensures Kept(Continue(z, p)) == Kept(z) + MovedBy(p)
  {
    match p
    case Read(n) => CountKept(z, n);
    case Moving(s) => assert multiset(z.e.inBuffer + s) == multiset(z.e.inBuffer) + multiset(s);
    case Unsent(_) =>
  }

  lemma CountKept(z: Side, n: nat)
    ensures Kept(Continue(z, Read(n))) == Kept(z)
  {
    var (e, ack) := CheckAddWindow(z.e, n);
    if ack > 0 { HoldKept(z, e, Unsent(Adjust(ack))); }
  }

  lemma CombineKept(y: Side, on: bool)
    ensures Kept(Act(y, Combine(on))) == Kept(y)
  {
    hide Moved;
    var (e, data) := SetCombine(y.e, on);
    if data != [] { HoldKept(y, e, Moving(data)); }
  }

  // Reading takes bytes out; no other action of a side changes what it keeps.
  lemma ActKept(y: Side, a: Action)
    ensures multiset(Out(y, Some(a))) + multiset(Err(y, Some(a))) + Kept(Act(y, a)) == Kept(y)
  {
    hide Act, Kept;
    if a.ReadOut? {
      ReadOutKept(y, a.n);
    } else if a.ReadErr? {
      ReadErrKept(y, a.n);
    } else {
      OtherKept(y, a);
    }
  }

  lemma OtherKept(y: Side, a: Action)
    requires !a.ReadOut? && !a.ReadErr?
    ensures Kept(Act(y, a)) == Kept(y)
  {
    hide Send, Kept, SendEof, CloseInternal, SetCombine, Continue;
    match a
    case StartSend(s, stderr) => SendKept(y, s, if stderr then Some(1) else None);
    case StartTyped(code, s) => SendKept(y, s, Some(code));
    case Combine(on) => CombineKept(y, on);
    case Finish(i) => FinishKept(y, i);
    case ShutdownRead => EndpointKept(y);
    case ShutdownWrite => EofKept(y);
    case CloseIt => CloseKept(y);
  }

  lemma EofKept(y: Side)
    ensures Kept(Act(y, ShutdownWrite)) == Kept(y)
  {
    UnsentsKept(y, SendEof(y.e).0, SendEof(y.e).1);
  }

  lemma CloseKept(y: Side)
    ensures Kept(Act(y, CloseIt)) == Kept(y)
  {
    UnsentsKept(y, CloseInternal(y.e).0, CloseInternal(y.e).1);
  }

  lemma EndpointKept(y: Side)
    ensures Kept(y) == multiset(y.e.inBuffer) + multiset(y.e.inStderr) + Moved(y.pending)
    ensures Kept(y.(e := y.e.(eofReceived := true))) == Kept(y)
  {
  }

  lemma ReadOutKept(y: Side, n: nat)
    ensures multiset(Split(y.e.inBuffer, n).0) + Kept(Act(y, ReadOut(n))) == Kept(y)
  {
    var (out, rest) := Split(y.e.inBuffer, n);
    SplitParts(y.e.inBuffer, n);
    HoldKept(y, y.e.(inBuffer := rest), Read(|out|));
  }

  lemma ReadErrKept(y: Side, n: nat)
    ensures multiset(Split(y.e.inStderr, n).0) + Kept(Act(y, ReadErr(n))) == Kept(y)
  {
    var (out, rest) := Split(y.e.inStderr, n);
    SplitParts(y.e.inStderr, n);
    HoldKept(y, y.e.(inStderr := rest), Read(|out|));
  }

  // What arrives, of a known type, is kept.
  lemma ReceiveKept(y: Side, m: Message)
    ensures var (e, ms) := Receive(y.e, m);
      Kept(y.(e := e, pending := y.pending + Unsents(ms))) == Kept(y) + multiset(OutBytes(true, m))
  {
    var (e, ms) := Receive(y.e, m);
    UnsentsKept(y, e, ms);
  }

  lemma DeliverKept(x: Side, y: Side)
    ensures var (x', y') := Deliver(x, y);
      Kept(y') + multiset(ForOut(true, x'.sent)) == Kept(y) + multiset(ForOut(true, x.sent))
  {
    hide Receive, Kept;
    if x.sent != [] { ReceiveKept(y, x.sent[0]); }
  }

  lemma DeliverBackKept(y: Side, x: Side)
    ensures var (y', x') := Deliver(y, x); Kept(y') == Kept(y) && x'.sent == x.sent
  {
  }

  lemma StepBytes(s: System, t: Step, right: bool)
    ensures var r := Next(s, t);
      var (x, y, x', y') := (Sender(s, right), Receiver(s, right), Sender(r, right), Receiver(r, right));
      AllBytes(Out(y, ByReceiver(t, right)), Err(y, ByReceiver(t, right)), y', ForOut(true, x'.sent))
      == Kept(y) + multiset(ForOut(true, x.sent)) + multiset(ForOut(true, Handed(x, BySender(t, right))))
  {
    hide Act, Receive, ForOut, Handed, Out, Err, Kept;
    var x, y := Sender(s, right), Receiver(s, right);
    if BySender(t, right).Some? {
      var a := BySender(t, right).value;
      SenderHands(x, a);
      ForAppend(true, x.sent, Handed(x, Some(a)));
      NothingRead(y);
    } else if ByReceiver(t, right).Some? {
      ActKept(y, ByReceiver(t, right).value);
      NothingHanded(x, true);
    } else {
      NothingRead(y);
      NothingHanded(x, true);
      if Arrives(t, right) { DeliverKept(x, y); } else { DeliverBackKept(y, x); }
    }
  }

  lemma {:induction false} RunBytes(s: System, steps: seq<Step>, right: bool)
    ensures var r := Run(s, steps);
      AllBytes(OutRead(s, steps, right), ErrRead(s, steps, right), Receiver(r, right), ForOut(true, Sender(r, right).sent))
      == Kept(Receiver(s, right)) + multiset(ForOut(true, Sender(s, right).sent)) + multiset(ForOut(true, HandedOver(s, steps, right)))
    decreases |steps|
  {
    hide Next, ForOut, Handed, Out, Err, Kept, AllBytes;
    if steps == [] {
      NothingHanded(Sender(s, right), true);
      NoBytesRead(Receiver(s, right), ForOut(true, Sender(s, right).sent));
    } else {
      var x, y, n := Sender(s, right), Receiver(s, right), Next(s, steps[0]);
      var r := Run(n, steps[1..]);
      var h := Handed(x, BySender(steps[0], right));
      StepBytes(s, steps[0], right);
      RunBytes(n, steps[1..], right);
      ForAppend(true, h, HandedOver(n, steps[1..], right));
      BytesInTurn(Out(y, ByReceiver(steps[0], right)), Err(y, ByReceiver(steps[0], right)), Receiver(n, right),
                  ForOut(true, Sender(n, right).sent),
                  OutRead(n, steps[1..], right), ErrRead(n, steps[1..], right), Receiver(r, right), ForOut(true, Sender(r, right).sent),
                  Kept(y) + multiset(ForOut(true, x.sent)), ForOut(true, h), ForOut(true, HandedOver(n, steps[1..], right)));
    }
  }

  // What has been read, what the receiver keeps and what is on its way.
  function AllBytes(out: seq<byte>, err: seq<byte>, y: Side, onWay: seq<byte>): multiset<byte> {
    multiset(out) + multiset(err) + Kept(y) + multiset(onWay)
  }

  lemma NoBytesRead(y: Side, w: seq<byte>)
    ensures AllBytes([], [], y, w) == Kept(y) + multiset(w) + multiset([])
  {
  }

  lemma BytesInTurn(o: seq<byte>, e: seq<byte>, y: Side, w: seq<byte>, o': seq<byte>, e': seq<byte>, y': Side, w': seq<byte>,
                    was: multiset<byte>, h: seq<byte>, h': seq<byte>)
    requires AllBytes(o, e, y, w) == was + multiset(h)
    requires AllBytes(o', e', y', w') == Kept(y) + multiset(w) + multiset(h')
    ensures AllBytes(o + o', e + e', y', w') == was + multiset(h + h')
  {
    hide Kept;
    BagOfSum(o, o');
    BagOfSum(e, e');
    BagOfSum(h, h');
    assert AllBytes(o + o', e + e', y', w') == multiset(o) + multiset(e) + AllBytes(o', e', y', w');
    assert multiset(o) + multiset(e) + (Kept(y) + multiset(w) + multiset(h')) == AllBytes(o, e, y, w) + multiset(h');
  }

  lemma BagOfSum(a: seq<byte>, b: seq<byte>)
    ensures multiset(a + b) == multiset(a) + multiset(b)
  {
  }

  // In every run no byte of a known type is lost, doubled or made up, whenever the
  // receiver switches.
  lemma BytesConserved(s: System, steps: seq<Step>, right: bool)
    requires Initial(s)
    ensures var r := Run(s, steps);
      var y := Receiver(r, right);
      multiset(OutRead(s, steps, right)) + multiset(ErrRead(s, steps, right))
        + (multiset(y.e.inBuffer) + multiset(y.e.inStderr) + Moved(y.pending)) + multiset(ForOut(true, Sender(r, right).sent))
      == multiset(ForOut(true, HandedOver(s, steps, right)))
  {
    hide Run, HandedOver, OutRead, ErrRead, Moved;
    RunBytes(s, steps, right);
    NothingKept(Receiver(s, right));
    var ms := multiset(ForOut(true, HandedOver(s, steps, right)));
    assert multiset{} + multiset(ForOut(true, [])) + ms == ms;
  }

  lemma NothingKept(y: Side)
    requires y.e.inBuffer == [] && y.e.inStderr == [] && y.pending == []
    ensures Kept(y) == multiset{}
  {
  }
}
