// Flow control between two channel endpoints (paramiko/channel.py) as a protocol
// of atomic steps: threads at both ends read, write and acknowledge in any
// order, and whatever a thread holds between two locked regions is part of the
// state. The credit of each direction is conserved.
module ChannelFlow {
  import opened KconfigExpr
  import opened Bytes
  import opened ChannelState

  // What a thread holds between two steps: bytes read and not yet counted, bytes
  // on their way from stderr to stdout, a message not yet handed over.
  datatype Pending = Read(n: nat) | Moving(s: seq<byte>) | Unsent(m: Message)

  // An end, its threads, and its messages on the way to the other end.
  datatype Side = Side(e: Endpoint, pending: seq<Pending>, sent: seq<Message>)

  datatype System = System(left: Side, right: Side)

  datatype Action =
    | StartSend(s: seq<byte>, stderr: bool)  // the locked part of _send
    | StartTyped(code: int, s: seq<byte>)    // the same in a peer that uses other types
    | ReadOut(n: nat)                        // the pipe read of recv
    | ReadErr(n: nat)                        // the pipe read of recv_stderr
    | Combine(on: bool)                      // the locked part of set_combine_stderr
    | Finish(i: nat)                         // the next step of a thread
    | ShutdownRead
    | ShutdownWrite
    | CloseIt

  datatype Step = Left(a: Action) | Right(a: Action) | ToLeft | ToRight

  // ---------- the steps ----------

  function Unsents(ms: seq<Message>): seq<Pending> {
    if ms == [] then [] else [Unsent(ms[0])] + Unsents(ms[1..])
  }

  function Without(ps: seq<Pending>, i: nat): seq<Pending>
    requires i < |ps|
  {
    ps[..i] + ps[i + 1..]
  }

  // Waiting for the window is not a step.
  function Send(x: Side, s: seq<byte>, code: Option<int>): Side {
    if x.e.closed || (x.e.outWindow == 0 && !x.e.eofSent) then x else
    var (e, size) := TakeWindow(x.e, |s|);
    if size <= 0 || size > |s| then x.(e := e)
    else x.(e := e, pending := x.pending + [Unsent(Typed(code, s[..size]))])
  }

  function Typed(code: Option<int>, s: seq<byte>): Message {
    if code.Some? then Extended(code.value, s) else Data(s)
  }

  function Act(x: Side, a: Action): Side {
    match a
    case StartSend(s, stderr) => Send(x, s, if stderr then Some(1) else None)
    case StartTyped(code, s) => Send(x, s, Some(code))
    case ReadOut(n) =>
      var (out, rest) := Split(x.e.inBuffer, n);
      x.(e := x.e.(inBuffer := rest), pending := x.pending + [Read(|out|)])
    case ReadErr(n) =>
      var (out, rest) := Split(x.e.inStderr, n);
      x.(e := x.e.(inStderr := rest), pending := x.pending + [Read(|out|)])
    case Combine(on) =>
      var (e, data) := SetCombine(x.e, on);
      if data == [] then x.(e := e) else x.(e := e, pending := x.pending + [Moving(data)])
    case Finish(i) => if i < |x.pending| then Continue(x.(pending := Without(x.pending, i)), x.pending[i]) else x
    case ShutdownRead => x.(e := x.e.(eofReceived := true))
    case ShutdownWrite =>
      var (e, ms) := SendEof(x.e);
      x.(e := e, pending := x.pending + Unsents(ms))
    case CloseIt =>
      var (e, ms) := CloseInternal(x.e);
      x.(e := e, pending := x.pending + Unsents(ms))
  }

  // The thread that held p goes on.
  function Continue(x: Side, p: Pending): Side {
    match p
    case Read(n) =>
      var (e, ack) := CheckAddWindow(x.e, n);
      x.(e := e, pending := if ack > 0 then x.pending + [Unsent(Adjust(ack))] else x.pending)
    case Moving(s) => x.(e := FeedData(x.e, s))
    case Unsent(m) => x.(sent := x.sent + [m])
  }

  // The oldest message from x arrives at y.
  function Deliver(x: Side, y: Side): (Side, Side) {
    if x.sent == [] then (x, y) else
    var (e, ms) := Receive(y.e, x.sent[0]);
    (x.(sent := x.sent[1..]), y.(e := e, pending := y.pending + Unsents(ms)))
  }

  function Next(s: System, step: Step): System {
    match step
    case Left(a) => s.(left := Act(s.left, a))
    case Right(a) => s.(right := Act(s.right, a))
    case ToRight => var (x, y) := Deliver(s.left, s.right); System(x, y)
    case ToLeft => var (x, y) := Deliver(s.right, s.left); System(y, x)
  }

  function Run(s: System, steps: seq<Step>): System
    decreases |steps|
  {
    if steps == [] then s else Run(Next(s, steps[0]), steps[1..])
  }

  // Both ends have announced a window; each knows the other's.
  predicate Initial(s: System) {
    Fresh(s.left, s.right) && Fresh(s.right, s.left)
  }

  predicate Fresh(x: Side, y: Side) {
    && x.e.active && !x.e.closed && !x.e.eofReceived && !x.e.eofSent
    && x.e.outWindow == y.e.inWindow && x.e.inSofar == 0 && x.e.outMaxPacket >= MIN_PACKET_SIZE
    && x.e.inBuffer == [] && x.e.inStderr == [] && x.pending == [] && x.sent == []
  }

  // ---------- credit ----------

  function Payload(m: Message): nat {
    match m
    case Data(s) => |s|
    case Extended(_, s) => |s|
    case _ => 0
  }

  function Grant(m: Message): nat {
    match m
    case Adjust(n) => n
    case _ => 0
  }

  function Payloads(ms: seq<Message>): nat {
    if ms == [] then 0 else Payload(ms[0]) + Payloads(ms[1..])
  }

  function Grants(ms: seq<Message>): nat {
    if ms == [] then 0 else Grant(ms[0]) + Grants(ms[1..])
  }

  function OutHeld(p: Pending): nat {
    match p
    case Unsent(m) => Payload(m)
    case _ => 0
  }

  function InHeld(p: Pending): nat {
    match p
    case Read(n) => n
    case Moving(s) => |s|
    case Unsent(m) => Grant(m)
  }

  function OutsHeld(ps: seq<Pending>): nat {
    if ps == [] then 0 else OutHeld(ps[0]) + OutsHeld(ps[1..])
  }

  function InsHeld(ps: seq<Pending>): nat {
    if ps == [] then 0 else InHeld(ps[0]) + InsHeld(ps[1..])
  }

  // What a side holds of the credit of its outgoing direction, and of its
  // incoming direction.
  function OutCredit(x: Side): int {
    x.e.outWindow + OutsHeld(x.pending) + Payloads(x.sent)
  }

  function InCredit(x: Side): int {
    |x.e.inBuffer| + |x.e.inStderr| + x.e.inSofar + InsHeld(x.pending) + Grants(x.sent)
  }

  // ---------- sums ----------

  lemma {:induction false} HeldAppend(ps: seq<Pending>, qs: seq<Pending>)
    ensures OutsHeld(ps + qs) == OutsHeld(ps) + OutsHeld(qs)
    ensures InsHeld(ps + qs) == InsHeld(ps) + InsHeld(qs)
  {
    if ps == [] {
      assert ps + qs == qs;
    } else {
      assert (ps + qs)[1..] == ps[1..] + qs;
      HeldAppend(ps[1..], qs);
    }
  }

  lemma {:induction false} SentAppend(ms: seq<Message>, ns: seq<Message>)
    ensures Payloads(ms + ns) == Payloads(ms) + Payloads(ns)
    ensures Grants(ms + ns) == Grants(ms) + Grants(ns)
  {
    if ms == [] {
      assert ms + ns == ns;
    } else {
      assert (ms + ns)[1..] == ms[1..] + ns;
      SentAppend(ms[1..], ns);
    }
  }

  lemma HeldOne(p: Pending)
    ensures OutsHeld([p]) == OutHeld(p) && InsHeld([p]) == InHeld(p)
  {
    assert [p][1..] == [];
  }

  lemma {:induction false} HeldWithout(ps: seq<Pending>, i: nat)
    requires i < |ps|
    ensures OutsHeld(ps) == OutsHeld(Without(ps, i)) + OutHeld(ps[i])
    ensures InsHeld(ps) == InsHeld(Without(ps, i)) + InHeld(ps[i])
    decreases i
  {
    var rest := Without(ps, i);
    if i == 0 {
      assert rest == ps[1..];
    } else {
      assert rest[0] == ps[0] && rest[1..] == Without(ps[1..], i - 1);
      HeldWithout(ps[1..], i - 1);
    }
  }

  lemma {:induction false} NoCredit(ms: seq<Message>)
    requires forall m | m in ms :: m.Eof? || m.Close?
    ensures OutsHeld(Unsents(ms)) == 0 && InsHeld(Unsents(ms)) == 0
  {
    if ms != [] {
      assert ms[0] in ms;
      HeldAppend([Unsent(ms[0])], Unsents(ms[1..]));
      HeldOne(Unsent(ms[0]));
      NoCredit(ms[1..]);
    }
  }

  // ---------- what each side keeps ----------

  predicate SideOk(x: Side) {
    x.e.outWindow >= 0 && x.e.outMaxPacket >= MIN_PACKET_SIZE && x.e.inSofar <= x.e.Threshold()
  }

  // What no step touches.
  predicate SameWindow(x: Side, y: Side) {
    x.e.inWindow == y.e.inWindow && x.e.outMaxPacket == y.e.outMaxPacket
  }

  lemma ContinueKeeps(x: Side, p: Pending)
    requires SideOk(x)
    ensures var y := Continue(x, p);
      && SideOk(y) && SameWindow(x, y) && (y.e.IsOpen() <==> x.e.IsOpen())
      && OutCredit(y) == OutCredit(x) + OutHeld(p)
      && InCredit(y) <= InCredit(x) + InHeld(p)
      && (x.e.IsOpen() ==> InCredit(y) == InCredit(x) + InHeld(p))
  {
    match p
    case Read(n) =>
      var (e, ack) := CheckAddWindow(x.e, n);
      HeldAppend(x.pending, [Unsent(Adjust(ack))]);
      HeldOne(Unsent(Adjust(ack)));
    case Moving(s) =>
    case Unsent(m) =>
      SentAppend(x.sent, [m]);
      assert [m][1..] == [];
  }

  // What a step of one side keeps: its window parameters, the credit of its
  // outgoing direction and, while it is open, that of its incoming direction.
  predicate Keeps(x: Side, y: Side) {
    && SideOk(y) && SameWindow(x, y) && (y.e.IsOpen() ==> x.e.IsOpen())
    && OutCredit(y) == OutCredit(x)
    && InCredit(y) <= InCredit(x)
    && (x.e.IsOpen() ==> InCredit(y) == InCredit(x))
  }

  lemma ActKeeps(x: Side, a: Action)
    requires SideOk(x)
    ensures Keeps(x, Act(x, a))
  {
    hide Keeps, SideOk, OutCredit, InCredit, Send, Continue, SetCombine, SendEof, CloseInternal, Split;
    match a
    case StartSend(s, stderr) => SendKeeps(x, s, if stderr then Some(1) else None);
    case StartTyped(code, s) => SendKeeps(x, s, Some(code));
    case ReadOut(n) => ReadOutKeeps(x, n);
    case ReadErr(n) => ReadErrKeeps(x, n);
    case Combine(on) => CombineKeeps(x, on);
    case Finish(i) => FinishKeeps(x, i);
    case ShutdownRead => ShutdownReadKeeps(x);
    case ShutdownWrite => ShutdownWriteKeeps(x);
    case CloseIt => CloseKeeps(x);
  }

  lemma ReadOutKeeps(x: Side, n: nat)
    requires SideOk(x)
    ensures Keeps(x, Act(x, ReadOut(n)))
  {
    var (out, rest) := Split(x.e.inBuffer, n);
    HoldKeeps(x, x.e.(inBuffer := rest), Read(|out|));
  }

  lemma ReadErrKeeps(x: Side, n: nat)
    requires SideOk(x)
    ensures Keeps(x, Act(x, ReadErr(n)))
  {
    var (out, rest) := Split(x.e.inStderr, n);
    HoldKeeps(x, x.e.(inStderr := rest), Read(|out|));
  }

  lemma CombineKeeps(x: Side, on: bool)
    requires SideOk(x)
    ensures Keeps(x, Act(x, Combine(on)))
  {
    var (e, data) := SetCombine(x.e, on);
    HoldKeeps(x, e, Moving(data));
  }

  lemma FinishKeeps(x: Side, i: nat)
    requires SideOk(x)
    ensures Keeps(x, Act(x, Finish(i)))
  {
    if i < |x.pending| {
      HeldWithout(x.pending, i);
      ContinueKeeps(x.(pending := Without(x.pending, i)), x.pending[i]);
    }
  }

  lemma ShutdownReadKeeps(x: Side)
    requires SideOk(x)
    ensures Keeps(x, Act(x, ShutdownRead))
  {
  }

  lemma ShutdownWriteKeeps(x: Side)
    requires SideOk(x)
    ensures Keeps(x, Act(x, ShutdownWrite))
  {
    EofOnly(x, SendEof(x.e).0, SendEof(x.e).1);
  }

  lemma CloseKeeps(x: Side)
    requires SideOk(x)
    ensures Keeps(x, Act(x, CloseIt))
  {
    EofOnly(x, CloseInternal(x.e).0, CloseInternal(x.e).1);
  }

  // A thread now holds p; what it holds has left the endpoint.
  lemma HoldKeeps(x: Side, e: Endpoint, p: Pending)
    requires SideOk(x)
    requires e.outWindow >= 0 && e.inSofar == x.e.inSofar && e.inWindow == x.e.inWindow && e.outMaxPacket == x.e.outMaxPacket
    ensures var y := x.(e := e, pending := x.pending + [p]);
      && SideOk(y)
      && OutCredit(y) == OutCredit(x) - x.e.outWindow + e.outWindow + OutHeld(p)
      && InCredit(y) == InCredit(x) - |x.e.inBuffer| - |x.e.inStderr| + |e.inBuffer| + |e.inStderr| + InHeld(p)
  {
    HeldAppend(x.pending, [p]);
    HeldOne(p);
  }

  lemma SendKeeps(x: Side, s: seq<byte>, code: Option<int>)
    requires SideOk(x)
    ensures Keeps(x, Send(x, s, code))
  {
    var (e, size) := TakeWindow(x.e, |s|);
    assert 0 <= size <= |s| && size <= x.e.outWindow;
    if size > 0 {
      HoldKeeps(x, e, Unsent(Typed(code, s[..size])));
    }
  }

  // Announcing the end moves no credit.
  lemma EofOnly(x: Side, e: Endpoint, ms: seq<Message>)
    requires SideOk(x) && (forall m | m in ms :: m.Eof? || m.Close?)
    requires e == x.e.(eofSent := e.eofSent, closed := e.closed) && (x.e.closed ==> e.closed)
    ensures Keeps(x, x.(e := e, pending := x.pending + Unsents(ms)))
    ensures var y := x.(e := e, pending := x.pending + Unsents(ms));
      OutCredit(y) == OutCredit(x) && InCredit(y) == InCredit(x)
  {
    NoCredit(ms);
    HeldAppend(x.pending, Unsents(ms));
  }

  // What _feed_extended discards of a message, its whole payload if the type is
  // not 1.
  function Lost(m: Message): nat {
    if m.Extended? && m.code != 1 then |m.s| else 0
  }

  lemma DeliverKeeps(x: Side, y: Side)
    requires SideOk(x) && SideOk(y) && x.sent != []
    ensures var (x', y') := Deliver(x, y);
      && SideOk(x') && SideOk(y') && SameWindow(x, x') && SameWindow(y, y')
      && x'.e == x.e && (y'.e.IsOpen() ==> y.e.IsOpen())
      && OutCredit(x') + InCredit(y') + Lost(x.sent[0]) == OutCredit(x) + InCredit(y)
      && OutCredit(y') + InCredit(x') == OutCredit(y) + InCredit(x)
  {
    ReceiveKeeps(y, x.sent[0]);
  }

  // A message arrives: its payload is now the receiver's to give back, its grant
  // is now the receiver's to use.
  lemma ReceiveKeeps(y: Side, m: Message)
    requires SideOk(y)
    ensures var (e, ms) := Receive(y.e, m);
      var y' := y.(e := e, pending := y.pending + Unsents(ms));
      && SideOk(y') && SameWindow(y, y') && (y'.e.IsOpen() ==> y.e.IsOpen())
      && InCredit(y') + Lost(m) == InCredit(y) + Payload(m) && OutCredit(y') == OutCredit(y) + Grant(m)
  {
    hide OutCredit, InCredit;
    var (e, ms) := Receive(y.e, m);
    if m.Close? {
      EofOnly(y, e, ms);
    } else {
      assert y.pending + Unsents(ms) == y.pending;
      EndpointOnly(y, e);
    }
  }

  lemma EndpointOnly(y: Side, e: Endpoint)
    ensures OutCredit(y.(e := e)) == OutCredit(y) - y.e.outWindow + e.outWindow
    ensures InCredit(y.(e := e)) == InCredit(y) - |y.e.inBuffer| - |y.e.inStderr| - y.e.inSofar
                                    + |e.inBuffer| + |e.inStderr| + e.inSofar
  {
  }

  // An arriving message keeps the credit of its direction exactly if it is not
  // extended data of another type than 1.
  lemma UnknownTypeLeaks(x: Side, y: Side)
    requires x.sent != []
    ensures var (x', y') := Deliver(x, y);
      var m := x.sent[0];
      && (OutCredit(x') + InCredit(y') == OutCredit(x) + InCredit(y) <==> !(m.Extended? && m.code != 1 && m.s != []))
      && OutCredit(x') + InCredit(y') == OutCredit(x) + InCredit(y) - Lost(m)
  {
    var m := x.sent[0];
    var (e, ms) := Receive(y.e, m);
    if m.Close? {
      NoCredit(ms);
      HeldAppend(y.pending, Unsents(ms));
    } else {
      assert y.pending + Unsents(ms) == y.pending;
    }
  }

  // ---------- every reachable state ----------

  // What a run discards of the direction from left to right, and of the other.
  function LostRight(s: System, steps: seq<Step>): nat
    decreases |steps|
  {
    if steps == [] then 0
    else (if steps[0].ToRight? then LostFrom(s.left) else 0) + LostRight(Next(s, steps[0]), steps[1..])
  }

  function LostLeft(s: System, steps: seq<Step>): nat
    decreases |steps|
  {
    if steps == [] then 0
    else (if steps[0].ToLeft? then LostFrom(s.right) else 0) + LostLeft(Next(s, steps[0]), steps[1..])
  }

  function LostFrom(x: Side): nat {
    if x.sent == [] then 0 else Lost(x.sent[0])
  }

  // The credit of the direction from x to y, with what has been discarded of it,
  // is what y once granted; once y has been shut it may only shrink.
  predicate Conserved(x: Side, y: Side, lost: nat) {
    && OutCredit(x) + InCredit(y) + lost <= y.e.inWindow
    && (y.e.IsOpen() ==> OutCredit(x) + InCredit(y) + lost == y.e.inWindow)
  }

  predicate Invariant(s: System, lostRight: nat, lostLeft: nat) {
    && SideOk(s.left) && SideOk(s.right)
    && Conserved(s.left, s.right, lostRight) && Conserved(s.right, s.left, lostLeft)
  }

  lemma StepKeeps(s: System, step: Step, lostRight: nat, lostLeft: nat)
    requires Invariant(s, lostRight, lostLeft)
    ensures Invariant(Next(s, step), lostRight + (if step.ToRight? then LostFrom(s.left) else 0),
                      lostLeft + (if step.ToLeft? then LostFrom(s.right) else 0))
    ensures SameWindow(s.left, Next(s, step).left) && SameWindow(s.right, Next(s, step).right)
  {
    match step
    case Left(a) => ActKeeps(s.left, a);
    case Right(a) => ActKeeps(s.right, a);
    case ToRight => if s.left.sent != [] { DeliverKeeps(s.left, s.right); }
    case ToLeft => if s.right.sent != [] { DeliverKeeps(s.right, s.left); }
  }

  lemma {:induction false} AlwaysConserved(s: System, steps: seq<Step>, lostRight: nat, lostLeft: nat)
    requires Invariant(s, lostRight, lostLeft)
    ensures Invariant(Run(s, steps), lostRight + LostRight(s, steps), lostLeft + LostLeft(s, steps))
    ensures SameWindow(s.left, Run(s, steps).left) && SameWindow(s.right, Run(s, steps).right)
    decreases |steps|
  {
    if steps != [] {
      StepKeeps(s, steps[0], lostRight, lostLeft);
      AlwaysConserved(Next(s, steps[0]), steps[1..], lostRight + (if steps[0].ToRight? then LostFrom(s.left) else 0),
                      lostLeft + (if steps[0].ToLeft? then LostFrom(s.right) else 0));
    }
  }

  // The theorem for one direction: after any run the sender's window, the bytes
  // on their way, the buffers, the credit on its way back and what has been
  // discarded add up to the initial window while the receiver is open, and never
  // to more.
  lemma WindowConserved(s: System, steps: seq<Step>)
    requires Initial(s)
    ensures var r := Run(s, steps);
      var W := s.right.e.inWindow;
      var total := r.left.e.outWindow + OutsHeld(r.left.pending) + Payloads(r.left.sent)
        + |r.right.e.inBuffer| + |r.right.e.inStderr| + r.right.e.inSofar
        + InsHeld(r.right.pending) + Grants(r.right.sent) + LostRight(s, steps);
      && total <= W && (r.right.e.IsOpen() ==> total == W)
      && 0 <= r.left.e.outWindow <= W - LostRight(s, steps)
      && |r.right.e.inBuffer| + |r.right.e.inStderr| <= W
      && r.right.e.inSofar <= W / 10
    ensures OnlyKnown(steps) ==> LostRight(s, steps) == 0
  {
    AlwaysConserved(s, steps, 0, 0);
    if OnlyKnown(steps) { NothingLost(s, steps); }
  }

  // The left end sends as this program does: extended data is of type 1.
  predicate OnlyKnown(steps: seq<Step>) {
    forall t | t in steps :: t.Left? && t.a.StartTyped? ==> t.a.code == 1
  }

  // Nothing the side holds will be discarded.
  predicate Known(x: Side) {
    && (forall m | m in x.sent && m.Extended? :: m.code == 1)
    && (forall p | p in x.pending && p.Unsent? && p.m.Extended? :: p.m.code == 1)
  }

  lemma ActKnown(x: Side, a: Action)
    requires Known(x) && (a.StartTyped? ==> a.code == 1)
    ensures Known(Act(x, a))
  {
    match a
    case Finish(i) => if i < |x.pending| { assert forall p | p in Without(x.pending, i) :: p in x.pending; }
    case ShutdownWrite => UnsentsOnly(SendEof(x.e).1);
    case CloseIt => UnsentsOnly(CloseInternal(x.e).1);
    case _ =>
  }

  lemma DeliverKnown(x: Side, y: Side)
    ensures var (x', y') := Deliver(x, y); (Known(x) ==> Known(x') && LostFrom(x) == 0) && (Known(y) ==> Known(y'))
  {
    if x.sent != [] {
      assert x.sent[0] in x.sent && forall m | m in x.sent[1..] :: m in x.sent;
      UnsentsOnly(Receive(y.e, x.sent[0]).1);
    }
  }

  lemma {:induction false} UnsentsOnly(ms: seq<Message>)
    ensures forall p | p in Unsents(ms) :: p.Unsent? && p.m in ms
  {
    if ms != [] { UnsentsOnly(ms[1..]); }
  }

  lemma {:induction false} NothingLost(s: System, steps: seq<Step>)
    requires Known(s.left) && OnlyKnown(steps)
    ensures LostRight(s, steps) == 0
    decreases |steps|
  {
    if steps != [] {
      var t := steps[0];
      assert t in steps && forall u | u in steps[1..] :: u in steps;
      if t.Left? { ActKnown(s.left, t.a); }
      DeliverKnown(s.left, s.right);
      DeliverKnown(s.right, s.left);
      NothingLost(Next(s, t), steps[1..]);
    }
  }

  // Nothing of the direction from left to right is on its way, and the receiver
  // has read everything.
  predicate Quiet(s: System) {
    && OutsHeld(s.left.pending) == 0 && Payloads(s.left.sent) == 0
    && s.right.e.inBuffer == [] && s.right.e.inStderr == []
    && InsHeld(s.right.pending) == 0 && Grants(s.right.sent) == 0
  }

  // Then the sender has at least nine tenths of the window left, apart from what
  // has been discarded, and with any window it can send.
  lemma NoStall(s: System, steps: seq<Step>, data: seq<byte>)
    requires Initial(s)
    requires var r := Run(s, steps); Quiet(r) && r.right.e.IsOpen()
    ensures var r, W := Run(s, steps), s.right.e.inWindow;
      && W - W / 10 - LostRight(s, steps) <= r.left.e.outWindow <= W - LostRight(s, steps)
      && (OnlyKnown(steps) && W >= 1 ==> r.left.e.outWindow >= W - W / 10 > 0)
      && (data != [] && r.left.e.outWindow > 0 && !r.left.e.closed && !r.left.e.eofSent ==>
          |Act(r.left, StartSend(data, false)).pending| == |r.left.pending| + 1)
  {
    WindowConserved(s, steps);
    AlwaysConserved(s, steps, 0, 0);
  }

  // What has been discarded never comes back: the window of every later state is
  // that much smaller, and nothing at all can be sent once all of it is gone.
  lemma LostForGood(s: System, run: seq<Step>, more: seq<Step>, data: seq<byte>)
    requires Initial(s)
    ensures var r, W := Run(Run(s, run), more), s.right.e.inWindow;
      && r.left.e.outWindow <= W - LostRight(s, run)
      && (LostRight(s, run) == W && !r.left.e.eofSent ==> Act(r.left, StartSend(data, false)) == r.left)
  {
    LostAppend(s, run, more);
    WindowConserved(s, run + more);
  }

  // One message is enough: the window has gone into it, and it is discarded.
  lemma AllLost(s: System, code: int, data: seq<byte>, more: seq<Step>)
    requires Initial(s) && code != 1 && 1 <= |data| == s.right.e.inWindow <= s.left.e.outMaxPacket - 64
    ensures var run := [Left(StartTyped(code, data)), Left(Finish(0)), ToRight];
      && LostRight(s, run) == s.right.e.inWindow && Run(s, run).right.e.IsOpen()
      && Run(Run(s, run), more).left.e.outWindow == 0
  {
    var t1, t2, t3 := Left(StartTyped(code, data)), Left(Finish(0)), ToRight;
    var run := [t1, t2, t3];
    assert data[..|data|] == data;
    var s1 := Next(s, t1);
    assert s1.left.pending == [Unsent(Extended(code, data))];
    var s2 := Next(s1, t2);
    assert s2.left.sent == [Extended(code, data)];
    var s3 := Next(s2, t3);
    ThreeSteps(s, t1, t2, t3, s1, s2, s3);
    LostForGood(s, run, more, []);
    LostAppend(s, run, more);
    WindowConserved(s, run + more);
  }

  lemma ThreeSteps(s: System, t1: Step, t2: Step, t3: Step, s1: System, s2: System, s3: System)
    requires s1 == Next(s, t1) && s2 == Next(s1, t2) && s3 == Next(s2, t3) && t1.Left? && t2.Left? && t3.ToRight?
    ensures Run(s, [t1, t2, t3]) == s3 && LostRight(s, [t1, t2, t3]) == LostFrom(s2.left)
  {
    hide Next, LostFrom;
    assert [t1, t2, t3][1..] == [t2, t3] && [t2, t3][1..] == [t3] && [t3][1..] == [];
    assert LostRight(s2, [t3]) == LostFrom(s2.left) + LostRight(s3, []) && Run(s2, [t3]) == Run(s3, []) == s3;
    assert LostRight(s1, [t2, t3]) == LostRight(s2, [t3]) && Run(s1, [t2, t3]) == s3;
  }

  lemma {:induction false} LostAppend(s: System, a: seq<Step>, b: seq<Step>)
    ensures Run(s, a + b) == Run(Run(s, a), b)
    ensures LostRight(s, a + b) == LostRight(s, a) + LostRight(Run(s, a), b)
    decreases |a|
  {
    if a == [] {
      assert a + b == b;
    } else {
      assert (a + b)[1..] == a[1..] + b;
      LostAppend(Next(s, a[0]), a[1..], b);
    }
  }
}
