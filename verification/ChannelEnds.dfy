// What the ends of a channel tell each other besides data (paramiko/channel.py), over
// whole runs of the protocol of ChannelFlow: the end of data, the close, and grants.
module ChannelEnds {
  import opened KconfigExpr
  import opened Bytes
  import opened ChannelState
  import opened ChannelFlow
  import opened ChannelStreams

  // ---------- what a send starts ----------

  // A send puts a prefix of the bytes into one message of the right type, none once
  // the end has been announced, and pays for it from the window.
  lemma SendStarts(x: Side, s: seq<byte>, stderr: bool)
    requires SideOk(x)
    ensures var y := Act(x, StartSend(s, stderr));
      if x.e.closed || x.e.eofSent || x.e.outWindow == 0 || s == [] then y == x
      else
        exists k {:trigger s[..k]} :: 0 < k <= |s|
          && y == x.(e := x.e.(outWindow := x.e.outWindow - k),
                     pending := x.pending + [Unsent(if stderr then Extended(1, s[..k]) else Data(s[..k]))])
          && 0 <= y.e.outWindow && k <= x.e.outMaxPacket - 64
          && (k == |s| || y.e.outWindow == 0 || k == x.e.outMaxPacket - 64)
  {
    var y := Act(x, StartSend(s, stderr));
    var (e, k) := TakeWindow(x.e, |s|);
    if !(x.e.closed || x.e.eofSent || x.e.outWindow == 0 || s == []) {
      assert 0 < k <= |s|;
      var m := if stderr then Extended(1, s[..k]) else Data(s[..k]);
      assert y == x.(e := e, pending := x.pending + [Unsent(m)]);
    }
  }

  // ---------- the end of data and the close ----------

  predicate Announces(p: Pending, close: bool) {
    p.Unsent? && (if close then p.m.Close? else p.m.Eof?)
  }

  function Announced(ps: seq<Pending>, close: bool): nat {
    if ps == [] then 0 else (if Announces(ps[0], close) then 1 else 0) + Announced(ps[1..], close)
  }

  function Ends(ms: seq<Message>, close: bool): nat {
    if ms == [] then 0 else (if Announces(Unsent(ms[0]), close) then 1 else 0) + Ends(ms[1..], close)
  }

  lemma {:induction false} AnnouncedAppend(ps: seq<Pending>, qs: seq<Pending>, close: bool)
    ensures Announced(ps + qs, close) == Announced(ps, close) + Announced(qs, close)
  {
    if ps == [] {
      assert ps + qs == qs;
    } else {
      assert (ps + qs)[1..] == ps[1..] + qs;
      AnnouncedAppend(ps[1..], qs, close);
    }
  }

  lemma AnnouncedOne(p: Pending, close: bool)
    ensures Announced([p], close) == if Announces(p, close) then 1 else 0
  {
    assert [p][1..] == [];
  }

  lemma {:induction false} AnnouncedWithout(ps: seq<Pending>, i: nat, close: bool)
    requires i < |ps|
    ensures Announced(ps, close) == Announced(Without(ps, i), close) + if Announces(ps[i], close) then 1 else 0
    decreases i
  {
    var rest := Without(ps, i);
    if i == 0 {
      assert rest == ps[1..];
    } else {
      assert rest[0] == ps[0] && rest[1..] == Without(ps[1..], i - 1);
      AnnouncedWithout(ps[1..], i - 1, close);
    }
  }

  lemma {:induction false} EndsAppend(a: seq<Message>, b: seq<Message>, close: bool)
    ensures Ends(a + b, close) == Ends(a, close) + Ends(b, close)
  {
    if a == [] {
      assert a + b == b;
    } else {
      assert (a + b)[1..] == a[1..] + b;
      EndsAppend(a[1..], b, close);
    }
  }

  // What a side has still to announce, against what it has decided to.
  function Flag(b: bool): nat { if b then 1 else 0 }

  ghost predicate Settles(x: Side, y: Side, handed: seq<Message>) {
    && Announced(y.pending, false) + Ends(handed, false) + Flag(x.e.eofSent) == Announced(x.pending, false) + Flag(y.e.eofSent)
    && Announced(y.pending, true) + Ends(handed, true) + Flag(x.e.closed) == Announced(x.pending, true) + Flag(y.e.closed)
    && ((x.e.closed ==> x.e.eofSent) ==> (y.e.closed ==> y.e.eofSent))
  }

  lemma HoldSettles(x: Side, e: Endpoint, p: Pending)
    requires e.eofSent == x.e.eofSent && e.closed == x.e.closed && !Announces(p, true) && !Announces(p, false)
    ensures Settles(x, x.(e := e, pending := x.pending + [p]), [])
  {
    AnnouncedAppend(x.pending, [p], false);
    AnnouncedAppend(x.pending, [p], true);
    AnnouncedOne(p, false);
    AnnouncedOne(p, true);
  }

  lemma UnsentsSettle(x: Side, e: Endpoint, ms: seq<Message>)
    requires ms == [] || ms == [Eof] || ms == [Close] || ms == [Eof, Close]
    requires Flag(e.eofSent) == Flag(x.e.eofSent) + (if Eof in ms then 1 else 0)
    requires Flag(e.closed) == Flag(x.e.closed) + (if Close in ms then 1 else 0)
    requires (x.e.closed ==> x.e.eofSent) ==> (e.closed ==> e.eofSent)
    ensures Settles(x, x.(e := e, pending := x.pending + Unsents(ms)), [])
  {
    AnnouncedAppend(x.pending, Unsents(ms), false);
    AnnouncedAppend(x.pending, Unsents(ms), true);
    if ms == [Eof, Close] {
      assert ms[1..] == [Close] && [Close][1..] == [];
      assert Unsents(ms) == [Unsent(Eof)] + Unsents([Close]) == [Unsent(Eof)] + ([Unsent(Close)] + Unsents([]));
      TwoAnnounced();
    } else if ms != [] {
      assert ms[1..] == [];
      assert Unsents(ms) == [Unsent(ms[0])] + Unsents([]) == [Unsent(ms[0])];
      AnnouncedOne(Unsent(ms[0]), false);
      AnnouncedOne(Unsent(ms[0]), true);
    }
  }

  lemma TwoAnnounced()
    ensures var ps := [Unsent(Eof)] + ([Unsent(Close)] + []); Announced(ps, false) == 1 && Announced(ps, true) == 1
  {
    var e, c := [Unsent(Eof)], [Unsent(Close)];
    assert c + [] == c;
    AnnouncedAppend(e, c, false);
    AnnouncedAppend(e, c, true);
    AnnouncedOne(e[0], false);
    AnnouncedOne(e[0], true);
    AnnouncedOne(c[0], false);
    AnnouncedOne(c[0], true);
  }

  lemma SendSettles(x: Side, s: seq<byte>, code: Option<int>)
    ensures Settles(x, Send(x, s, code), [])
  {
    var (e, size) := TakeWindow(x.e, |s|);
    if 0 < size <= |s| { HoldSettles(x, e, Unsent(Typed(code, s[..size]))); }
  }

  lemma FinishSettles(x: Side, i: nat)
    ensures Settles(x, Act(x, Finish(i)), Handed(x, Some(Finish(i))))
  {
    if i < |x.pending| {
      var p := x.pending[i];
      var z := x.(pending := Without(x.pending, i));
      AnnouncedWithout(x.pending, i, false);
      AnnouncedWithout(x.pending, i, true);
      match p
      case Read(n) =>
        var (e, ack) := CheckAddWindow(z.e, n);
        HoldSettles(z, e, Unsent(Adjust(ack)));
      case Moving(s) =>
      case Unsent(m) =>
        assert [m][1..] == [];
    }
  }

  lemma SendEofSettles(x: Side)
    ensures Settles(x, Act(x, ShutdownWrite), [])
  {
    UnsentsSettle(x, SendEof(x.e).0, SendEof(x.e).1);
  }

  lemma CloseSettles(x: Side)
    ensures var (e, ms) := CloseInternal(x.e); Settles(x, x.(e := e, pending := x.pending + Unsents(ms)), [])
  {
    assert [Eof] + [Close] == [Eof, Close] && [] + [Close] == [Close];
    UnsentsSettle(x, CloseInternal(x.e).0, CloseInternal(x.e).1);
  }

  lemma ActSettles(x: Side, a: Action)
    ensures Settles(x, Act(x, a), Handed(x, Some(a)))
  {
    hide Send, CheckAddWindow, TakeWindow, Settles;
    match a
    case StartSend(s, stderr) => SendSettles(x, s, if stderr then Some(1) else None);
    case StartTyped(code, s) => SendSettles(x, s, Some(code));
    case ReadOut(n) => HoldSettles(x, x.e.(inBuffer := Split(x.e.inBuffer, n).1), Read(|Split(x.e.inBuffer, n).0|));
    case ReadErr(n) => HoldSettles(x, x.e.(inStderr := Split(x.e.inStderr, n).1), Read(|Split(x.e.inStderr, n).0|));
    case Combine(on) => CombineSettles(x, on);
    case Finish(i) => FinishSettles(x, i);
    case ShutdownRead => EndpointSettles(x, x.e.(eofReceived := true));
    case ShutdownWrite => SendEofSettles(x);
    case CloseIt => CloseSettles(x);
  }

  lemma CombineSettles(x: Side, on: bool)
    ensures Settles(x, Act(x, Combine(on)), [])
  {
    var (e, data) := SetCombine(x.e, on);
    HoldSettles(x, e, Moving(data));
  }

  lemma EndpointSettles(x: Side, e: Endpoint)
    requires e.eofSent == x.e.eofSent && e.closed == x.e.closed
    ensures Settles(x, x.(e := e), [])
  {
  }

  lemma ReceiveSettles(y: Side, m: Message)
    ensures var (e, ms) := Receive(y.e, m); Settles(y, y.(e := e, pending := y.pending + Unsents(ms)), [])
  {
    hide Settles;
    var (e, ms) := Receive(y.e, m);
    if m.Close? {
      CloseSettles(y);
    } else {
      assert y.pending + Unsents(ms) == y.pending;
      EndpointSettles(y, e);
    }
  }

  lemma StepSettles(s: System, t: Step, right: bool)
    ensures var x := Sender(s, right); Settles(x, Sender(Next(s, t), right), Handed(x, BySender(t, right)))
  {
    hide Act, Receive, Settles, Handed;
    var x, y := Sender(s, right), Receiver(s, right);
    if BySender(t, right).Some? {
      ActSettles(x, BySender(t, right).value);
    } else {
      NothingHanded(x, true);
      EndpointSettles(x, x.e);
      if Arrives(t, !right) && y.sent != [] {
        ReceiveSettles(x, y.sent[0]);
      } else if Arrives(t, right) {
        SentOnly(x, y);
      }
    }
  }

  lemma SentOnly(x: Side, y: Side)
    ensures Settles(x, Deliver(x, y).0, [])
  {
  }

  lemma {:induction false} RunSettles(s: System, steps: seq<Step>, right: bool)
    ensures Settles(Sender(s, right), Sender(Run(s, steps), right), HandedOver(s, steps, right))
    decreases |steps|
  {
    hide Next, Handed, Announced, Settles;
    if steps == [] {
      EndpointSettles(Sender(s, right), Sender(s, right).e);
    } else {
      var n := Next(s, steps[0]);
      StepSettles(s, steps[0], right);
      RunSettles(n, steps[1..], right);
      SettlesInTurn(Sender(s, right), Sender(n, right), Sender(Run(n, steps[1..]), right),
                    Handed(Sender(s, right), BySender(steps[0], right)), HandedOver(n, steps[1..], right));
    }
  }

  lemma SettlesInTurn(x: Side, y: Side, z: Side, h: seq<Message>, h': seq<Message>)
    requires Settles(x, y, h) && Settles(y, z, h')
    ensures Settles(x, z, h + h')
  {
    EndsAppend(h, h', false);
    EndsAppend(h, h', true);
  }

  // In every run each side announces the end of its data at most once and closes at
  // most once, and does not close without having announced the end.
  lemma EndsOnce(s: System, steps: seq<Step>, right: bool)
    requires Initial(s)
    ensures var x := Sender(Run(s, steps), right);
      && Ends(HandedOver(s, steps, right), false) + Announced(x.pending, false) == Flag(x.e.eofSent)
      && Ends(HandedOver(s, steps, right), true) + Announced(x.pending, true) == Flag(x.e.closed)
      && (x.e.closed ==> x.e.eofSent)
  {
    hide Run, HandedOver, Announced, Ends;
    RunSettles(s, steps, right);
    NoneAnnounced(Sender(s, right));
  }

  lemma NoneAnnounced(x: Side)
    requires x.pending == []
    ensures Announced(x.pending, false) == 0 && Announced(x.pending, true) == 0
  {
  }

  // ---------- grants ----------

  // A grant is worth sending: more than a tenth of the window.
  predicate Worth(W: nat, m: Message) {
    m.Adjust? ==> m.n > W / 10
  }

  predicate AllWorth(x: Side) {
    forall p | p in x.pending && p.Unsent? :: Worth(x.e.inWindow, p.m)
  }

  lemma HoldWorth(x: Side, e: Endpoint, p: Pending)
    requires AllWorth(x) && e.inWindow == x.e.inWindow && (p.Unsent? ==> Worth(e.inWindow, p.m))
    ensures AllWorth(x.(e := e, pending := x.pending + [p]))
  {
  }

  lemma UnsentsWorth(x: Side, e: Endpoint, ms: seq<Message>)
    requires AllWorth(x) && e.inWindow == x.e.inWindow && forall m | m in ms :: !m.Adjust?
    ensures AllWorth(x.(e := e, pending := x.pending + Unsents(ms)))
  {
    hide Unsents;
    NoGrants(ms);
  }

  lemma {:induction false} NoGrants(ms: seq<Message>)
    requires forall m | m in ms :: !m.Adjust?
    ensures forall p | p in Unsents(ms) :: p.Unsent? && !p.m.Adjust?
  {
    if ms != [] {
      assert ms[0] in ms;
      NoGrants(ms[1..]);
    }
  }

  lemma SendWorth(x: Side, s: seq<byte>, code: Option<int>)
    requires AllWorth(x)
    ensures AllWorth(Send(x, s, code)) && Send(x, s, code).e.inWindow == x.e.inWindow
  {
    var (e, size) := TakeWindow(x.e, |s|);
    if 0 < size <= |s| { HoldWorth(x, e, Unsent(Typed(code, s[..size]))); }
  }

  lemma FinishWorth(x: Side, i: nat)
    requires AllWorth(x)
    ensures var y := Act(x, Finish(i));
      AllWorth(y) && y.e.inWindow == x.e.inWindow && forall m | m in Handed(x, Some(Finish(i))) :: Worth(x.e.inWindow, m)
  {
    if i < |x.pending| {
      assert x.pending[i] in x.pending;
      var z := x.(pending := Without(x.pending, i));
      forall q | q in z.pending ensures q in x.pending {}
      if x.pending[i].Read? {
        var (e, ack) := CheckAddWindow(z.e, x.pending[i].n);
        if ack > 0 { HoldWorth(z, e, Unsent(Adjust(ack))); }
      }
    }
  }

  lemma ActWorth(x: Side, a: Action)
    requires AllWorth(x)
    ensures var y := Act(x, a);
      AllWorth(y) && y.e.inWindow == x.e.inWindow && forall m | m in Handed(x, Some(a)) :: Worth(x.e.inWindow, m)
  {
    hide Send, AllWorth, Worth;
    match a
    case StartSend(s, stderr) => SendWorth(x, s, if stderr then Some(1) else None);
    case StartTyped(code, s) => SendWorth(x, s, Some(code));
    case ReadOut(n) => ReadWorth(x, x.e.(inBuffer := Split(x.e.inBuffer, n).1), |Split(x.e.inBuffer, n).0|);
    case ReadErr(n) => ReadWorth(x, x.e.(inStderr := Split(x.e.inStderr, n).1), |Split(x.e.inStderr, n).0|);
    case Combine(on) => CombineWorth(x, on);
    case Finish(i) => FinishWorth(x, i);
    case ShutdownRead => EndpointWorth(x, x.e.(eofReceived := true));
    case ShutdownWrite => UnsentsWorth(x, SendEof(x.e).0, SendEof(x.e).1);
    case CloseIt => UnsentsWorth(x, CloseInternal(x.e).0, CloseInternal(x.e).1);
  }

  lemma ReadWorth(x: Side, e: Endpoint, n: nat)
    requires AllWorth(x) && e.inWindow == x.e.inWindow
    ensures AllWorth(x.(e := e, pending := x.pending + [Read(n)]))
  {
  }

  lemma EndpointWorth(x: Side, e: Endpoint)
    requires AllWorth(x) && e.inWindow == x.e.inWindow
    ensures AllWorth(x.(e := e))
  {
  }

  lemma CombineWorth(x: Side, on: bool)
    requires AllWorth(x)
    ensures AllWorth(Act(x, Combine(on)))
  {
    var (e, data) := SetCombine(x.e, on);
    EndpointWorth(x, e);
    HoldWorth(x, e, Moving(data));
  }

  lemma ReceiveWorth(y: Side, m: Message)
    requires AllWorth(y)
    ensures var (e, ms) := Receive(y.e, m);
      AllWorth(y.(e := e, pending := y.pending + Unsents(ms))) && e.inWindow == y.e.inWindow
  {
    UnsentsWorth(y, Receive(y.e, m).0, Receive(y.e, m).1);
  }

  lemma StepWorth(s: System, t: Step, right: bool)
    requires AllWorth(Sender(s, right))
    ensures var x, x' := Sender(s, right), Sender(Next(s, t), right);
      AllWorth(x') && x'.e.inWindow == x.e.inWindow && forall m | m in Handed(x, BySender(t, right)) :: Worth(x.e.inWindow, m)
  {
    hide Act, Receive, AllWorth, Handed, Worth;
    var x, y := Sender(s, right), Receiver(s, right);
    if BySender(t, right).Some? {
      ActWorth(x, BySender(t, right).value);
    } else {
      NothingHanded(x, true);
      if Arrives(t, !right) && y.sent != [] { ReceiveWorth(x, y.sent[0]); } else if Arrives(t, right) { SentWorth(x, y); }
    }
  }

  lemma SentWorth(x: Side, y: Side)
    requires AllWorth(x)
    ensures AllWorth(Deliver(x, y).0) && Deliver(x, y).0.e == x.e
  {
  }

  lemma {:induction false} RunWorth(s: System, steps: seq<Step>, right: bool)
    requires AllWorth(Sender(s, right))
    ensures forall m | m in HandedOver(s, steps, right) :: Worth(Sender(s, right).e.inWindow, m)
    decreases |steps|
  {
    hide Next, AllWorth, Worth, Handed;
    if steps != [] {
      StepWorth(s, steps[0], right);
      RunWorth(Next(s, steps[0]), steps[1..], right);
    }
  }

  // In every run each side grants only what is more than a tenth of its window.
  lemma GrantsAreWorthIt(s: System, steps: seq<Step>, right: bool)
    requires Initial(s)
    ensures forall m | m in HandedOver(s, steps, right) && m.Adjust? :: m.n > Sender(s, right).e.inWindow / 10
  {
    hide Initial, HandedOver;
    NoneHeld(s, right);
    RunWorth(s, steps, right);
  }

  lemma NoneHeld(s: System, right: bool)
    requires Initial(s)
    ensures AllWorth(Sender(s, right))
  {
  }

  // A side that has been closed, or has seen the end of its input, grants nothing.
  predicate Shut(x: Side) {
    !x.e.active || x.e.closed || x.e.eofReceived
  }

  predicate HoldsNoGrant(x: Side) {
    forall p | p in x.pending && p.Unsent? :: !p.m.Adjust?
  }

  lemma SendNoGrant(x: Side, s: seq<byte>, code: Option<int>)
    requires HoldsNoGrant(x)
    ensures HoldsNoGrant(Send(x, s, code))
  {
  }

  lemma FinishNoGrant(x: Side, i: nat)
    requires Shut(x) && HoldsNoGrant(x)
    ensures HoldsNoGrant(Act(x, Finish(i))) && forall m | m in Handed(x, Some(Finish(i))) :: !m.Adjust?
  {
    if i < |x.pending| {
      assert x.pending[i] in x.pending;
      forall q | q in Without(x.pending, i) ensures q in x.pending {}
    }
  }

  lemma EndsNoGrant(x: Side, e: Endpoint, ms: seq<Message>)
    requires HoldsNoGrant(x) && forall m | m in ms :: !m.Adjust?
    ensures HoldsNoGrant(x.(e := e, pending := x.pending + Unsents(ms)))
  {
    hide Unsents;
    NoGrants(ms);
  }

  lemma HoldNoGrant(x: Side, e: Endpoint, p: Pending)
    requires HoldsNoGrant(x) && !p.Unsent?
    ensures HoldsNoGrant(x.(e := e, pending := x.pending + [p])) && HoldsNoGrant(x.(e := e))
  {
  }

  lemma ActNoGrant(x: Side, a: Action)
    requires Shut(x) && HoldsNoGrant(x)
    ensures HoldsNoGrant(Act(x, a)) && forall m | m in Handed(x, Some(a)) :: !m.Adjust?
  {
    hide Send, HoldsNoGrant, Shut, Continue;
    match a
    case StartSend(s, stderr) => SendNoGrant(x, s, if stderr then Some(1) else None);
    case StartTyped(code, s) => SendNoGrant(x, s, Some(code));
    case ReadOut(n) => HoldNoGrant(x, x.e.(inBuffer := Split(x.e.inBuffer, n).1), Read(|Split(x.e.inBuffer, n).0|));
    case ReadErr(n) => HoldNoGrant(x, x.e.(inStderr := Split(x.e.inStderr, n).1), Read(|Split(x.e.inStderr, n).0|));
    case Combine(on) => HoldNoGrant(x, SetCombine(x.e, on).0, Moving(SetCombine(x.e, on).1));
    case Finish(i) => FinishNoGrant(x, i);
    case ShutdownRead => HoldNoGrant(x, x.e.(eofReceived := true), Read(0));
    case ShutdownWrite => EndsNoGrant(x, SendEof(x.e).0, SendEof(x.e).1);
    case CloseIt => EndsNoGrant(x, CloseInternal(x.e).0, CloseInternal(x.e).1);
  }

  lemma ShutForGood(x: Side, a: Action, m: Message)
    requires Shut(x)
    ensures Shut(Act(x, a)) && Shut(x.(e := Receive(x.e, m).0))
  {
  }

  lemma ReceiveNoGrant(y: Side, m: Message)
    requires HoldsNoGrant(y)
    ensures var (e, ms) := Receive(y.e, m); HoldsNoGrant(y.(e := e, pending := y.pending + Unsents(ms)))
  {
    EndsNoGrant(y, Receive(y.e, m).0, Receive(y.e, m).1);
  }

  lemma StepNoGrant(s: System, t: Step, right: bool)
    requires Shut(Sender(s, right)) && HoldsNoGrant(Sender(s, right))
    ensures Shut(Sender(Next(s, t), right)) && HoldsNoGrant(Sender(Next(s, t), right))
    ensures forall m | m in Handed(Sender(s, right), BySender(t, right)) :: !m.Adjust?
  {
    hide Act, Receive, Handed, HoldsNoGrant;
    var x, y := Sender(s, right), Receiver(s, right);
    if BySender(t, right).Some? {
      ActNoGrant(x, BySender(t, right).value);
      ShutForGood(x, BySender(t, right).value, Eof);
    } else {
      NothingHanded(x, true);
      if Arrives(t, !right) && y.sent != [] {
        ReceiveNoGrant(x, y.sent[0]);
        ShutForGood(x, ShutdownRead, y.sent[0]);
      } else if Arrives(t, right) {
        SentNoGrant(x, y);
      }
    }
  }

  lemma SentNoGrant(x: Side, y: Side)
    requires HoldsNoGrant(x)
    ensures HoldsNoGrant(Deliver(x, y).0) && Deliver(x, y).0.e == x.e
  {
  }

  // From then on, in every run.
  lemma {:induction false} ShutGrantsNothing(s: System, steps: seq<Step>, right: bool)
    requires Shut(Sender(s, right)) && HoldsNoGrant(Sender(s, right))
    ensures forall m | m in HandedOver(s, steps, right) :: !m.Adjust?
    decreases |steps|
  {
    hide Next, HoldsNoGrant, Shut, Handed;
    if steps != [] {
      StepNoGrant(s, steps[0], right);
      ShutGrantsNothing(Next(s, steps[0]), steps[1..], right);
    }
  }

  // ---------- the end arrives ----------

  // Every end of data that has been handed over and is no longer on its way has
  // been seen by the receiver, and every close has closed it.
  ghost predicate Seen(y: Side, handed: seq<Message>, onWay: seq<Message>) {
    && (Ends(handed, false) > Ends(onWay, false) ==> y.e.eofReceived)
    && (Ends(handed, true) > Ends(onWay, true) ==> y.e.closed || !y.e.active)
  }

  lemma ActSees(y: Side, a: Action)
    ensures var y' := Act(y, a);
      && (y.e.eofReceived ==> y'.e.eofReceived)
      && (y.e.closed || !y.e.active ==> y'.e.closed || !y'.e.active)
  {
  }

  lemma ReceiveSees(y: Side, m: Message)
    ensures var e := Receive(y.e, m).0;
      && (y.e.eofReceived || m.Eof? ==> e.eofReceived)
      && (y.e.closed || !y.e.active || m.Close? ==> e.closed || !e.active)
  {
  }

  lemma EndsOne(m: Message, rest: seq<Message>, close: bool)
    ensures Ends([m] + rest, close) == (if Announces(Unsent(m), close) then 1 else 0) + Ends(rest, close)
    ensures Ends([m], close) == if Announces(Unsent(m), close) then 1 else 0
  {
    assert ([m] + rest)[1..] == rest && [m][1..] == [];
  }

  lemma StepSees(s: System, t: Step, right: bool, handed: seq<Message>)
    requires Seen(Receiver(s, right), handed, Sender(s, right).sent)
    requires Ends(handed, false) >= Ends(Sender(s, right).sent, false) && Ends(handed, true) >= Ends(Sender(s, right).sent, true)
    ensures var r, h := Next(s, t), handed + Handed(Sender(s, right), BySender(t, right));
      && Seen(Receiver(r, right), h, Sender(r, right).sent)
      && Ends(h, false) >= Ends(Sender(r, right).sent, false) && Ends(h, true) >= Ends(Sender(r, right).sent, true)
  {
    hide Act, Receive, Handed, Ends;
    var x, y := Sender(s, right), Receiver(s, right);
    if BySender(t, right).Some? {
      var h := Handed(x, BySender(t, right));
      SenderHands(x, BySender(t, right).value);
      EndsAppend(x.sent, h, false);
      EndsAppend(x.sent, h, true);
      EndsAppend(handed, h, false);
      EndsAppend(handed, h, true);
    } else {
      NothingHanded(x, true);
      assert handed + [] == handed;
      if ByReceiver(t, right).Some? {
        ActSees(y, ByReceiver(t, right).value);
      } else if Arrives(t, right) && x.sent != [] {
        ReceiveSees(y, x.sent[0]);
        assert [x.sent[0]] + x.sent[1..] == x.sent;
        EndsOne(x.sent[0], x.sent[1..], false);
        EndsOne(x.sent[0], x.sent[1..], true);
      }
    }
  }

  lemma {:induction false} RunSees(s: System, steps: seq<Step>, right: bool, handed: seq<Message>)
    requires Seen(Receiver(s, right), handed, Sender(s, right).sent)
    requires Ends(handed, false) >= Ends(Sender(s, right).sent, false) && Ends(handed, true) >= Ends(Sender(s, right).sent, true)
    ensures Seen(Receiver(Run(s, steps), right), handed + HandedOver(s, steps, right), Sender(Run(s, steps), right).sent)
    decreases |steps|
  {
    hide Next, Seen, Handed, Ends;
    if steps == [] {
      assert handed + [] == handed;
    } else {
      var h := Handed(Sender(s, right), BySender(steps[0], right));
      StepSees(s, steps[0], right, handed);
      RunSees(Next(s, steps[0]), steps[1..], right, handed + h);
      assert handed + h + HandedOver(Next(s, steps[0]), steps[1..], right) == handed + (h + HandedOver(Next(s, steps[0]), steps[1..], right));
    }
  }

  lemma EndsAreSeen(s: System, steps: seq<Step>, right: bool)
    requires Initial(s)
    ensures var r := Run(s, steps);
      Seen(Receiver(r, right), HandedOver(s, steps, right), Sender(r, right).sent)
  {
    hide Run, HandedOver;
    RunSees(s, steps, right, []);
    assert [] + HandedOver(s, steps, right) == HandedOver(s, steps, right);
  }
}
