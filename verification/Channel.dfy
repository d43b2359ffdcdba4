// class Channel (paramiko/channel.py): the methods behind the steps of
// ChannelFlow, on the fields of the object and its two pipes.
module Channel {
  import opened KconfigExpr
  import opened Bytes
  import BufferedPipe
  import opened ChannelState

  datatype SendResult = Sent(size: nat, m: Message) | Nothing | WouldBlock | SocketError

  datatype RecvResult = Received(data: seq<byte>, ack: Option<Message>) | Timeout

  class Channel {
    var active: bool
    var closed: bool
    var eofReceived: bool
    var eofSent: bool
    var combineStderr: bool
    var inWindow: nat
    var inThreshold: nat
    var inSofar: nat
    var outWindow: int
    var outMaxPacket: int
    const inBuffer: BufferedPipe.Pipe
    const inStderr: BufferedPipe.Pipe

    constructor ()
      ensures Valid() && fresh(inBuffer) && fresh(inStderr)
      ensures View() == Endpoint(false, false, false, false, false, 0, 0, 0, 0, [], [])
    {
      active, closed, eofReceived, eofSent, combineStderr := false, false, false, false, false;
      inWindow, inThreshold, inSofar, outWindow, outMaxPacket := 0, 0, 0, 0, 0;
      inBuffer := new BufferedPipe.Pipe();
      inStderr := new BufferedPipe.Pipe();
    }

    // The pipes are closed once the channel is, or its input has ended.
    predicate Valid()
      reads this, inBuffer, inStderr
    {
      && inBuffer != inStderr && inThreshold == inWindow / 10
      && inBuffer.Signalled() && inStderr.Signalled()
      && (closed ==> inBuffer.closed && inStderr.closed)
    }

    function View(): Endpoint
      reads this, inBuffer, inStderr
    {
      Endpoint(active, closed, eofReceived, eofSent, combineStderr,
        inWindow, inSofar, outWindow, outMaxPacket, inBuffer.buffer, inStderr.buffer)
    }

    method SetWindow(windowSize: nat)
      requires Valid()
      modifies this`inWindow, this`inThreshold, this`inSofar
      ensures Valid() && View() == old(View()).(inWindow := windowSize, inSofar := 0)
    {
      inWindow := windowSize;
      inThreshold := windowSize / 10;
      inSofar := 0;
    }

    // The packet size is clamped by _sanitize_packet_size.
    method SetRemoteChannel(windowSize: nat, maxPacket: nat)
      requires Valid()
      modifies this`outWindow, this`outMaxPacket, this`active
      ensures Valid() && View() == old(View()).(active := true, outWindow := windowSize, outMaxPacket := outMaxPacket)
      ensures MIN_PACKET_SIZE <= outMaxPacket <= 0xffff_ffff
      ensures MIN_PACKET_SIZE <= maxPacket <= 0xffff_ffff ==> outMaxPacket == maxPacket
      ensures maxPacket < MIN_PACKET_SIZE ==> outMaxPacket == MIN_PACKET_SIZE
      ensures maxPacket > 0xffff_ffff ==> outMaxPacket == 0xffff_ffff
    {
      outWindow := windowSize;
      var m := if maxPacket <= 0xffff_ffff then maxPacket else 0xffff_ffff;
      outMaxPacket := if MIN_PACKET_SIZE >= m then MIN_PACKET_SIZE else m;
      active := true;
    }

    method Feed(s: seq<byte>)
      requires Valid()
      modifies inBuffer`buffer, inBuffer`event
      ensures Valid() && View() == ChannelState.FeedData(old(View()), s)
    {
      inBuffer.Feed(s);
    }

    method FeedExtended(code: int, s: seq<byte>)
      requires Valid()
      modifies inBuffer`buffer, inBuffer`event, inStderr`buffer, inStderr`event
      ensures Valid() && View() == ChannelState.FeedExtended(old(View()), code, s)
    {
      if code != 1 { return; }
      if combineStderr { Feed(s); } else { inStderr.Feed(s); }
    }

    method WindowAdjust(n: nat)
      requires Valid()
      modifies this`outWindow
      ensures Valid() && View() == ChannelState.WindowAdjust(old(View()), n)
    {
      outWindow := outWindow + n;
    }

    method CheckAddWindow(n: nat) returns (out: nat)
      requires Valid()
      modifies this`inSofar
      ensures Valid() && (View(), out) == ChannelState.CheckAddWindow(old(View()), n)
    {
      if closed || eofReceived || !active { return 0; }
      inSofar := inSofar + n;
      if inSofar <= inThreshold { return 0; }
      out := inSofar;
      inSofar := 0;
    }

    // None: the window is shut, so the caller waits or times out.
    method WaitForSendWindow(size0: nat) returns (r: Option<int>)
      requires Valid()
      modifies this`outWindow
      ensures Valid()
      ensures r.None? <==> !closed && !eofSent && old(outWindow) == 0
      ensures r.None? ==> View() == old(View())
      ensures r.Some? ==> (View(), r.value) == TakeWindow(old(View()), size0)
    {
      var size: int := size0;
      if closed || eofSent { return Some(0); }
      if outWindow == 0 { return None; }
      if outWindow < size { size := outWindow; }
      if outMaxPacket - 64 < size { size := outMaxPacket - 64; }
      outWindow := outWindow - size;
      r := Some(size);
    }

    // _send: never more than asked for, than the window or than a packet; the
    // window pays for exactly the bytes in the message.
    method Send(s: seq<byte>, stderr: bool) returns (r: SendResult)
      requires Valid() && outWindow >= 0 && outMaxPacket >= MIN_PACKET_SIZE
      modifies this`outWindow
      ensures Valid() && 0 <= outWindow && View() == old(View()).(outWindow := outWindow)
      ensures r.SocketError? <==> closed
      ensures r.WouldBlock? <==> !closed && !eofSent && old(outWindow) == 0
      ensures r.Nothing? <==> !closed && (eofSent || (old(outWindow) != 0 && s == []))
      ensures r.Sent? ==>
        && 0 < r.size <= |s| && r.size == old(outWindow) - outWindow && r.size <= outMaxPacket - 64
        && (r.size == |s| || outWindow == 0 || r.size == outMaxPacket - 64)
        && r.m == (if stderr then Extended(1, s[..r.size]) else Data(s[..r.size]))
      ensures !r.Sent? ==> outWindow == old(outWindow)
    {
      if closed { return SocketError; }
      var size := WaitForSendWindow(|s|);
      if size.None? { return WouldBlock; }
      if size.value == 0 { return Nothing; }
      r := Sent(size.value, if stderr then Extended(1, s[..size.value]) else Data(s[..size.value]));
    }

    // recv: the read, then the acknowledgement of exactly the bytes read.
    method Recv(nbytes: nat) returns (r: RecvResult)
      requires Valid()
      modifies this`inSofar, inBuffer`buffer, inBuffer`event
      ensures Valid()
      ensures r.Timeout? <==> old(inBuffer.buffer) == [] && !inBuffer.closed
      ensures r.Timeout? ==> View() == old(View())
      ensures r.Received? ==>
        var (data, rest) := Split(old(View()).inBuffer, nbytes);
        var (e, n) := ChannelState.CheckAddWindow(old(View()).(inBuffer := rest), |data|);
        r == Received(data, if n > 0 then Some(Adjust(n)) else None) && View() == e
    {
      var out := inBuffer.Read(nbytes);
      if out.PipeTimeout? { return Timeout; }
      Splits(out.data, inBuffer.buffer, nbytes);
      var ack := CheckAddWindow(|out.data|);
      r := Received(out.data, if ack > 0 then Some(Adjust(ack)) else None);
    }

    method RecvStderr(nbytes: nat) returns (r: RecvResult)
      requires Valid()
      modifies this`inSofar, inStderr`buffer, inStderr`event
      ensures Valid()
      ensures r.Timeout? <==> old(inStderr.buffer) == [] && !inStderr.closed
      ensures r.Timeout? ==> View() == old(View())
      ensures r.Received? ==>
        var (data, rest) := Split(old(View()).inStderr, nbytes);
        var (e, n) := ChannelState.CheckAddWindow(old(View()).(inStderr := rest), |data|);
        r == Received(data, if n > 0 then Some(Adjust(n)) else None) && View() == e
    {
      var out := inStderr.Read(nbytes);
      if out.PipeTimeout? { return Timeout; }
      Splits(out.data, inStderr.buffer, nbytes);
      var ack := CheckAddWindow(|out.data|);
      r := Received(out.data, if ack > 0 then Some(Adjust(ack)) else None);
    }

    // set_combine_stderr: what was on stderr is now at the end of stdout.
    method SetCombineStderr(combine: bool) returns (was: bool)
      requires Valid()
      modifies this`combineStderr, inBuffer`buffer, inBuffer`event, inStderr`buffer, inStderr`event
      ensures Valid() && was == old(combineStderr)
      ensures var (e, data) := SetCombine(old(View()), combine); View() == ChannelState.FeedData(e, data)
    {
      was := combineStderr;
      combineStderr := combine;
      var data := [];
      if combine && !was { data := inStderr.Empty(); }
      if |data| > 0 { Feed(data); } else { assert inBuffer.buffer + data == inBuffer.buffer; }
    }

    method SendEof() returns (m: Option<Message>)
      requires Valid()
      modifies this`eofSent
      ensures Valid()
      ensures (View(), if m.Some? then [m.value] else []) == ChannelState.SendEof(old(View()))
    {
      if eofSent { return None; }
      eofSent := true;
      m := Some(Eof);
    }

    method HandleEof()
      requires Valid()
      modifies this`eofReceived, inBuffer`closed, inBuffer`event, inStderr`closed, inStderr`event
      ensures Valid() && View() == old(View()).(eofReceived := true)
      ensures !old(eofReceived) ==> inBuffer.closed && inStderr.closed
    {
      if !eofReceived {
        eofReceived := true;
        inBuffer.Close();
        inStderr.Close();
      }
    }

    method CloseInternal() returns (ms: seq<Message>)
      requires Valid()
      modifies this`eofSent, this`closed, inBuffer`closed, inBuffer`event, inStderr`closed, inStderr`event
      ensures Valid() && (View(), ms) == ChannelState.CloseInternal(old(View()))
    {
      if !active || closed { return []; }
      var m1 := SendEof();
      closed := true;
      inBuffer.Close();
      inStderr.Close();
      ms := (if m1.Some? then [m1.value] else []) + [Message.Close];
    }
  }

  lemma Splits(data: seq<byte>, rest: seq<byte>, n: nat)
    requires |data| == if |data + rest| <= n then |data + rest| else n
    ensures Split(data + rest, n) == (data, rest)
  {
    assert |data + rest| <= n ==> data + rest == data;
  }
}
