// One end of a channel (paramiko/channel.py): its state, and what each locked
// step does to it. Section 5.2 of RFC 4254 describes the window.
module ChannelState {
  import opened KconfigExpr
  import opened Bytes

  const MIN_PACKET_SIZE := 4096

  datatype Endpoint = Endpoint(
    active: bool, closed: bool, eofReceived: bool, eofSent: bool, combineStderr: bool,
    inWindow: nat, inSofar: nat, outWindow: int, outMaxPacket: int,
    inBuffer: seq<byte>, inStderr: seq<byte>)
  {
    // The bytes received before a window adjustment is worth sending.
    function Threshold(): nat { inWindow / 10 }

    // Reading still earns the other end credit.
    predicate IsOpen() { active && !closed && !eofReceived }
  }

  datatype Message = Data(s: seq<byte>) | Extended(code: int, s: seq<byte>) | Adjust(n: nat) | Eof | Close

  // _feed
  function FeedData(e: Endpoint, s: seq<byte>): Endpoint {
    e.(inBuffer := e.inBuffer + s)
  }

  // _feed_extended
  function FeedExtended(e: Endpoint, code: int, s: seq<byte>): Endpoint {
    if code != 1 then e
    else if e.combineStderr then FeedData(e, s)
    else e.(inStderr := e.inStderr + s)
  }

  // _window_adjust
  function WindowAdjust(e: Endpoint, n: nat): Endpoint {
    e.(outWindow := e.outWindow + n)
  }

  // _check_add_window: n bytes have been read; the second result is what the
  // other end is told, 0 for nothing yet.
  function CheckAddWindow(e: Endpoint, n: nat): (Endpoint, nat) {
    if !e.IsOpen() then (e, 0)
    else if e.inSofar + n <= e.Threshold() then (e.(inSofar := e.inSofar + n), 0)
    else (e.(inSofar := 0), e.inSofar + n)
  }

  // _wait_for_send_window once it need not wait.
  function TakeWindow(e: Endpoint, size: nat): (Endpoint, int)
  {
    if e.closed || e.eofSent then (e, 0) else
    var s := if e.outWindow < size then e.outWindow else size;
    var t := if e.outMaxPacket - 64 < s then e.outMaxPacket - 64 else s;
    (e.(outWindow := e.outWindow - t), t)
  }

  // The first n bytes of a buffer, and the rest.
  function Split(buffer: seq<byte>, n: nat): (seq<byte>, seq<byte>) {
    if |buffer| <= n then (buffer, []) else (buffer[..n], buffer[n..])
  }

  // The locked part of set_combine_stderr: the bytes to be moved.
  function SetCombine(e: Endpoint, combine: bool): (Endpoint, seq<byte>) {
    if combine && !e.combineStderr then (e.(combineStderr := true, inStderr := []), e.inStderr)
    else (e.(combineStderr := combine), [])
  }

  // _send_eof
  function SendEof(e: Endpoint): (Endpoint, seq<Message>) {
    if e.eofSent then (e, []) else (e.(eofSent := true), [Eof])
  }

  // _close_internal
  function CloseInternal(e: Endpoint): (Endpoint, seq<Message>) {
    if !e.active || e.closed then (e, []) else
    var (e1, m) := SendEof(e);
    (e1.(closed := true), m + [Close])
  }

  // What the transport does with a message for this channel.
  function Receive(e: Endpoint, m: Message): (Endpoint, seq<Message>) {
    match m
    case Data(s) => (FeedData(e, s), [])
    case Extended(code, s) => (FeedExtended(e, code, s), [])
    case Adjust(n) => (WindowAdjust(e, n), [])
    case Eof => (e.(eofReceived := true), [])
    case Close => CloseInternal(e)
  }
}
