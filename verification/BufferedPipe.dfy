// BufferedPipe (paramiko/buffered_pipe.py): bytes in one end, bytes out of the
// other. Each method holds the lock throughout, so it is one step.
module BufferedPipe {
  import opened KconfigExpr
  import opened Bytes

  datatype ReadResult = Out(data: seq<byte>) | PipeTimeout

  class Pipe {
    var buffer: seq<byte>
    var closed: bool
    // The attached event, if any, and whether it is set.
    var event: Option<bool>

    constructor ()
      ensures buffer == [] && !closed && event.None?
    {
      buffer, closed, event := [], false, None;
    }

    // Whoever waits for the event misses no data.
    predicate Signalled()
      reads this
    {
      event.Some? && buffer != [] ==> event.value
    }

    // What the documentation asks of the event: set when data is ready or the pipe
    // has been closed.
    predicate AsDocumented()
      reads this
    {
      event == Some(buffer != [] || closed)
    }

    // set_event. On a pipe that is closed and empty the event is cleared.
    method SetEvent()
      modifies this`event
      ensures event == Some(buffer != []) && Signalled()
      ensures AsDocumented() <==> !(closed && buffer == [])
    {
      event := Some(|buffer| > 0);
    }

    method Feed(data: seq<byte>)
      requires Signalled()
      modifies this`buffer, this`event
      ensures buffer == old(buffer) + data && Signalled()
      ensures event == if old(event).Some? then Some(true) else None
    {
      if event.Some? { event := Some(true); }
      buffer := buffer + data;
    }

    // read with a timeout that has run out: a longer wait ends in one of the
    // other steps, or here.
    method Read(nbytes: nat) returns (r: ReadResult)
      requires Signalled()
      modifies this`buffer, this`event
      ensures Signalled()
      ensures r.PipeTimeout? <==> old(buffer) == [] && !closed
      ensures r.PipeTimeout? ==> buffer == old(buffer) && event == old(event)
      ensures r.Out? ==> r.data + buffer == old(buffer)
      ensures r.Out? ==> |r.data| == if |old(buffer)| <= nbytes then |old(buffer)| else nbytes
      ensures event == if old(event).Some? && !closed && old(buffer) != [] && buffer == [] then Some(false) else old(event)
    {
      if |buffer| == 0 {
        if closed { return Out([]); }
        return PipeTimeout;
      }
      if |buffer| <= nbytes {
        r := Out(buffer);
        buffer := [];
        if event.Some? && !closed { event := Some(false); }
      } else {
        r := Out(buffer[..nbytes]);
        buffer := buffer[nbytes..];
      }
    }

    method Empty() returns (out: seq<byte>)
      requires Signalled()
      modifies this`buffer, this`event
      ensures out == old(buffer) && buffer == [] && Signalled()
      ensures event == if old(event).Some? && !closed then Some(false) else old(event)
    {
      out := buffer;
      buffer := [];
      if event.Some? && !closed { event := Some(false); }
    }

    method Close()
      requires Signalled()
      modifies this`closed, this`event
      ensures closed && Signalled() && event == if old(event).Some? then Some(true) else None
    {
      closed := true;
      if event.Some? { event := Some(true); }
    }
  }
}
