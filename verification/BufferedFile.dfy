// BufferedFile (paramiko/file.py): buffering around a stream that hands out
// bytes in pieces of any size and takes them in pieces of any size. What the
// caller reads and writes does not depend on the pieces.
module BufferedFile {
  import opened KconfigExpr
  import opened Bytes
  import opened Lines

  const DEFAULT_BUFSIZE: nat := 8192

  // A subclass's _read: the pieces the stream will come in, none of them empty.
  class Source {
    var pieces: seq<seq<byte>>

    predicate Valid()
      reads this
    {
      forall p | p in pieces :: p != []
    }

    function Left(): seq<byte>
      reads this
    {
      Concat(pieces)
    }

    constructor (pieces: seq<seq<byte>>)
      requires forall p | p in pieces :: p != []
      ensures Valid() && this.pieces == pieces
    {
      this.pieces := pieces;
    }

    // The next piece, or its first n bytes; empty at the end of the stream.
    method Read(n: nat) returns (data: seq<byte>)
      requires Valid() && n >= 1
      modifies this
      ensures Valid() && data + Left() == old(Left())
      ensures data == [] <==> old(Left()) == []
      ensures |data| <= n
      ensures old(pieces) != [] && |old(pieces)[0]| <= n ==> data == old(pieces)[0] && pieces == old(pieces)[1..]
    {
      if pieces == [] { return []; }
      var p := pieces[0];
      ghost var was := pieces;
      assert p in pieces;
      assert forall q | q in was[1..] :: q in was;
      if |p| <= n {
        data := p;
        pieces := pieces[1..];
      } else {
        data := p[..n];
        pieces := [p[n..]] + pieces[1..];
        assert pieces[1..] == was[1..];
        assert p[n..] + Concat(was[1..]) == Left();
        assert p == p[..n] + p[n..];
      }
    }
  }

  function Concat(pieces: seq<seq<byte>>): seq<byte> {
    if pieces == [] then [] else pieces[0] + Concat(pieces[1..])
  }

  lemma {:induction false} ConcatSnoc(pieces: seq<seq<byte>>, p: seq<byte>)
    ensures Concat(pieces + [p]) == Concat(pieces) + p
  {
    if pieces == [] {
      assert pieces + [p] == [p] && [p][1..] == pieces && p + [] == p;
    } else {
      assert (pieces + [p])[1..] == pieces[1..] + [p];
      ConcatSnoc(pieces[1..], p);
    }
  }

  // A subclass's _write: takes at least one byte, at most what the next limit says.
  class Sink {
    var written: seq<byte>
    var limits: seq<nat>

    predicate Valid()
      reads this
    {
      forall l | l in limits :: l >= 1
    }

    constructor (limits: seq<nat>)
      requires forall l | l in limits :: l >= 1
      ensures Valid() && written == []
    {
      written, this.limits := [], limits;
    }

    method Write(data: seq<byte>) returns (count: nat)
      requires Valid() && data != []
      modifies this
      ensures Valid() && 1 <= count <= |data| && written == old(written) + data[..count]
    {
      count := |data|;
      if limits != [] {
        ghost var was := limits;
        assert was[0] in was && forall l | l in was[1..] :: l in was;
        if limits[0] < count { count := limits[0]; }
        limits := limits[1..];
      }
      written := written + data[..count];
    }
  }

  datatype Result<+T> = Done(value: T) | IOError

  class File {
    const source: Source
    const sink: Sink
    const canRead: bool
    const canWrite: bool
    const buffered: bool
    const lineBuffered: bool
    const universal: bool
    const bufsize: nat
    var rbuffer: seq<byte>
    var wbuffer: seq<byte>
    var atTrailingCr: bool
    var closed: bool
    var pos: int
    var realpos: int

    // _set_mode, for a mode without 'a'
    constructor (source: Source, sink: Sink, read: bool, write: bool, universal: bool, bufsize: int)
      requires source.Valid() && sink.Valid()
      ensures Valid() && !closed && rbuffer == [] && wbuffer == [] && !atTrailingCr && pos == realpos == 0
      ensures this.source == source && this.sink == sink && this.universal == universal
      ensures canRead == read && canWrite == write
      ensures buffered == (bufsize >= 1) && lineBuffered == (bufsize == 1)
      ensures this.bufsize == if bufsize > 1 then bufsize else DEFAULT_BUFSIZE
    {
      this.source, this.sink := source, sink;
      canRead, canWrite, this.universal := read, write, universal;
      buffered, lineBuffered := bufsize >= 1, bufsize == 1;
      this.bufsize := if bufsize > 1 then bufsize else DEFAULT_BUFSIZE;
      rbuffer, wbuffer, atTrailingCr, closed, pos, realpos := [], [], false, false, 0, 0;
    }

    // Without buffering nothing waits; with line buffering no whole line does;
    // with block buffering less than a block.
    ghost predicate Valid()
      reads this, source, sink
    {
      && source.Valid() && sink.Valid() && bufsize >= 1
      && (lineBuffered ==> buffered)
      && (!buffered ==> wbuffer == [])
      && (lineBuffered ==> LF !in wbuffer)
      && (buffered && !lineBuffered ==> |wbuffer| < bufsize)
    }

    // The bytes not yet delivered to the caller.
    ghost function Ahead(): seq<byte>
      reads this, source
    {
      rbuffer + source.Left()
    }

    // The next read will hand out a whole piece, in which the next line ends.
    ghost predicate LineInPiece()
      reads this, source
    {
      && rbuffer == [] && !atTrailingCr
      && source.pieces != [] && |source.pieces[0]| <= bufsize
      && (LF in source.pieces[0] || (universal && CR in source.pieces[0]))
    }

    // Everything handed to write, as far as it has got.
    ghost function Accepted(): seq<byte>
      reads this, sink
    {
      sink.written + wbuffer
    }

    // ---------- reading ----------

    // The next size bytes, fewer only at the end of the stream; all that is left
    // for None or a negative size.
    method Read(size: Option<int>) returns (r: Result<seq<byte>>)
      requires Valid()
      modifies this`rbuffer, this`pos, this`realpos, source
      ensures Valid()
      ensures r.IOError? <==> closed || !canRead
      ensures r.IOError? ==> Ahead() == old(Ahead())
      ensures r.Done? ==>
        && r.value + Ahead() == old(Ahead())
        && (size.None? || size.value < 0 ==> Ahead() == [])
        && (size.Some? && size.value >= 0 ==> |r.value| <= size.value && (|r.value| < size.value ==> Ahead() == []))
      ensures pos == old(pos) + (if r.Done? then |r.value| else 0)
      ensures realpos - |rbuffer| - pos == old(realpos - |rbuffer| - pos)
    {
      if closed || !canRead { return IOError; }
      if size.None? || size.value < 0 {
        var all := ReadToEnd();
        return Done(all);
      }
      var n := size.value;
      if n > |rbuffer| { FillTo(n); }
      var k := if n <= |rbuffer| then n else |rbuffer|;
      var result := rbuffer[..k];
      assert rbuffer == result + rbuffer[k..];
      assert result + (rbuffer[k..] + source.Left()) == rbuffer + source.Left();
      rbuffer := rbuffer[k..];
      pos := pos + |result|;
      r := Done(result);
    }

    // Lines 146-159
    method ReadToEnd() returns (result: seq<byte>)
      requires Valid()
      modifies this`rbuffer, this`pos, this`realpos, source
      ensures Valid() && result == old(Ahead()) && Ahead() == []
      ensures pos == old(pos) + |result| && rbuffer == []
      ensures realpos - pos == old(realpos - |rbuffer| - pos)
    {
      result := rbuffer;
      rbuffer := [];
      pos := pos + |result|;
      while true
        invariant Valid() && rbuffer == [] && result + source.Left() == old(Ahead())
        invariant pos == old(pos) + |result| && realpos - pos == old(realpos - |rbuffer| - pos)
        decreases |source.Left()|
      {
        ghost var was, left := result, source.Left();
        var data := source.Read(DEFAULT_BUFSIZE);
        if data == [] { break; }
        assert was + (data + source.Left()) == was + data + source.Left();
        result := result + data;
        realpos := realpos + |data|;
        pos := pos + |data|;
      }
      assert result + [] == result;
    }

    // Lines 165-176
    method FillTo(size: int)
      requires Valid() && size > |rbuffer|
      modifies this`rbuffer, this`realpos, source
      ensures Valid() && Ahead() == old(Ahead())
      ensures |rbuffer| < size ==> source.Left() == []
      ensures realpos - |rbuffer| == old(realpos - |rbuffer|)
    {
      while |rbuffer| < size
        invariant Valid() && Ahead() == old(Ahead())
        invariant realpos - |rbuffer| == old(realpos - |rbuffer|)
        decreases |source.Left()|
      {
        var n := size - |rbuffer|;
        if buffered && bufsize > n { n := bufsize; }
        ghost var was := rbuffer;
        var data := source.Read(n);
        if data == [] { return; }
        assert was + (data + source.Left()) == was + data + source.Left();
        rbuffer := rbuffer + data;
        realpos := realpos + |data|;
      }
    }

    // readline without a size: the first line of what is left, which does not
    // depend on where the pieces of the stream end.
    method ReadLine() returns (r: Result<seq<byte>>)
      requires Valid()
      modifies this`rbuffer, this`atTrailingCr, this`pos, this`realpos, source
      ensures Valid()
      ensures r.IOError? <==> closed || !canRead
      ensures r.IOError? ==> Ahead() == old(Ahead()) && atTrailingCr == old(atTrailingCr)
      ensures r.Done? ==> var rest := old(Rest(universal, atTrailingCr, Ahead()));
        && r.value == FirstLine(rest)
        && Rest(universal, atTrailingCr, Ahead()) == OtherLines(rest)
        && pos == old(pos) + |r.value|
      ensures r.Done? && universal && old(LineInPiece()) ==>
        && source.pieces == old(source.pieces)[1..]
        && (EndsInCr(old(source.pieces)[0]) ==> atTrailingCr && rbuffer == [])
    {
      hide Normalize, Concat, FirstLine;
      if closed || !canRead { return IOError; }
      var line, found := ReadToNewline();
      if found {
        line := CutLine(line);
      } else {
        rbuffer := [];
        AtEnd(universal, atTrailingCr, line);
      }
      pos := pos + |line|;
      r := Done(line);
    }

    // readlines: the lines of what is left, all of them without a size hint.
    method ReadLines(sizehint: Option<int>) returns (r: Result<seq<seq<byte>>>)
      requires Valid()
      modifies this`rbuffer, this`atTrailingCr, this`pos, this`realpos, source
      ensures Valid()
      ensures r.IOError? <==> closed || !canRead
      ensures r.Done? ==> var rest := old(Rest(universal, atTrailingCr, Ahead()));
        && LinesOf(rest) == r.value + LinesOf(Rest(universal, atTrailingCr, Ahead()))
        && (sizehint.None? ==> r.value == LinesOf(rest))
        && (sizehint.Some? && |Concat(r.value)| < sizehint.value ==> r.value == LinesOf(rest))
        && NoneTooMany(r.value, sizehint)
    {
      var lines, byteCount := [], 0;
      ghost var rest := Rest(universal, atTrailingCr, Ahead());
      assert [] + LinesOf(rest) == LinesOf(rest);
      while true
        invariant Valid()
        invariant lines == [] || !(closed || !canRead)
        invariant LinesOf(rest) == lines + LinesOf(Rest(universal, atTrailingCr, Ahead()))
        invariant byteCount == |Concat(lines)| && NoneTooMany(lines, sizehint)
        invariant sizehint.Some? && lines != [] ==> byteCount < sizehint.value
        decreases |Rest(universal, atTrailingCr, Ahead())|
      {
        ghost var ahead := Rest(universal, atTrailingCr, Ahead());
        var line := ReadLine();
        if line.IOError? { return IOError; }
        if |line.value| == 0 { break; }
        Associates(lines, [line.value], LinesOf(OtherLines(ahead)));
        OneLineMore(lines, line.value, sizehint);
        lines := lines + [line.value];
        byteCount := byteCount + |line.value|;
        if sizehint.Some? && byteCount >= sizehint.value { return Done(lines); }
      }
      assert lines + [] == lines;
      r := Done(lines);
    }

    // The loop of readline (lines 209-244)
    method ReadToNewline() returns (line: seq<byte>, found: bool)
      requires Valid()
      modifies this`atTrailingCr, this`realpos, source
      ensures Valid()
      ensures Rest(universal, atTrailingCr, line + source.Left()) == old(Rest(universal, atTrailingCr, Ahead()))
      ensures universal && line != [] ==> !atTrailingCr
      ensures found <==> LF in line || (universal && CR in line)
      ensures !found ==> source.Left() == []
      ensures old(LineInPiece()) ==> found && line == old(source.pieces)[0] && source.pieces == old(source.pieces)[1..]
    {
      hide Rest, Concat;
      line := rbuffer;
      ghost var whole, pieces := LineInPiece(), source.pieces;
      while true
        invariant Valid()
        invariant Rest(universal, atTrailingCr, line + source.Left()) == old(Rest(universal, atTrailingCr, Ahead()))
        invariant whole ==> !atTrailingCr && InPiece(line, source.pieces, pieces)
        decreases |source.Left()|
      {
        line := SkipLf(line);
        if LF in line || (universal && CR in line) { return line, true; }
        ghost var was := line;
        var data := source.Read(bufsize);
        if data == [] { return line, false; }
        assert was + (data + source.Left()) == was + data + source.Left();
        line := line + data;
        realpos := realpos + |data|;
      }
    }

    // Lines 211-220
    method SkipLf(text: seq<byte>) returns (line: seq<byte>)
      modifies this`atTrailingCr
      ensures Rest(universal, atTrailingCr, line + source.Left())
              == old(Rest(universal, atTrailingCr, text + source.Left()))
      ensures universal && line != [] ==> !atTrailingCr
      ensures !old(atTrailingCr) ==> !atTrailingCr && line == text
    {
      line := text;
      if atTrailingCr && universal && |line| > 0 {
        PassOver(line, source.Left());
        if line[0] == LF { line := line[1..]; }
        atTrailingCr := false;
      }
    }

    // What readline does with a line that holds a newline (lines 245-269)
    method CutLine(text: seq<byte>) returns (line: seq<byte>)
      requires Valid() && (LF in text || (universal && CR in text)) && (universal ==> !atTrailingCr)
      modifies this`rbuffer, this`atTrailingCr
      ensures Valid()
      ensures var rest := Rest(universal, false, text + source.Left());
        line == FirstLine(rest) && Rest(universal, atTrailingCr, Ahead()) == OtherLines(rest)
      ensures universal && EndsInCr(text) ==> atTrailingCr && rbuffer == []
    {
      var at := Find(text, LF);
      if universal {
        var rpos := Find(text, CR);
        if rpos >= 0 && (rpos < at || at < 0) { at := rpos; }
      }
      var xpos := at + 1;
      if text[at] == CR && xpos < |text| && text[xpos] == LF { xpos := xpos + 1; }
      rbuffer := text[xpos..];
      line := text[..at] + [LF];
      if |rbuffer| == 0 && text[at..xpos] == [CR] { atTrailingCr := true; }
      Cut(universal, text, source.Left(), at, xpos, atTrailingCr);
    }

    // ---------- writing ----------

    method WriteAll(start: seq<byte>)
      requires sink.Valid()
      modifies this`pos, this`realpos, sink
      ensures sink.Valid() && sink.written == old(sink.written) + start
      ensures pos == old(pos) + |start| && realpos == old(realpos) + |start|
    {
      var data := start;
      while |data| > 0
        invariant sink.Valid() && sink.written + data == old(sink.written) + start
        invariant pos + |data| == old(pos) + |start| && realpos + |data| == old(realpos) + |start|
        decreases |data|
      {
        ghost var was := sink.written;
        var count := sink.Write(data);
        assert was + data == was + data[..count] + data[count..];
        data := data[count..];
        pos := pos + count;
        realpos := realpos + count;
      }
      assert sink.written + [] == sink.written;
    }

    method Flush()
      requires source.Valid() && sink.Valid()
      modifies this`wbuffer, this`pos, this`realpos, sink
      ensures sink.Valid() && wbuffer == [] && sink.written == old(Accepted())
    {
      WriteAll(wbuffer);
      wbuffer := [];
    }

    // Everything written is either downstream or in the buffer, in order.
    method Write(data: seq<byte>) returns (r: Result<()>)
      requires Valid()
      modifies this`wbuffer, this`pos, this`realpos, sink
      ensures Valid()
      ensures r.IOError? <==> closed || !canWrite
      ensures Accepted() == old(Accepted()) + (if r.Done? then data else [])
      ensures r.Done? && lineBuffered && LF in data ==> wbuffer == data[FindLast(data, LF) + 1..]
      ensures r.Done? && lineBuffered && LF !in data ==> sink.written == old(sink.written)
    {
      if closed || !canWrite { assert Accepted() + [] == Accepted(); return IOError; }
      r := Done(());
      if !buffered {
        WriteAll(data);
        assert sink.written + [] == sink.written;
        assert old(sink.written) + [] == old(sink.written);
        return;
      }
      wbuffer := wbuffer + data;
      assert sink.written + wbuffer == old(Accepted()) + data;
      if lineBuffered {
        WriteLines(data, old(wbuffer));
        return;
      }
      if |wbuffer| >= bufsize { Flush(); assert sink.written + [] == sink.written; }
    }

    // Lines 345-352; was is the buffer before the new data.
    method WriteLines(data: seq<byte>, ghost was: seq<byte>)
      requires source.Valid() && sink.Valid() && lineBuffered
      requires wbuffer == was + data && LF !in was
      modifies this`wbuffer, this`pos, this`realpos, sink
      ensures sink.Valid() && Accepted() == old(Accepted()) && LF !in wbuffer
      ensures LF in data ==> wbuffer == data[FindLast(data, LF) + 1..]
      ensures LF !in data ==> sink.written == old(sink.written)
    {
      var last := FindLast(data, LF);
      if last >= 0 {
        var wbuf := wbuffer;
        var end := last + |wbuf| - |data| + 1;
        var head, tail := wbuf[..end], wbuf[end..];
        WholeLines(was, data, last, head, tail);
        Associates(sink.written, head, tail);
        WriteAll(head);
        wbuffer := tail;
      }
    }

    method Close()
      requires Valid()
      modifies this`wbuffer, this`closed, this`pos, this`realpos, sink
      ensures Valid() && closed && wbuffer == [] && sink.written == old(Accepted())
    {
      Flush();
      closed := true;
    }
  }

  // ---------- the lines of readline ----------

  // A trailing LF of the last piece is passed over, anything else is kept.
  lemma PassOver(line: seq<byte>, left: seq<byte>)
    requires line != []
    ensures Rest(true, true, line + left) == Rest(true, false, (if line[0] == LF then line[1..] else line) + left)
  {
    assert (line + left)[1..] == line[1..] + left;
  }

  lemma AtEnd(universal: bool, flag: bool, line: seq<byte>)
    requires LF !in line && (universal ==> CR !in line) && (universal && line != [] ==> !flag)
    ensures FirstLine(Rest(universal, flag, line + [])) == line && OtherLines(Rest(universal, flag, line + [])) == []
    ensures Rest(universal, flag, [] + []) == []
  {
    assert line + [] == line;
    LastLine(line);
    NormalizeNoCr(line);
  }

  lemma Cut(universal: bool, text: seq<byte>, left: seq<byte>, at: nat, xpos: nat, flag: bool)
    requires at < |text| && LF !in text[..at] && (universal ==> CR !in text[..at])
    requires text[at] == LF || (universal && text[at] == CR)
    requires xpos == if text[at] == CR && at + 1 < |text| && text[at + 1] == LF then at + 2 else at + 1
    requires universal ==> flag == (xpos == |text| && text[at..xpos] == [CR])
    ensures var rest := Rest(universal, false, text + left);
      FirstLine(rest) == text[..at] + [LF] && OtherLines(rest) == Rest(universal, flag, text[xpos..] + left)
  {
    var s := text + left;
    assert s[..at] == text[..at] && s[xpos..] == text[xpos..] + left;
    if universal {
      assert text[at..xpos] == [CR] <==> text[at] == CR && xpos == at + 1;
      UniversalLine(s, at, xpos, flag);
    } else {
      PlainLine(s, at);
    }
  }

  // All lines but the last stay below the hint.
  predicate NoneTooMany(lines: seq<seq<byte>>, hint: Option<int>) {
    hint.Some? && |lines| > 1 ==> |Concat(lines[..|lines| - 1])| < hint.value
  }

  lemma OneLineMore(lines: seq<seq<byte>>, line: seq<byte>, hint: Option<int>)
    requires hint.Some? && lines != [] ==> |Concat(lines)| < hint.value
    ensures NoneTooMany(lines + [line], hint) && |Concat(lines + [line])| == |Concat(lines)| + |line|
  {
    ConcatSnoc(lines, line);
    assert (lines + [line])[..|lines|] == lines;
  }

  // The lines joined are the stream.
  lemma {:induction false} LinesJoin(s: seq<byte>)
    ensures Concat(LinesOf(s)) == s
    decreases |s|
  {
    if s != [] {
      LinesJoin(OtherLines(s));
      ConcatCons(FirstLine(s), LinesOf(OtherLines(s)));
      Rejoin(s, |FirstLine(s)|);
    }
  }

  lemma ConcatCons(p: seq<byte>, pieces: seq<seq<byte>>)
    ensures Concat([p] + pieces) == p + Concat(pieces)
  {
    assert ([p] + pieces)[1..] == pieces;
  }

  lemma Rejoin(s: seq<byte>, k: nat)
    requires k <= |s|
    ensures s[..k] + s[k..] == s
  {
  }

  // Only the last line can lack its LF, and no line has another one.
  lemma {:induction false} LineEnds(s: seq<byte>, k: nat)
    requires k < |LinesOf(s)|
    ensures var line := LinesOf(s)[k];
      line != [] && LF !in line[..|line| - 1] && (k < |LinesOf(s)| - 1 ==> line[|line| - 1] == LF)
    decreases |s|
  {
    if k == 0 {
      OneLf(s);
      if OtherLines(s) != [] { EndsWithLf(s); }
    } else {
      LineEnds(OtherLines(s), k - 1);
    }
  }

  lemma {:induction false} OneLf(s: seq<byte>)
    requires s != []
    ensures var line := FirstLine(s); line != [] && LF !in line[..|line| - 1]
  {
    if s[0] != LF && |s| > 1 {
      OneLf(s[1..]);
      var line := FirstLine(s[1..]);
      assert FirstLine(s)[..|line|] == [s[0]] + line[..|line| - 1];
    }
  }

  lemma {:induction false} EndsWithLf(s: seq<byte>)
    requires OtherLines(s) != []
    ensures FirstLine(s) != [] && FirstLine(s)[|FirstLine(s)| - 1] == LF
  {
    if s[0] != LF {
      assert OtherLines(s) == OtherLines(s[1..]);
      EndsWithLf(s[1..]);
    }
  }

  // Nothing has been read of the pieces was, or the first of them.
  predicate InPiece(line: seq<byte>, pieces: seq<seq<byte>>, was: seq<seq<byte>>) {
    was != [] && if line == [] then pieces == was else line == was[0] && pieces == was[1..]
  }

  // The only newline is the CR at the end.
  predicate EndsInCr(text: seq<byte>) {
    text != [] && text[|text| - 1] == CR && LF !in text && CR !in text[..|text| - 1]
  }

  // A mark for a trailing CR makes a difference exactly before an LF.
  lemma MarkMattersIff(universal: bool, flag: bool, s: seq<byte>)
    ensures Rest(universal, flag, s) != Rest(universal, false, s) <==> universal && flag && s != [] && s[0] == LF
  {
    if s != [] && s[0] == LF {
      assert Normalize(s) == [LF] + Normalize(s[1..]);
      assert |Normalize(s)| == 1 + |Normalize(s[1..])|;
    }
  }

  // read leaves the mark of an earlier readline as it is, although the bytes it
  // returns come after that CR. The next readline delivers the first line of what
  // is left exactly if that does not start with LF; otherwise that LF is lost.
  method ReadThenReadLine(file: File, size: Option<int>) returns (bytes: seq<byte>, line: seq<byte>)
    requires file.Valid() && !file.closed && file.canRead
    modifies file`rbuffer, file`atTrailingCr, file`pos, file`realpos, file.source
    ensures file.Valid() && bytes <= old(file.Ahead())
    ensures size.Some? && size.value >= 0 ==>
      |bytes| == if size.value <= |old(file.Ahead())| then size.value else |old(file.Ahead())|
    ensures bytes != [] ==>
      var left := old(file.Ahead())[|bytes|..];
      var wanted, rest := Rest(file.universal, false, left), Rest(file.universal, file.atTrailingCr, file.Ahead());
      var lost := file.universal && old(file.atTrailingCr) && left != [] && left[0] == LF;
      && (line == FirstLine(wanted) && rest == OtherLines(wanted) <==> !lost)
      && (lost ==> wanted == [LF] + (line + rest))
  {
    hide FirstLine, Concat;
    ghost var before := file.Ahead();
    var r := file.Read(size);
    bytes := r.value;
    ghost var left, flag := file.Ahead(), file.atTrailingCr;
    assert before[..|bytes|] == bytes && before[|bytes|..] == left;
    MarkMattersIff(file.universal, flag, left);
    var l := file.ReadLine();
    line := l.value;
    Rejoin(Rest(file.universal, flag, left), |line|);
    Rejoin(Rest(file.universal, false, left), |FirstLine(Rest(file.universal, false, left))|);
  }

  lemma TwoPieces(a: seq<byte>, x: byte, p: seq<byte>, q: seq<byte>)
    requires LF !in a && CR !in a && x != LF && x != CR && p == a + [CR] && q == [x, LF]
    ensures EndsInCr(p) && Concat([p, q]) == p + q == a + [CR, x, LF] && Concat([p, q][1..]) == q
    ensures FirstLine(Normalize(p + q)) == a + [LF] && OtherLines(Normalize(p + q)) == q
    ensures Normalize(p + q) == a + [LF] + q
    ensures q[1..] == [LF] == Normalize([LF])
  {
    assert p[..|p| - 1] == a && [p, q][1..] == [q] && [q][1..] == [];
    assert q + [] == q && a + [CR, x, LF] == p + q;
    assert Concat([q]) == q + Concat([]) == q && Concat([p, q]) == p + Concat([q]);
    var t := [CR, x, LF];
    assert t[1..] == q && q[1..] == [LF] && [LF][1..] == [];
    assert Normalize([LF]) == [LF] + Normalize([]) == [LF];
    assert Normalize(q) == [x] + Normalize([LF]) == q;
    NewlineAt(a, t, q);
    NormalizeSkips(a, t);
    Associates(a, [LF], q);
  }

  // A piece ends in CR and the next one is x and LF: after a line and a single
  // byte the file seems to be at its end, though its last line has not been read.
  method MixedReadsLoseNewline(a: seq<byte>, x: byte) returns (first: seq<byte>, single: seq<byte>, last: seq<byte>)
    requires LF !in a && CR !in a && |a| < DEFAULT_BUFSIZE && x != LF && x != CR
    ensures first == a + [LF] && single == [x] && last == []
    ensures Normalize(a + [CR, x, LF]) == first + single + [LF]
  {
    hide Normalize, FirstLine, OtherLines, Concat;
    var p, q := a + [CR], [x, LF];
    TwoPieces(a, x, p, q);
    var source := new Source([p, q]);
    var sink := new Sink([]);
    var file := new File(source, sink, true, false, true, 0);
    assert p[|p| - 1] == CR && [] + source.Left() == p + q && source.pieces[0] == p;
    assert file.LineInPiece();
    var r := file.ReadLine();
    first := r.value;
    assert file.atTrailingCr && file.Ahead() == [] + q == q;
    single, last := ReadThenReadLine(file, Some(1));
  }

  lemma WholeLines(was: seq<byte>, data: seq<byte>, last: int, head: seq<byte>, tail: seq<byte>)
    requires last == FindLast(data, LF) >= 0
    requires head == (was + data)[..|was| + last + 1] && tail == (was + data)[|was| + last + 1..]
    ensures head + tail == was + data && tail == data[last + 1..] && LF !in tail
  {
  }
}
