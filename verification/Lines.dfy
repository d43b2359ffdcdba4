// Lines of a byte stream, and universal newlines, as a reader of
// paramiko/file.py sees them.
module Lines {
  import opened Bytes

  const LF: byte := 10
  const CR: byte := 13

  // CR, CR LF and LF all become LF.
  function Normalize(s: seq<byte>): seq<byte> {
    if s == [] then []
    else if s[0] != CR then [s[0]] + Normalize(s[1..])
    else if |s| > 1 && s[1] == LF then [LF] + Normalize(s[2..])
    else [LF] + Normalize(s[1..])
  }

  // Up to and including the first LF, or all of it.
  function FirstLine(s: seq<byte>): (line: seq<byte>)
    ensures |line| <= |s| && line == s[..|line|]
  {
    if s == [] then [] else if s[0] == LF then [LF] else [s[0]] + FirstLine(s[1..])
  }

  function OtherLines(s: seq<byte>): seq<byte> {
    s[|FirstLine(s)|..]
  }

  function LinesOf(s: seq<byte>): seq<seq<byte>>
    decreases |s|
  {
    if s == [] then [] else [FirstLine(s)] + LinesOf(OtherLines(s))
  }

  // bytes.find for one byte
  function Find(s: seq<byte>, b: byte): (pos: int)
    ensures -1 <= pos < |s|
    ensures pos == -1 <==> b !in s
    ensures pos >= 0 ==> s[pos] == b && b !in s[..pos]
  {
    if s == [] then -1
    else if s[0] == b then 0
    else
      var p := Find(s[1..], b);
      assert s == [s[0]] + s[1..];
      if p < 0 then -1 else assert s[..p + 1] == [s[0]] + s[1..][..p]; p + 1
  }

  // bytes.rfind
  function FindLast(s: seq<byte>, b: byte): (pos: int)
    ensures -1 <= pos < |s|
    ensures pos == -1 <==> b !in s
    ensures pos >= 0 ==> s[pos] == b && b !in s[pos + 1..]
  {
    if s == [] then -1
    else
      var n := |s| - 1;
      assert s == s[..n] + [s[n]];
      if s[n] == b then n
      else
        var p := FindLast(s[..n], b);
        if p >= 0 then assert s[p + 1..] == s[..n][p + 1..] + [s[n]]; p else -1
  }

  // What readline has still to deliver of the bytes s: with universal newlines
  // the LF that belongs to a CR already delivered is passed over.
  function Rest(universal: bool, atTrailingCr: bool, s: seq<byte>): seq<byte> {
    if !universal then s
    else if atTrailingCr && s != [] && s[0] == LF then Normalize(s[1..])
    else Normalize(s)
  }

  lemma {:induction false} FirstLineAt(a: seq<byte>, b: seq<byte>)
    requires LF !in a
    ensures FirstLine(a + [LF] + b) == a + [LF] && OtherLines(a + [LF] + b) == b
  {
    var s := a + [LF] + b;
    if a == [] {
      assert s == [LF] + b;
    } else {
      assert a[0] in a;
      assert s[1..] == a[1..] + [LF] + b;
      FirstLineAt(a[1..], b);
      assert [a[0]] + (a[1..] + [LF]) == a + [LF];
      assert s[|a| + 1..] == b;
    }
  }

  lemma {:induction false} LastLine(a: seq<byte>)
    requires LF !in a
    ensures FirstLine(a) == a && OtherLines(a) == []
  {
    if a != [] {
      assert a[0] in a;
      LastLine(a[1..]);
    }
  }

  lemma {:induction false} NormalizeSkips(a: seq<byte>, b: seq<byte>)
    requires CR !in a && LF !in a
    ensures Normalize(a + b) == a + Normalize(b)
  {
    if a == [] {
      assert a + b == b;
    } else {
      assert a[0] in a;
      assert (a + b)[1..] == a[1..] + b;
      NormalizeSkips(a[1..], b);
      assert [a[0]] + (a[1..] + Normalize(b)) == a + Normalize(b);
    }
  }

  // The line that ends with the newline at pos, and what comes after it; next is
  // where the scan goes on.
  lemma UniversalLine(s: seq<byte>, pos: nat, next: nat, flag: bool)
    requires pos < |s| && CR !in s[..pos] && LF !in s[..pos] && (s[pos] == CR || s[pos] == LF)
    requires pos < next <= |s|
    requires next == pos + 1 || (next == pos + 2 && s[pos] == CR && s[pos + 1] == LF)
    requires flag ==> next == pos + 1 && s[pos] == CR
    requires !flag && next == pos + 1 && s[pos] == CR ==> pos + 1 == |s| || s[pos + 1] != LF
    ensures FirstLine(Normalize(s)) == s[..pos] + [LF]
    ensures OtherLines(Normalize(s)) == Rest(true, flag, s[next..])
  {
    var a, t := s[..pos], s[pos..];
    assert s == a + t;
    AfterNewline(t, next - pos, flag);
    assert t[next - pos..] == s[next..];
    NewlineAt(a, t, Rest(true, flag, s[next..]));
  }

  // t starts with a newline of k bytes, unless the rest of it is still to come.
  lemma AfterNewline(t: seq<byte>, k: nat, flag: bool)
    requires t != [] && (t[0] == CR || t[0] == LF) && 1 <= k <= |t|
    requires k == 1 || (k == 2 && t[0] == CR && t[1] == LF)
    requires flag ==> k == 1 && t[0] == CR
    requires !flag && k == 1 && t[0] == CR ==> |t| == 1 || t[1] != LF
    ensures Normalize(t) == [LF] + Rest(true, flag, t[k..])
  {
    if flag && |t| > 1 && t[1] == LF { assert t[1..][1..] == t[2..]; }
  }

  lemma NewlineAt(a: seq<byte>, t: seq<byte>, n: seq<byte>)
    requires CR !in a && LF !in a && Normalize(t) == [LF] + n
    ensures FirstLine(Normalize(a + t)) == a + [LF] && OtherLines(Normalize(a + t)) == n
  {
    NormalizeSkips(a, t);
    Associates(a, [LF], n);
    FirstLineAt(a, n);
  }

  lemma Associates<T>(a: seq<T>, b: seq<T>, c: seq<T>)
    ensures a + (b + c) == a + b + c
  {
  }

  lemma PlainLine(s: seq<byte>, pos: nat)
    requires pos < |s| && s[pos] == LF && LF !in s[..pos]
    ensures FirstLine(s) == s[..pos] + [LF] && OtherLines(s) == s[pos + 1..]
  {
    assert s == s[..pos] + [LF] + s[pos + 1..];
    FirstLineAt(s[..pos], s[pos + 1..]);
  }

  // No CR is left, and a stream without CR is left alone.
  lemma {:induction false} NormalizeNoCr(s: seq<byte>)
    ensures CR !in Normalize(s)
    ensures CR !in s ==> Normalize(s) == s
    decreases |s|
  {
    if s != [] {
      assert s[0] in s;
      NormalizeNoCr(s[1..]);
      if |s| > 1 { NormalizeNoCr(s[2..]); }
    }
  }
}
