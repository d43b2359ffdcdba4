// What ecdsa/der.py writes is the shortest string that its readers take for the
// number, and the only one of that length; and the bytes it writes for the numbers
// of test_pyecdsa.py.
module DerShortest {
  import opened Bytes
  import opened Der

  // ---------- lengths ----------

  lemma LengthShortest(t: seq<byte>, l: nat)
    requires ReadLength(t) == Ok((l, |t|))
    ensures LengthFits(l) && EncodeLength(l).Ok?
    ensures |EncodeLength(l).value| <= |t|
    ensures |EncodeLength(l).value| == |t| ==> EncodeLength(l).value == t
  {
    if t[0] >= 0x80 {
      LongLengthShortest(t[0] - 0x80, t[1..], l) by { assert t[1..1 + (t[0] - 0x80)] == t[1..]; }
      assert t == [t[0]] + t[1..];
    } else {
      assert t == [t[0]];
    }
  }

  lemma LongLengthShortest(k: nat, s: seq<byte>, l: nat)
    requires k == |s| <= 127 && s != [] && FromBytes(s) == l
    ensures LengthFits(l) && EncodeLength(l).Ok?
    ensures |EncodeLength(l).value| <= 1 + k
    ensures |EncodeLength(l).value| == 1 + k ==> EncodeLength(l).value == [0x80 + k] + s
  {
    hide Digits, FromBytes, ToBytes;
    PaddedDigits(s);
    DigitsSize(l);
    if l != 0 { Padding(s, Digits(l)); }
  }

  lemma DigitsSize(l: nat)
    ensures |ToBytes(l)| >= 1 && (l != 0 ==> ToBytes(l) == Digits(l))
  {
  }

  // ---------- integers ----------

  // The content of an integer: bytes that do not look negative.
  lemma ContentShortest(c: seq<byte>, r: nat)
    requires c != [] && c[0] < 0x80 && FromBytes(c) == r
    ensures |Content(r)| <= |c|
    ensures |Content(r)| == |c| ==> Content(r) == c
  {
    hide Digits, FromBytes;
    PaddedDigits(c);
    DigitsSize(r);
    if r != 0 {
      DigitsLead(r);
      Padding(c, Digits(r));
    } else {
      if |c| == 1 { OneByte(c); }
    }
  }

  lemma Padding(c: seq<byte>, d: seq<byte>)
    requires |d| <= |c| && c == seq(|c| - |d|, i => 0) + d
    ensures |c| == |d| ==> c == d
    ensures |c| == |d| + 1 ==> c == [0] + d
  {
  }

  // So what encode_integer writes, where it is read back, is the shortest.
  lemma IntegerShortest(t: seq<byte>, r: nat)
    requires RemoveInteger(t) == Ok((r, []))
    ensures EncodeInteger(r).Ok? && |Content(r)| <= 127 ==> |EncodeInteger(r).value| <= |t|
  {
    var (length, llen) := ReadLength(t[1..]).value;
    var n := Slice(t, 1 + llen, 1 + llen + length);
    assert |n| + 1 + llen <= |t|;
    ContentShortest(n, r);
  }

  // Content that looks negative is refused, and so is a tag other than 2.
  lemma IntegerRefused(c: seq<byte>, rest: seq<byte>)
    requires 1 <= |c| < 128 && c[0] >= 0x80
    ensures RemoveInteger([2, |c|] + c + rest) == Err(AssertionError)
  {
    assert [2] + [|c|] == [2, |c|];
    BodyOf(2, [|c|], c, rest);
  }

  // ---------- numbers in base 128 ----------

  // The value of digits with their top bits set.
  function Value128(s: seq<byte>): nat {
    if s == [] then 0 else 128 * Value128(s[..|s| - 1]) + s[|s| - 1] % 128
  }

  predicate AllTop(s: seq<byte>) {
    forall i | 0 <= i < |s| :: s[i] >= 0x80
  }

  lemma {:induction false} ReadsToEnd(s: seq<byte>, i: nat, n: nat)
    requires i <= |s| && AllTop(s[..i]) && ReadDigits(s, i, Value128(s[..i])) == Ok((n, |s|))
    ensures s != [] && AllTop(s[..|s| - 1]) && s[|s| - 1] < 0x80 && n == 128 * Value128(s[..|s| - 1]) + s[|s| - 1]
    decreases |s| - i
  {
    if s[i] >= 0x80 {
      assert s[..i + 1][..i] == s[..i] && s[..i + 1] == s[..i] + [s[i]];
      assert Value128(s[..i + 1]) == 128 * Value128(s[..i]) + s[i] % 128;
      ReadsToEnd(s, i + 1, n);
    } else {
      assert i + 1 == |s|;
    }
  }

  lemma {:induction false} LeadingShortest(s: seq<byte>)
    requires AllTop(s)
    ensures Shorter(Leading(Value128(s)), s)
  {
    hide Leading, Value128, Shorter;
    if s == [] {
      NothingLeads();
    } else {
      var t, last := s[..|s| - 1], s[|s| - 1];
      LeadingShortest(t);
      Value128Step(s);
      LeadingStep(Value128(t), last);
      assert s == t + [last];
      ShorterSnoc(Leading(Value128(t)), t, last);
    }
  }

  predicate Shorter(d: seq<byte>, s: seq<byte>) {
    |d| <= |s| && (|d| == |s| ==> d == s)
  }

  lemma ShorterSnoc(d: seq<byte>, s: seq<byte>, last: byte)
    requires Shorter(d, s)
    ensures Shorter(d + [last], s + [last]) && Shorter([], s + [last])
  {
  }

  lemma Value128Step(s: seq<byte>)
    requires s != []
    ensures Value128(s) == 128 * Value128(s[..|s| - 1]) + s[|s| - 1] % 128
  {
  }

  lemma NoValue()
    ensures Value128([]) == 0
  {
  }

  lemma NothingLeads()
    ensures Shorter(Leading(Value128([])), [])
  {
  }

  lemma LeadingStep(v: nat, d: byte)
    requires d >= 0x80
    ensures var n := 128 * v + d % 128; Leading(n) == (if n == 0 then [] else Leading(v) + [d])
  {
    var n := 128 * v + d % 128;
    assert n / 128 == v && n % 128 == d - 128;
  }

  lemma NumberShortest(t: seq<byte>, n: nat)
    requires ReadDigits(t, 0, 0) == Ok((n, |t|))
    ensures |Base128(n)| <= |t|
    ensures |Base128(n)| == |t| ==> Base128(n) == t
  {
    hide Leading, ReadDigits, Value128;
    assert t[..0] == [];
    NoValue();
    ReadsToEnd(t, 0, n);
    var s, last := t[..|t| - 1], t[|t| - 1];
    LeadingShortest(s);
    assert n / 128 == Value128(s) && n % 128 == last;
    assert t == s + [last];
  }

  // ---------- what the readers refuse ----------

  // Each reader insists on its tag.
  lemma TagsRequired(s: seq<byte>, tag: byte)
    ensures RemoveTagged(tag, s).Ok? ==> s != [] && s[0] == tag
    ensures RemoveInteger(s).Ok? ==> s != [] && s[0] == 2
    ensures RemoveObject(s).Ok? ==> s != [] && s[0] == 6
    ensures RemoveConstructed(s).Ok? ==> s != [] && 0xa0 <= s[0] < 0xc0
    ensures SigDecodeDer(s).Ok? ==> s != [] && s[0] == 0x30
  {
    hide Body, Numbers, RemoveTagged;
    TagRequired(s, tag);
    TagRequired(s, 2);
    TagRequired(s, 6);
    TagRequired(s, 0x30);
  }

  lemma TagRequired(s: seq<byte>, tag: byte)
    ensures RemoveTagged(tag, s).Ok? ==> s != [] && s[0] == tag
  {
  }

  // A length that is cut short, or whose bytes are not counted.
  lemma LengthRefused(k: nat, s: seq<byte>)
    requires k < 128 && (k == 0 || |s| < k)
    ensures ReadLength([0x80 + k] + s) == Err(if k == 0 then ValueError else UnexpectedDER)
  {
  }

  // Bytes after the two numbers, inside the sequence.
  lemma JunkInsideRefused(r: nat, s: nat, junk: seq<byte>)
    requires |Content(r)| <= 127 && |Content(s)| <= 127 && junk != []
    requires EncodeInteger(r).Ok? && EncodeInteger(s).Ok?
    requires LengthFits(TotalLength([EncodeInteger(r).value, EncodeInteger(s).value, junk]))
    ensures var e := EncodeSequence([EncodeInteger(r).value, EncodeInteger(s).value, junk]);
      e.Ok? && SigDecodeDer(e.value) == Err(UnexpectedDER)
  {
    hide EncodeInteger, RemoveInteger, RemoveTagged, EncodeSequence, LengthFits;
    var a, b := EncodeInteger(r).value, EncodeInteger(s).value;
    SequenceRoundTrip([a, b, junk], []);
    var e := EncodeSequence([a, b, junk]).value;
    assert e + [] == e;
    ConcatThree(a, b, junk);
    ShortIntegerRoundTrip(r, b + junk);
    ShortIntegerRoundTrip(s, junk);
  }

  lemma ConcatThree(a: seq<byte>, b: seq<byte>, c: seq<byte>)
    ensures Concat([a, b, c]) == a + (b + c)
  {
    assert [a, b, c][1..] == [b, c] && [b, c][1..] == [c] && [c][1..] == [];
    assert Concat([c]) == c + Concat([]) == c;
    assert Concat([b, c]) == b + Concat([c]);
  }

  // A signature string of the wrong length.
  lemma WrongLengthRefused(sig: seq<byte>, order: nat)
    ensures SigDecodeString(sig, order).Ok? <==> |sig| == 2 * |ToBytes(order)|
    ensures SigDecodeString(sig, order).Err? ==> SigDecodeString(sig, order).error == AssertionError
  {
  }

  // ---------- the numbers of the program's own tests ----------

  lemma OneDigit(x: nat, b: byte)
    requires x == b != 0
    ensures Digits(x) == [b] && ToBytes(x) == [b]
  {
    assert x / 256 == 0 && x % 256 == b;
    assert Digits(x / 256) == [];
  }

  lemma TwoDigits(x: nat, a: byte, b: byte)
    requires x == 256 * a + b && a != 0
    ensures Digits(x) == [a, b] && ToBytes(x) == [a, b]
  {
    OneDigit(x / 256, a);
    assert x / 256 == a && x % 256 == b;
  }

  lemma LengthOfOne(l: nat, b: byte)
    requires l == b
    ensures EncodeLength(l) == Ok(if b < 0x80 then [b] else [0x81, b])
  {
    if b >= 0x80 {
      OneDigit(l, b);
      assert [0x81] + [b] == [0x81, b];
    }
  }

  lemma LengthOfTwo(l: nat, a: byte, b: byte)
    requires l == 256 * a + b && a != 0
    ensures EncodeLength(l) == Ok([0x82, a, b])
  {
    TwoDigits(l, a, b);
    assert [0x82] + [a, b] == [0x82, a, b];
  }

  lemma TestLengths()
    ensures EncodeLength(0) == Ok([0]) && EncodeLength(127) == Ok([0x7f]) && EncodeLength(128) == Ok([0x81, 0x80])
    ensures EncodeLength(255) == Ok([0x81, 0xff]) && EncodeLength(256) == Ok([0x82, 1, 0])
    ensures EncodeLength(3 * 256 + 7) == Ok([0x82, 3, 7]) && EncodeLength(155) == Ok([0x81, 0x9b])
  {
    hide EncodeLength;
    LengthOfOne(0, 0);
    LengthOfOne(127, 127);
    LengthOfOne(128, 128);
    LengthOfOne(255, 255);
    LengthOfTwo(256, 1, 0);
    LengthOfTwo(3 * 256 + 7, 3, 7);
    LengthOfOne(155, 155);
  }

  lemma IntegerOfOne(r: nat, b: byte)
    requires r == b
    ensures EncodeInteger(r) == Ok(if b < 0x80 then [2, 1, b] else [2, 2, 0, b])
  {
    if b != 0 { OneDigit(r, b); }
    assert [2, 1] + [b] == [2, 1, b] && [2, 2] + ([0] + [b]) == [2, 2, 0, b];
  }

  lemma IntegerOfTwo(r: nat, a: byte, b: byte)
    requires r == 256 * a + b && 0 < a < 0x80
    ensures EncodeInteger(r) == Ok([2, 2, a, b])
  {
    TwoDigits(r, a, b);
    assert [2, 2] + [a, b] == [2, 2, a, b];
  }

  lemma TestIntegers()
    ensures EncodeInteger(0) == Ok([2, 1, 0]) && EncodeInteger(1) == Ok([2, 1, 1]) && EncodeInteger(127) == Ok([2, 1, 0x7f])
    ensures EncodeInteger(128) == Ok([2, 2, 0, 0x80]) && EncodeInteger(256) == Ok([2, 2, 1, 0])
  {
    hide EncodeInteger;
    IntegerOfOne(0, 0);
    IntegerOfOne(1, 1);
    IntegerOfOne(127, 127);
    IntegerOfOne(128, 128);
    IntegerOfTwo(256, 1, 0);
  }

  lemma TestNumbers()
    ensures Base128(0) == [0] && Base128(127) == [0x7f] && Base128(128) == [0x81, 0] && Base128(3 * 128 + 7) == [0x83, 7]
  {
    hide Base128;
    OneGroup(0);
    OneGroup(127);
    TwoGroups(128, 1, 0);
    TwoGroups(3 * 128 + 7, 3, 7);
  }

  // encode_sequence("ABC", "DEF"), and encode_constructed of six bytes.
  lemma TestSequence(a: seq<byte>, b: seq<byte>)
    requires a == [0x41, 0x42, 0x43] && b == [0x44, 0x45, 0x46]
    ensures EncodeSequence([a, b]) == Ok([0x30, 6] + a + b)
    ensures EncodeConstructed(0, a + b) == Ok([0xa0, 6] + (a + b))
  {
    hide EncodeLength;
    TwoOfThree(a, b);
    LengthOfOne(6, 6);
    assert [0xa0] + [6] == [0xa0, 6];
  }

  // encode_oid(1, 2, 840, 10045, 2, 1)
  lemma TestOid(pieces: seq<nat>)
    requires pieces == [840, 10045, 2, 1]
    ensures EncodeOid(1, 2, pieces).Ok? && EncodeOid(1, 2, pieces).value == [6, 7, 0x2a, 0x86, 0x48, 0xce, 0x3d, 2, 1]
  {
    hide EncodeLength, Arcs;
    ArcsOf(pieces);
    LengthOfOne(7, 7);
    var arcs: seq<byte> := [0x86, 0x48, 0xce, 0x3d, 2, 1];
    assert |[0x2a] + arcs| == 7;
    assert [6] + [7] + ([0x2a] + arcs) == [6, 7, 0x2a, 0x86, 0x48, 0xce, 0x3d, 2, 1];
  }

  lemma ArcsOf(p: seq<nat>)
    requires p == [840, 10045, 2, 1]
    ensures Arcs(p) == [0x86, 0x48, 0xce, 0x3d, 2, 1]
  {
    hide Arcs, Base128;
    TwoGroups(840, 6, 72);
    TwoGroups(10045, 78, 61);
    OneGroup(2);
    OneGroup(1);
    ArcsCons(p, 840, [10045, 2, 1], [0x86, 0x48]);
    ArcsCons([10045, 2, 1], 10045, [2, 1], [0xce, 0x3d]);
    ArcsCons([2, 1], 2, [1], [2]);
    ArcsCons([1], 1, [], [1]);
    NoArcs();
  }

  lemma NoArcs()
    ensures Arcs([]) == []
  {
  }

  lemma ArcsCons(p: seq<nat>, n: nat, rest: seq<nat>, group: seq<byte>)
    requires p == [n] + rest && Base128(n) == group
    ensures Arcs(p) == group + Arcs(rest)
  {
    assert p[1..] == rest;
  }

  lemma OneGroup(n: nat)
    requires n < 128
    ensures Base128(n) == [n as byte]
  {
    assert Leading(0) == [];
  }

  lemma TwoGroups(n: nat, a: nat, b: nat)
    requires n == 128 * a + b && 0 < a < 128 && b < 128
    ensures Base128(n) == [(a + 128) as byte, b as byte]
  {
    assert Leading(a) == Leading(a / 128) + [a % 128 + 128] && Leading(a / 128) == [];
  }

  // The first number of a signature is r, the second s.
  lemma TestSignature(r: nat, s: nat, order: nat)
    requires r == 1 && s == 2 && order == 7
    ensures SigEncodeDer(r, s).Ok? && SigEncodeDer(r, s).value == [0x30, 6, 2, 1, 1, 2, 1, 2]
    ensures SigEncodeString(r, s, order).Ok? && SigEncodeString(r, s, order).value == [1, 2]
  {
    hide EncodeInteger, EncodeSequence, NumberToString;
    IntegerOfOne(r, 1);
    IntegerOfOne(s, 2);
    var a: seq<byte>, b: seq<byte> := [2, 1, 1], [2, 1, 2];
    TwoOfThree(a, b);
    assert SigEncodeDer(r, s) == EncodeSequence([a, b]);
    assert [0x30, 6] + a + b == [0x30, 6, 2, 1, 1, 2, 1, 2];
    NumberOfOne(r, order, 1);
    NumberOfOne(s, order, 2);
    var x: seq<byte>, y: seq<byte> := [1], [2];
    assert x + y == [1, 2];
    assert SigEncodeString(r, s, order) == Ok(x + y);
  }

  lemma NumberOfOne(num: nat, order: nat, b: byte)
    requires num == b != 0 && order == 7
    ensures NumberToString(num, order) == Ok([b])
  {
    OneDigit(num, b);
    OneDigit(order, 7);
    assert NumberToString(num, order).value == [b];
  }

  lemma TwoOfThree(a: seq<byte>, b: seq<byte>)
    requires |a| == 3 && |b| == 3
    ensures EncodeSequence([a, b]) == Ok([0x30, 6] + a + b)
  {
    LengthOfOne(6, 6);
    assert [a, b][1..] == [b] && [b][1..] == [];
    assert TotalLength([b]) == 3 + TotalLength([]) && Concat([b]) == b + Concat([]);
    assert TotalLength([a, b]) == 6 && Concat([a, b]) == a + b;
    assert [0x30] + [6] + (a + b) == [0x30, 6] + a + b;
  }
}
