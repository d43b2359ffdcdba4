// The encode_/remove_ pairs of ecdsa/der.py and the signature encodings of
// ecdsa/util.py:161-246.
module Der {
  import opened Bytes
  import opened Modular

  // UnexpectedDER, and the exceptions Python raises itself.
  datatype Error = UnexpectedDER | IndexError | ValueError | AssertionError

  datatype Result<+T> = Ok(value: T) | Err(error: Error)

  // s[i:j] and s[i:], which never fail.
  function Slice(s: seq<byte>, i: nat, j: nat): seq<byte> {
    if i >= j || i >= |s| then [] else s[i..if j <= |s| then j else |s|]
  }

  function From(s: seq<byte>, i: nat): seq<byte> {
    if i >= |s| then [] else s[i..]
  }

  // int2byte
  function Int2Byte(x: int): Result<byte> {
    if 0 <= x < 256 then Ok(x) else Err(ValueError)
  }

  // ---------- lengths ----------

  function EncodeLength(l: nat): Result<seq<byte>> {
    if l < 0x80 then Ok([l]) else
    var s := ToBytes(l);
    // 0x80 | len(s)
    match Int2Byte(if |s| % 256 < 0x80 then 0x80 + |s| else |s|)
    case Ok(b) => Ok([b] + s)
    case Err(e) => Err(e)
  }

  // The length, and how many bytes it took.
  function ReadLength(s: seq<byte>): Result<(nat, nat)> {
    if s == [] then Err(IndexError)
    else if s[0] < 0x80 then Ok((s[0], 1))
    else
      var llen := s[0] - 0x80;
      if llen > |s| - 1 then Err(UnexpectedDER)
      else if llen == 0 then Err(ValueError)
      else Ok((FromBytes(s[1..1 + llen]), 1 + llen))
  }

  // A length is read back exactly when its bytes can be counted in seven bits.
  lemma LengthRoundTrip(l: nat, rest: seq<byte>)
    requires EncodeLength(l).Ok?
    ensures var e := EncodeLength(l).value;
      ReadLength(e + rest) == Ok((l, |e|)) <==> l < 0x80 || |ToBytes(l)| <= 127
  {
    var e := EncodeLength(l).value;
    if l >= 0x80 {
      var s := ToBytes(l);
      FromToBytes(l);
      assert (e + rest)[1..1 + |s|] == s;
    }
  }

  // What the seven bits can count.
  predicate LengthFits(l: nat) {
    l < 0x80 || |ToBytes(l)| <= 127
  }

  lemma LengthEncodes(l: nat)
    requires LengthFits(l)
    ensures EncodeLength(l).Ok?
  {
  }

  // ---------- tagged values ----------

  // encode_sequence, encode_octet_string, encode_bitstring and the outside of
  // encode_oid: a tag, the length, the content.
  function EncodeTagged(tag: byte, body: seq<byte>): Result<seq<byte>> {
    match EncodeLength(|body|)
    case Ok(l) => Ok([tag] + l + body)
    case Err(e) => Err(e)
  }

  // Their remove_ counterparts: the content and what follows it. Content that is
  // cut short is returned as it is.
  function RemoveTagged(tag: byte, s: seq<byte>): Result<(seq<byte>, seq<byte>)> {
    if s == [] then Err(IndexError)
    else if s[0] != tag then Err(UnexpectedDER)
    else Body(s)
  }

  function Body(s: seq<byte>): Result<(seq<byte>, seq<byte>)>
    requires s != []
  {
    match ReadLength(s[1..])
    case Err(e) => Err(e)
    case Ok((length, llen)) => Ok((Slice(s, 1 + llen, 1 + llen + length), From(s, 1 + llen + length)))
  }

  lemma BodyOf(tag: byte, l: seq<byte>, body: seq<byte>, rest: seq<byte>)
    requires ReadLength(l + (body + rest)) == Ok((|body|, |l|))
    ensures Body([tag] + l + body + rest) == Ok((body, rest))
  {
    var s := [tag] + l + body + rest;
    assert s[1..] == l + (body + rest);
    assert s[1 + |l|..1 + |l| + |body|] == body;
    assert s[1 + |l| + |body|..] == rest;
  }

  lemma TaggedRoundTrip(tag: byte, body: seq<byte>, rest: seq<byte>)
    requires LengthFits(|body|)
    ensures EncodeTagged(tag, body).Ok?
    ensures RemoveTagged(tag, EncodeTagged(tag, body).value + rest) == Ok((body, rest))
  {
    LengthEncodes(|body|);
    LengthRoundTrip(|body|, body + rest);
    BodyOf(tag, EncodeLength(|body|).value, body, rest);
  }

  function Concat(pieces: seq<seq<byte>>): seq<byte> {
    if pieces == [] then [] else pieces[0] + Concat(pieces[1..])
  }

  function TotalLength(pieces: seq<seq<byte>>): nat {
    if pieces == [] then 0 else |pieces[0]| + TotalLength(pieces[1..])
  }

  // encode_sequence adds up the lengths of the pieces.
  function EncodeSequence(pieces: seq<seq<byte>>): Result<seq<byte>> {
    match EncodeLength(TotalLength(pieces))
    case Ok(l) => Ok([0x30] + l + Concat(pieces))
    case Err(e) => Err(e)
  }

  lemma {:induction false} TotalIsLength(pieces: seq<seq<byte>>)
    ensures |Concat(pieces)| == TotalLength(pieces)
  {
    if pieces != [] { TotalIsLength(pieces[1..]); }
  }

  lemma SequenceRoundTrip(pieces: seq<seq<byte>>, rest: seq<byte>)
    requires LengthFits(TotalLength(pieces))
    ensures EncodeSequence(pieces).Ok?
    ensures RemoveTagged(0x30, EncodeSequence(pieces).value + rest) == Ok((Concat(pieces), rest))
  {
    TotalIsLength(pieces);
    TaggedRoundTrip(0x30, Concat(pieces), rest);
  }

  function EncodeConstructed(tag: int, value: seq<byte>): Result<seq<byte>> {
    match Int2Byte(0xa0 + tag)
    case Err(e) => Err(e)
    case Ok(b) => EncodeTagged(b, value)
  }

  function RemoveConstructed(s: seq<byte>): Result<(int, seq<byte>, seq<byte>)> {
    if s == [] then Err(IndexError)
    // s0 & 0xe0
    else if s[0] / 32 * 32 != 0xa0 then Err(UnexpectedDER)
    else match Body(s)
      case Err(e) => Err(e)
      case Ok((body, rest)) => Ok((s[0] % 32, body, rest))
  }

  // Of the tags that can be encoded, those of five bits are read back.
  lemma ConstructedRoundTrip(tag: int, value: seq<byte>, rest: seq<byte>)
    requires LengthFits(|value|) && EncodeConstructed(tag, value).Ok?
    ensures RemoveConstructed(EncodeConstructed(tag, value).value + rest) == Ok((tag, value, rest)) <==> 0 <= tag < 32
  {
    var b: byte := 0xa0 + tag;
    LengthEncodes(|value|);
    LengthRoundTrip(|value|, value + rest);
    BodyOf(b, EncodeLength(|value|).value, value, rest);
    assert EncodeConstructed(tag, value) == EncodeTagged(b, value);
    assert (EncodeTagged(b, value).value + rest)[0] == b;
  }

  // ---------- integers ----------

  // With a zero byte in front if it would look negative.
  function Content(r: nat): seq<byte> {
    var s := ToBytes(r);
    if s[0] <= 0x7f then s else [0] + s
  }

  // One byte is written for the length, whatever the length is.
  function EncodeInteger(r: int): Result<seq<byte>> {
    if r < 0 then Err(AssertionError) else
    match Int2Byte(|Content(r)|)
    case Ok(b) => Ok([2, b] + Content(r))
    case Err(e) => Err(e)
  }

  function RemoveInteger(s: seq<byte>): Result<(nat, seq<byte>)> {
    match RemoveTagged(2, s)
    case Err(e) => Err(e)
    case Ok((numberbytes, rest)) =>
      if numberbytes == [] then Err(IndexError)
      else if numberbytes[0] >= 0x80 then Err(AssertionError)
      else Ok((FromBytes(numberbytes), rest))
  }

  lemma ContentValue(r: nat)
    ensures Content(r) != [] && Content(r)[0] < 0x80 && FromBytes(Content(r)) == r
  {
    FromToBytes(r);
    var s := ToBytes(r);
    if s[0] > 0x7f {
      FromBytesAppend([0], s);
      assert FromBytes([0]) == 256 * FromBytes([0][..0]) + 0;
      assert 0 * Power256(|s|) == 0;
    }
  }

  lemma ShortIntegerRoundTrip(r: nat, rest: seq<byte>)
    requires |Content(r)| <= 127
    ensures EncodeInteger(r).Ok?
    ensures RemoveInteger(EncodeInteger(r).value + rest) == Ok((r, rest))
  {
    var c := Content(r);
    ContentValue(r);
    var l: seq<byte> := [|c|];
    assert ReadLength(l + (c + rest)) == Ok((|c|, 1));
    BodyOf(2, l, c, rest);
    assert [2] + l == [2, |c|];
    var s := [2, |c|] + c + rest;
    assert RemoveTagged(2, s) == Ok((c, rest));
  }

  // Longer content: the length byte is taken for the count of length bytes, and
  // what is then read as the number is too small.
  lemma LongIntegerMisread(r: nat, rest: seq<byte>)
    requires 128 <= |Content(r)| <= 255
    ensures EncodeInteger(r).Ok?
    ensures RemoveInteger(EncodeInteger(r).value + rest) != Ok((r, rest))
  {
    var c := Content(r);
    var s := [2, |c|] + c + rest;
    LengthByteOfLong(c, rest, s);
    var llen := |c| - 0x80;
    if llen > 0 {
      var length := FromBytes(c[..llen]);
      LongBody(s, llen, length);
      var numberbytes := Slice(s, 2 + llen, 2 + llen + length);
      if From(s, 2 + llen + length) == rest && c[llen] < 0x80 {
        WholeTail(c, rest, s, llen, length);
        TailIsSmaller(r, llen);
      }
    }
  }

  lemma LongBody(s: seq<byte>, llen: nat, length: nat)
    requires s != [] && s[0] == 2 && ReadLength(s[1..]) == Ok((length, 1 + llen))
    ensures var n, rest := Slice(s, 2 + llen, 2 + llen + length), From(s, 2 + llen + length);
      RemoveInteger(s) ==
        if n == [] then Err(IndexError) else if n[0] >= 0x80 then Err(AssertionError) else Ok((FromBytes(n), rest))
  {
    hide ReadLength, FromBytes;
  }

  // If rest is left, what is read is the tail of the content.
  lemma WholeTail(c: seq<byte>, rest: seq<byte>, s: seq<byte>, k: nat, length: nat)
    requires |c| < 256 && s == [2, |c|] + c + rest && k < |c| && From(s, 2 + k + length) == rest
    ensures Slice(s, 2 + k, 2 + k + length) == c[k..]
  {
    assert k + length == |c| || (rest == [] && k + length >= |c|);
  }

  lemma TailIsSmaller(r: nat, k: nat)
    requires 1 <= k < |Content(r)| && Content(r)[k] < 0x80 && |Content(r)| - k == 128
    ensures FromBytes(Content(r)[k..]) != r
  {
    var c := Content(r);
    var a, b := c[..k], c[k..];
    ContentValue(r);
    FromBytesAppend(a, b);
    assert a + b == c;
    HeadPositive(r, k);
    PowerPositive(|b|);
    MulMono(1, Power256(|b|), FromBytes(a), Power256(|b|));
  }

  lemma HeadPositive(r: nat, k: nat)
    requires 1 <= k < |Content(r)| && Content(r)[k] < 0x80
    ensures FromBytes(Content(r)[..k]) > 0
  {
    var c, s := Content(r), ToBytes(r);
    if c[0] != 0 {
      DigitsOfFrom(c[..k]);
    } else {
      if r != 0 { DigitsLead(r); }
      assert c == [0] + s && s[0] > 0x7f;
      assert c[..k] == [0] + s[..k - 1];
      FromBytesAppend([0], s[..k - 1]);
      DigitsOfFrom(s[..k - 1]);
    }
  }

  // encode_integer's output is read back exactly when its content is at most
  // 127 bytes.
  lemma IntegerRoundTrip(r: nat, rest: seq<byte>)
    requires EncodeInteger(r).Ok?
    ensures RemoveInteger(EncodeInteger(r).value + rest) == Ok((r, rest)) <==> |Content(r)| <= 127
  {
    if |Content(r)| <= 127 { ShortIntegerRoundTrip(r, rest); } else { LongIntegerMisread(r, rest); }
  }

  // Enough: r below 2^1015.
  lemma SmallNumbersFit(r: nat)
    requires r < 0x80 * Power256(126)
    ensures |Content(r)| <= 127
  {
    ContentFits(r, 126);
  }

  lemma ContentFits(r: nat, k: nat)
    requires r < 0x80 * Power256(k)
    ensures |Content(r)| <= k + 1
  {
    var s := ToBytes(r);
    PowerPositive(k);
    DigitsBelow(r, k + 1);
    if r != 0 && |s| == k + 1 && s[0] > 0x7f {
      FromToBytes(r);
      FirstByteBounds(s, k);
    }
  }

  lemma FirstByteBounds(s: seq<byte>, k: nat)
    requires |s| == k + 1 && s[0] > 0x7f
    ensures FromBytes(s) >= 0x80 * Power256(k)
  {
    FromBytesAppend(s[..1], s[1..]);
    assert s[..1] + s[1..] == s && FromBytes(s[..1]) == 256 * FromBytes(s[..1][..0]) + s[0];
    PowerPositive(k);
    MulMono(0x80, Power256(k), s[0], Power256(k));
  }

  // ---------- object identifiers ----------

  // The digits of n in base 128, each but the last with its top bit set.
  function Leading(n: nat): seq<byte> {
    if n == 0 then [] else Leading(n / 128) + [n % 128 + 128]
  }

  function Base128(n: nat): seq<byte> {
    Leading(n / 128) + [n % 128]
  }

  // encode_number
  method EncodeNumber(x: nat) returns (s: seq<byte>)
    ensures s == Base128(x)
  {
    var n, digits: seq<byte> := x, [];
    while n != 0
      invariant Leading(n) + digits == Leading(x)
    {
      assert Leading(n) == Leading(n / 128) + [n % 128 + 128];
      digits := [n % 128 + 128] + digits;
      n := n / 128;
    }
    if digits == [] { digits := [0]; }
    s := digits[|digits| - 1 := digits[|digits| - 1] % 128];
    if x != 0 { assert digits == Leading(x / 128) + [x % 128 + 128]; }
  }

  // The value of the digits after number, and where they end.
  function ReadDigits(s: seq<byte>, i: nat, number: nat): Result<(nat, nat)>
    requires i <= |s|
    decreases |s| - i
  {
    if i == |s| then Err(IndexError)
    else if s[i] < 0x80 then Ok((128 * number + s[i], i + 1))
    else ReadDigits(s, i + 1, 128 * number + s[i] % 128)
  }

  // read_number; its own check for running out of bytes comes one byte late.
  method ReadNumber(s: seq<byte>) returns (r: Result<(nat, nat)>)
    ensures r == ReadDigits(s, 0, 0)
    ensures r != Err(UnexpectedDER)
  {
    var number: nat, llen := 0, 0;
    while true
      invariant llen <= |s|
      invariant ReadDigits(s, 0, 0) == ReadDigits(s, llen, number)
      decreases |s| - llen
    {
      if llen > |s| { return Err(UnexpectedDER); }
      number := 128 * number;
      if llen == |s| { return Err(IndexError); }
      var d := s[llen];
      number := number + d % 128;
      llen := llen + 1;
      if d < 0x80 { break; }
    }
    r := Ok((number, llen));
  }

  lemma {:induction false} ReadLeading(n: nat, tail: seq<byte>)
    ensures ReadDigits(Leading(n) + tail, 0, 0) == ReadDigits(Leading(n) + tail, |Leading(n)|, n)
  {
    if n != 0 {
      var d: byte := n % 128 + 128;
      ReadLeading(n / 128, [d] + tail);
      assert Leading(n / 128) + ([d] + tail) == Leading(n) + tail;
    }
  }

  lemma NumberRoundTrip(n: nat, rest: seq<byte>)
    ensures ReadDigits(Base128(n) + rest, 0, 0) == Ok((n, |Base128(n)|))
  {
    var l, d: byte := Leading(n / 128), n % 128;
    var s := l + ([d] + rest);
    ReadLeading(n / 128, [d] + rest);
    assert Base128(n) + rest == s && s[|l|] == d;
    assert ReadDigits(s, |l|, n / 128) == Ok((128 * (n / 128) + d, |l| + 1));
  }

  function Arcs(pieces: seq<nat>): seq<byte> {
    if pieces == [] then [] else Base128(pieces[0]) + Arcs(pieces[1..])
  }

  function EncodeOid(first: int, second: int, pieces: seq<nat>): Result<seq<byte>> {
    if first > 2 || second > 39 then Err(AssertionError) else
    match Int2Byte(40 * first + second)
    case Err(e) => Err(e)
    case Ok(b) => EncodeTagged(6, [b] + Arcs(pieces))
  }

  // The loop of remove_object
  function Numbers(body: seq<byte>): Result<seq<nat>>
    decreases |body|
  {
    if body == [] then Ok([]) else
    match ReadDigits(body, 0, 0)
    case Err(e) => Err(e)
    case Ok((n, ll)) =>
      ReadsOnward(body, 0, 0);
      match Numbers(body[ll..])
      case Err(e) => Err(e)
      case Ok(ns) => Ok([n] + ns)
  }

  lemma {:induction false} ReadsOnward(s: seq<byte>, i: nat, number: nat)
    requires i <= |s|
    ensures ReadDigits(s, i, number).Ok? ==> i < ReadDigits(s, i, number).value.1 <= |s|
    decreases |s| - i
  {
    if i < |s| && s[i] >= 0x80 { ReadsOnward(s, i + 1, 128 * number + s[i] % 128); }
  }

  function After(numbers: seq<nat>, r: Result<seq<nat>>): Result<seq<nat>> {
    if r.Ok? then Ok(numbers + r.value) else r
  }

  lemma AfterOne(numbers: seq<nat>, n: nat, r: Result<seq<nat>>)
    ensures After(numbers, After([n], r)) == After(numbers + [n], r)
    ensures After([], r) == r
  {
    if r.Ok? {
      assert numbers + ([n] + r.value) == numbers + [n] + r.value;
      assert [] + r.value == r.value;
    }
  }

  method ReadNumbers(start: seq<byte>) returns (r: Result<seq<nat>>)
    ensures r == Numbers(start)
  {
    var body, numbers: seq<nat> := start, [];
    AfterOne([], 0, Numbers(start));
    while body != []
      invariant Numbers(start) == After(numbers, Numbers(body))
      decreases |body|
    {
      var n := ReadNumber(body);
      if n.Err? { return Err(n.error); }
      ReadsOnward(body, 0, 0);
      AfterOne(numbers, n.value.0, Numbers(body[n.value.1..]));
      numbers := numbers + [n.value.0];
      body := body[n.value.1..];
    }
    assert numbers + [] == numbers;
    r := Ok(numbers);
  }

  function RemoveObject(s: seq<byte>): Result<(seq<int>, seq<byte>)> {
    match RemoveTagged(6, s)
    case Err(e) => Err(e)
    case Ok((body, rest)) =>
      match Numbers(body)
      case Err(e) => Err(e)
      case Ok(ns) =>
        if ns == [] then Err(IndexError)
        else Ok(([ns[0] / 40, ns[0] - 40 * (ns[0] / 40)] + ns[1..], rest))
  }

  lemma {:induction false} ArcsRoundTrip(pieces: seq<nat>)
    ensures Numbers(Arcs(pieces)) == Ok(pieces)
  {
    if pieces != [] {
      var n, tail := pieces[0], Arcs(pieces[1..]);
      NumberRoundTrip(n, tail);
      ArcsRoundTrip(pieces[1..]);
      assert (Base128(n) + tail)[|Base128(n)|..] == tail;
      assert Arcs(pieces) == Base128(n) + tail != [];
      assert [n] + pieces[1..] == pieces;
    }
  }

  // encode_oid does not check that its second number is not negative: then two
  // other numbers come back.
  lemma OidRoundTrip(first: int, second: int, pieces: seq<nat>, rest: seq<byte>)
    requires EncodeOid(first, second, pieces).Ok? && LengthFits(1 + |Arcs(pieces)|)
    ensures var e := EncodeOid(first, second, pieces).value;
      RemoveObject(e + rest) == Ok(([first, second] + pieces, rest)) <==> second >= 0
  {
    var n := OidReadsBack(first, second, pieces, rest);
    var q, r := n / 40, n - 40 * (n / 40);
    FirstTwo(q, r, first, second, pieces);
    FirstArcs(first, second, n);
  }

  // What comes back: the first byte divided by 40 anew.
  lemma OidReadsBack(first: int, second: int, pieces: seq<nat>, rest: seq<byte>) returns (n: byte)
    requires EncodeOid(first, second, pieces).Ok? && LengthFits(1 + |Arcs(pieces)|)
    ensures n == 40 * first + second && second <= 39
    ensures RemoveObject(EncodeOid(first, second, pieces).value + rest) == Ok(([n / 40, n - 40 * (n / 40)] + pieces, rest))
  {
    n := 40 * first + second;
    var body := [n] + Arcs(pieces);
    TaggedRoundTrip(6, body, rest);
    OidBody(n, pieces);
    assert EncodeOid(first, second, pieces) == EncodeTagged(6, body);
    RemoveObjectIs(EncodeTagged(6, body).value + rest, body, rest, n, pieces);
  }

  lemma RemoveObjectIs(s: seq<byte>, body: seq<byte>, rest: seq<byte>, n: nat, pieces: seq<nat>)
    requires RemoveTagged(6, s) == Ok((body, rest)) && Numbers(body) == Ok([n] + pieces)
    ensures RemoveObject(s) == Ok(([n / 40, n - 40 * (n / 40)] + pieces, rest))
  {
    assert ([n] + pieces)[1..] == pieces;
  }

  lemma FirstArcs(first: int, second: int, n: int)
    requires n == 40 * first + second && n >= 0 && second <= 39
    ensures first == n / 40 && second == n - 40 * (n / 40) <==> second >= 0
  {
  }

  lemma OidBody(n: byte, pieces: seq<nat>)
    requires n < 128
    ensures Numbers([n] + Arcs(pieces)) == Ok([n] + pieces)
  {
    var body := [n] + Arcs(pieces);
    ArcsRoundTrip(pieces);
    assert Base128(n) == [n] by { assert Leading(0) == []; }
    NumberRoundTrip(n, Arcs(pieces));
    assert body[1..] == Arcs(pieces);
  }

  lemma FirstTwo(a: int, b: int, c: int, d: int, rest: seq<int>)
    ensures [a, b] + rest == [c, d] + rest <==> a == c && b == d
  {
    var s, t := [a, b] + rest, [c, d] + rest;
    assert s[0] == a && s[1] == b && t[0] == c && t[1] == d;
  }

  // ---------- signatures ----------

  function SigEncodeDer(r: int, s: int): Result<seq<byte>> {
    match EncodeInteger(r)
    case Err(e) => Err(e)
    case Ok(a) =>
      match EncodeInteger(s)
      case Err(e) => Err(e)
      case Ok(b) => EncodeSequence([a, b])
  }

  function SigDecodeDer(sig: seq<byte>): Result<(nat, nat)> {
    match RemoveTagged(0x30, sig)
    case Err(e) => Err(e)
    case Ok((strings, empty)) =>
      if empty != [] then Err(UnexpectedDER) else
      match RemoveInteger(strings)
      case Err(e) => Err(e)
      case Ok((r, rest)) =>
        match RemoveInteger(rest)
        case Err(e) => Err(e)
        case Ok((s, empty2)) => if empty2 != [] then Err(UnexpectedDER) else Ok((r, s))
  }

  // A signature is read back exactly if the content of both numbers is at most 127
  // bytes; longer ones are encoded without an error, too.
  lemma SigDerRoundTrip(r: nat, s: nat)
    requires SigEncodeDer(r, s).Ok?
    ensures SigDecodeDer(SigEncodeDer(r, s).value) == Ok((r, s)) <==> |Content(r)| <= 127 && |Content(s)| <= 127
  {
    var a, b := EncodeInteger(r).value, EncodeInteger(s).value;
    SigPieces(r, s, []);
    var e := SigEncodeDer(r, s).value;
    assert e + [] == e;
    SigReads(e, a + b);
    if |Content(r)| <= 127 { SecondReads(r, s, a, b); } else { FirstMisreads(r, s, a, b); }
  }

  // The two reads of sigdecode_der.
  predicate ReadsAs(strings: seq<byte>, r: nat, s: nat) {
    var t := RemoveInteger(strings);
    t.Ok? && t.value.0 == r && RemoveInteger(t.value.1) == Ok((s, []))
  }

  lemma SigReads(e: seq<byte>, strings: seq<byte>)
    requires RemoveTagged(0x30, e) == Ok((strings, []))
    ensures forall r: nat, s: nat :: SigDecodeDer(e) == Ok((r, s)) <==> ReadsAs(strings, r, s)
  {
  }

  lemma SecondReads(r: nat, s: nat, a: seq<byte>, b: seq<byte>)
    requires EncodeInteger(r) == Ok(a) && EncodeInteger(s) == Ok(b) && |Content(r)| <= 127
    ensures ReadsAs(a + b, r, s) <==> |Content(s)| <= 127
  {
    ShortIntegerRoundTrip(r, b);
    IntegerRoundTrip(s, []);
    assert b + [] == b;
  }

  lemma FirstMisreads(r: nat, s: nat, a: seq<byte>, b: seq<byte>)
    requires EncodeInteger(r) == Ok(a) && EncodeInteger(s) == Ok(b) && |Content(r)| > 127
    ensures !ReadsAs(a + b, r, s)
  {
    LongMisreadBefore(r, b);
  }

  // Two integers that could be encoded form a sequence that is taken apart again.
  lemma SigPieces(r: nat, s: nat, rest: seq<byte>)
    requires EncodeInteger(r).Ok? && EncodeInteger(s).Ok?
    ensures var a, b := EncodeInteger(r).value, EncodeInteger(s).value;
      SigEncodeDer(r, s).Ok? && RemoveTagged(0x30, SigEncodeDer(r, s).value + rest) == Ok((a + b, rest))
  {
    var a, b := EncodeInteger(r).value, EncodeInteger(s).value;
    TwoPieces(a, b);
    ShortLengthFits(|a| + |b|);
    SequenceRoundTrip([a, b], rest);
  }

  // With another integer b behind, a long one could only be taken for itself if
  // what is read ran on into b.
  lemma LongMisreadBefore(r: nat, b: seq<byte>)
    requires 128 <= |Content(r)| <= 255 && 1 <= |b| <= 257 && b[0] == 2
    ensures var t := RemoveInteger(EncodeInteger(r).value + b);
      !(t.Ok? && t.value.0 == r && t.value.1 != [])
  {
    var t := RemoveInteger(EncodeInteger(r).value + b);
    if t.Ok? && t.value.1 != [] && t.value.0 == r {
      var n := LongRead(r, b);
      RanOn(r, b, n);
    }
  }

  lemma RanOn(r: nat, b: seq<byte>, n: seq<byte>)
    requires 128 <= |Content(r)| <= 255 && 1 <= |b| <= 257 && b[0] == 2
    requires var k := |Content(r)| - 128;
      |n| < 128 + |b| && n == (Content(r)[k..] + b)[..|n|] && |n| == FromBytes(Content(r)[..k])
    ensures FromBytes(n) != r
  {
    if FromBytes(n) == r {
      var d, back := Digits(r), Content(r)[|Content(r)| - 128..];
      PaddedDigits(n);
      var front := LongFront(r);
      if front != [] { NotPadded(front, back, b, n, d); }
    }
  }

  lemma NotPadded(front: seq<byte>, back: seq<byte>, b: seq<byte>, n: seq<byte>, d: seq<byte>)
    requires |back| == 128 && 1 <= |b| <= 257 && b[0] == 2 && front != [] && front[0] != 0 && d == front + back
    requires |n| < 128 + |b| && n == (back + b)[..|n|] && |n| == FromBytes(front)
    ensures !(|d| <= |n| && n == seq(|n| - |d|, i => 0) + d)
  {
    if |d| <= |n| && n == seq(|n| - |d|, i => 0) + d {
      assert n[128] == b[0] && n[..128] == back;
      SelfSimilar(front, back, n, |n| - |d|);
    }
  }

  // What the misreading takes for the number: the last 128 bytes of its content
  // and on into b, as many as the first bytes of the content say.
  lemma LongRead(r: nat, b: seq<byte>) returns (n: seq<byte>)
    requires 128 <= |Content(r)| <= 255 && 1 <= |b| <= 257
    requires var t := RemoveInteger(EncodeInteger(r).value + b); t.Ok? && t.value.1 != []
    ensures var llen := |Content(r)| - 0x80;
      && llen > 0 && |n| == FromBytes(Content(r)[..llen]) && |n| < 128 + |b|
      && n == (Content(r)[llen..] + b)[..|n|]
      && RemoveInteger(EncodeInteger(r).value + b).value.0 == FromBytes(n)
  {
    var c := Content(r);
    var s := [2, |c|] + c + b;
    var llen := |c| - 0x80;
    LengthByteOfLong(c, b, s);
    var length := FromBytes(c[..llen]);
    n := Slice(s, 2 + llen, 2 + llen + length);
    WindowOf(c, b, s, llen, length);
  }

  // The length byte is taken for a count of length bytes.
  lemma LengthByteOfLong(c: seq<byte>, b: seq<byte>, s: seq<byte>)
    requires 128 <= |c| <= 255 && s == [2, |c|] + c + b
    ensures var llen := |c| - 0x80;
      ReadLength(s[1..]) == if llen == 0 then Err(ValueError) else Ok((FromBytes(c[..llen]), 1 + llen))
  {
    var t := s[1..];
    assert t == [|c|] + c + b;
    assert t[1..1 + (|c| - 0x80)] == c[..|c| - 0x80];
  }

  lemma WindowOf(c: seq<byte>, b: seq<byte>, s: seq<byte>, k: nat, length: nat)
    requires |c| < 256 && s == [2, |c|] + c + b && k <= |c| && From(s, 2 + k + length) != []
    ensures |Slice(s, 2 + k, 2 + k + length)| == length < |c| - k + |b|
    ensures Slice(s, 2 + k, 2 + k + length) == (c[k..] + b)[..length]
  {
    assert s[2 + k..] == c[k..] + b;
    if length > 0 { assert s[2 + k..2 + k + length] == s[2 + k..][..length]; }
  }

  // The content is its last 128 bytes with the digits before them in front, and
  // perhaps a zero byte in front of those.
  lemma LongFront(r: nat) returns (front: seq<byte>)
    requires |Content(r)| >= 128
    ensures var c := Content(r);
      || (Digits(r) == front + c[|c| - 128..] && FromBytes(front) == FromBytes(c[..|c| - 128])
          && (front != [] ==> front[0] != 0))
      || (|c| == 128 && front == [])
  {
    var c, d := Content(r), Digits(r);
    DigitsLead(r);
    if |d| < 128 {
      front := [];
    } else {
      front := d[..|d| - 128];
      assert d == front + d[|d| - 128..];
      FrontOfContent(c, d, front);
    }
  }

  lemma FrontOfContent(c: seq<byte>, d: seq<byte>, front: seq<byte>)
    requires (c == d || c == [0] + d) && |d| >= 128 && front == d[..|d| - 128]
    ensures d[|d| - 128..] == c[|c| - 128..] && FromBytes(front) == FromBytes(c[..|c| - 128])
  {
    if c != d {
      assert c[..|c| - 128] == seq(1, i => 0) + front;
      LeadingZeros(1, front);
    }
  }

  // Bytes that begin as they end, with a count of themselves in between.
  lemma SelfSimilar(a: seq<byte>, b: seq<byte>, n: seq<byte>, z: nat)
    requires a != [] ==> a[0] != 0
    requires |b| == 128 && n == seq(z, i => 0) + (a + b) && n[..128] == b
    requires 128 < |n| < 385 && |n| == FromBytes(a)
    ensures n[128] != 2
  {
    FrontValue(a);
    if |a| == 1 {
      var p := seq(z, i => 0) + a;
      assert n == p + b;
      Periodic(p, b, n, 128);
    }
  }

  lemma FrontValue(a: seq<byte>)
    requires (a != [] ==> a[0] != 0) && 128 < FromBytes(a) < 385
    ensures |a| == 1 || |a| == 2
    ensures |a| == 1 ==> FromBytes(a) == a[0]
    ensures |a| == 2 ==> FromBytes(a) == 256 * (a[0] as int) + a[1]
  {
    DigitsOfFrom(a);
    assert Power256(2) == 256 * Power256(1) == 256 * 256 * Power256(0);
    DigitsBelow(FromBytes(a), 2);
    if |a| == 1 { OneByte(a); }
    if |a| == 2 {
      OneByte(a[..1]);
      assert FromBytes(a) == 256 * FromBytes(a[..1]) + a[1];
    }
  }

  lemma OneByte(a: seq<byte>)
    requires |a| == 1
    ensures FromBytes(a) == a[0]
  {
    assert a[..0] == [];
  }

  lemma {:induction false} Periodic(p: seq<byte>, b: seq<byte>, n: seq<byte>, i: nat)
    requires p != [] && n == p + b && n[..|b|] == b && i < |n|
    ensures n[i] in p
  {
    if i >= |p| {
      assert n[i] == b[i - |p|] == n[..|b|][i - |p|] == n[i - |p|];
      Periodic(p, b, n, i - |p|);
    }
  }

  lemma TwoPieces(a: seq<byte>, b: seq<byte>)
    ensures Concat([a, b]) == a + b && TotalLength([a, b]) == |a| + |b|
  {
    var none: seq<seq<byte>> := [];
    assert [a, b][1..] == [b] && [b][1..] == none;
    assert Concat([b]) == b + [] == b;
    assert TotalLength([b]) == |b|;
  }

  lemma ShortLengthFits(l: nat)
    requires l < 0x10000
    ensures LengthFits(l)
  {
    DigitsBelow(l, 2);
    assert Power256(2) == 256 * Power256(1) == 256 * 256 * Power256(0);
  }

  // Bytes after a signature are noticed.
  lemma TrailingJunkRefused(r: nat, s: nat, junk: seq<byte>)
    requires SigEncodeDer(r, s).Ok? && junk != []
    ensures SigDecodeDer(SigEncodeDer(r, s).value + junk) == Err(UnexpectedDER)
  {
    SigPieces(r, s, junk);
  }

  // orderlen: the bytes of the order.
  function OrderLen(order: nat): nat { |ToBytes(order)| }

  // "%0Nx" pads on the left; a number that is too long fails the assertion, or
  // unhexlify if its digits are odd in number.
  function NumberToString(num: nat, order: nat): Result<seq<byte>> {
    var l, s := OrderLen(order), ToBytes(num);
    if |s| <= l then Ok(seq(l - |s|, i => 0) + s)
    else if s[0] < 16 then Err(ValueError)
    else Err(AssertionError)
  }

  function StringToNumberFixedLen(s: seq<byte>, order: nat): Result<nat> {
    if |s| != OrderLen(order) then Err(AssertionError) else Ok(FromBytes(s))
  }

  function SigEncodeString(r: nat, s: nat, order: nat): Result<seq<byte>> {
    match NumberToString(r, order)
    case Err(e) => Err(e)
    case Ok(a) =>
      match NumberToString(s, order)
      case Err(e) => Err(e)
      case Ok(b) => Ok(a + b)
  }

  function SigDecodeString(sig: seq<byte>, order: nat): Result<(nat, nat)> {
    var l := OrderLen(order);
    if |sig| != 2 * l then Err(AssertionError) else
    Ok((FromBytes(sig[..l]), FromBytes(sig[l..])))
  }

  lemma NumberStringRoundTrip(num: nat, order: nat)
    requires NumberToString(num, order).Ok?
    ensures StringToNumberFixedLen(NumberToString(num, order).value, order) == Ok(num)
  {
    FromToBytes(num);
    LeadingZeros(OrderLen(order) - |ToBytes(num)|, ToBytes(num));
  }

  lemma NumberFits(num: nat, order: nat)
    ensures NumberToString(num, order).Ok? <==> num < Power256(OrderLen(order))
    ensures num <= order ==> NumberToString(num, order).Ok?
  {
    var l := OrderLen(order);
    PowerPositive(l);
    if order != 0 { DigitsLead(order); }
    if num != 0 { DigitsBelow(num, l); }
    if num <= order && order != 0 { DigitsBelow(order, l); }
  }

  // Every pair of numbers up to the order survives.
  lemma SigStringRoundTrip(r: nat, s: nat, order: nat)
    requires r <= order && s <= order
    ensures SigEncodeString(r, s, order).Ok?
    ensures SigDecodeString(SigEncodeString(r, s, order).value, order) == Ok((r, s))
  {
    NumberFits(r, order);
    NumberFits(s, order);
    NumberStringRoundTrip(r, order);
    NumberStringRoundTrip(s, order);
    var a, b := NumberToString(r, order).value, NumberToString(s, order).value;
    assert (a + b)[..|a|] == a && (a + b)[|a|..] == b;
  }
}
