// Numbers as big-endian bytes: int_to_string and string_to_int
// (ecdsa/ecdsa.py:155-175), and the hexlify/unhexlify pairs of der.py and util.py.
module Bytes {
  import opened Modular

  type byte = x: int | 0 <= x < 256

  function FromBytes(s: seq<byte>): nat {
    if s == [] then 0 else 256 * FromBytes(s[..|s| - 1]) + s[|s| - 1]
  }

  // As few bytes as possible; none for 0.
  function Digits(x: nat): seq<byte> {
    if x == 0 then [] else Digits(x / 256) + [x % 256]
  }

  // As few bytes as possible, but one for 0.
  function ToBytes(x: nat): seq<byte> {
    if x == 0 then [0] else Digits(x)
  }

  function Power256(k: nat): nat {
    if k == 0 then 1 else 256 * Power256(k - 1)
  }

  // int_to_string: bytes are collected from the low end, then reversed.
  method IntToString(x: nat) returns (s: seq<byte>)
    ensures s == ToBytes(x)
  {
    if x == 0 { return [0]; }
    var n: nat, result: seq<byte> := x, [];
    while n != 0
      invariant Digits(n) + Reversed(result) == Digits(x)
    {
      result := result + [n % 256];
      assert result[..|result| - 1] + [n % 256] == result;
      assert Digits(n) == Digits(n / 256) + [n % 256];
      n := n / 256;
    }
    s := Reversed(result);
  }

  function Reversed(s: seq<byte>): seq<byte> {
    if s == [] then [] else [s[|s| - 1]] + Reversed(s[..|s| - 1])
  }

  method StringToInt(s: seq<byte>) returns (result: nat)
    ensures result == FromBytes(s)
  {
    result := 0;
    for i := 0 to |s|
      invariant result == FromBytes(s[..i])
    {
      assert s[..i + 1][..i] == s[..i];
      result := 256 * result + s[i];
    }
    assert s[..|s|] == s;
  }

  lemma {:induction false} FromDigits(x: nat)
    ensures FromBytes(Digits(x)) == x
  {
    if x != 0 {
      FromDigits(x / 256);
      var d := Digits(x);
      assert d[..|d| - 1] == Digits(x / 256);
    }
  }

  // string_to_int undoes int_to_string.
  lemma FromToBytes(x: nat)
    ensures FromBytes(ToBytes(x)) == x
  {
    FromDigits(x);
    if x == 0 { assert [0][..0] == []; assert FromBytes([0]) == 256 * FromBytes([]) + 0; }
  }

  lemma {:induction false} DigitsOfFrom(s: seq<byte>)
    requires s != [] ==> s[0] != 0
    ensures Digits(FromBytes(s)) == s
    ensures s != [] ==> FromBytes(s) > 0
  {
    if |s| == 1 {
      assert FromBytes(s) == 256 * FromBytes(s[..0]) + s[0];
    } else if s != [] {
      var t := s[..|s| - 1];
      DigitsOfFrom(t);
      assert FromBytes(s) / 256 == FromBytes(t) && FromBytes(s) % 256 == s[|s| - 1];
      assert t + [s[|s| - 1]] == s;
    }
  }

  // int_to_string undoes string_to_int exactly for the strings it makes itself.
  lemma ToFromBytes(s: seq<byte>)
    ensures ToBytes(FromBytes(s)) == s <==> s == [0] || (s != [] && s[0] != 0)
  {
    if s == [0] {
      FromToBytes(0);
      assert s[..0] == [];
    } else if s != [] && s[0] != 0 {
      DigitsOfFrom(s);
    } else if FromBytes(s) != 0 {
      DigitsLead(FromBytes(s));
    }
  }

  lemma {:induction false} DigitsLead(x: nat)
    requires x > 0
    ensures Digits(x) != [] && Digits(x)[0] != 0
  {
    if x / 256 != 0 { DigitsLead(x / 256); }
  }

  // Bytes of the same number differ in leading zeros only.
  lemma {:induction false} PaddedDigits(s: seq<byte>)
    ensures var d := Digits(FromBytes(s));
      |d| <= |s| && s == seq(|s| - |d|, i => 0) + d
  {
    if s != [] && s[0] == 0 {
      var t := s[1..];
      PaddedDigits(t);
      LeadingZeros(1, t);
      assert s == seq(1, i => 0) + t;
      var d := Digits(FromBytes(t));
      assert seq(|s| - |d|, i => 0) == seq(1, i => 0) + seq(|t| - |d|, i => 0);
    } else {
      DigitsOfFrom(s);
    }
  }

  // ---------- sizes ----------

  lemma {:induction false} FromBytesBelow(s: seq<byte>)
    ensures FromBytes(s) < Power256(|s|)
  {
    if s != [] { FromBytesBelow(s[..|s| - 1]); }
  }

  lemma {:induction false} FromBytesAppend(a: seq<byte>, b: seq<byte>)
    ensures FromBytes(a + b) == FromBytes(a) * Power256(|b|) + FromBytes(b)
  {
    if b == [] {
      assert a + b == a;
    } else {
      var b0 := b[..|b| - 1];
      assert (a + b)[..|a + b| - 1] == a + b0;
      FromBytesAppend(a, b0);
      OneMorePower(FromBytes(a), |b0|);
    }
  }

  lemma OneMorePower(x: nat, k: nat)
    ensures x * Power256(k + 1) == 256 * (x * Power256(k))
  {
  }

  lemma {:induction false} DigitsBelow(x: nat, l: nat)
    ensures |Digits(x)| <= l <==> x < Power256(l)
  {
    if x != 0 && l != 0 { DigitsBelow(x / 256, l - 1); }
    if l == 0 { assert Power256(0) == 1; } else { PowerPositive(l); }
  }

  lemma {:induction false} PowerPositive(l: nat)
    ensures Power256(l) >= 1
  {
    if l > 0 { PowerPositive(l - 1); }
  }

  lemma {:induction false} PowerMonotone(j: nat, k: nat)
    requires j <= k
    ensures Power256(j) <= Power256(k)
  {
    if j < k { PowerMonotone(j, k - 1); PowerPositive(k - 1); }
  }

  lemma {:induction false} LeadingZeros(k: nat, s: seq<byte>)
    ensures FromBytes(seq(k, i => 0) + s) == FromBytes(s)
  {
    var z: seq<byte> := seq(k, i => 0);
    FromBytesAppend(z, s);
    ZerosAreZero(k);
    assert 0 * Power256(|s|) == 0;
  }

  lemma {:induction false} ZerosAreZero(k: nat)
    ensures FromBytes(seq(k, i => 0)) == 0
  {
    if k > 0 {
      ZerosAreZero(k - 1);
      var z: seq<byte> := seq(k, i => 0);
      assert z[..k - 1] == seq(k - 1, i => 0);
    }
  }
}
