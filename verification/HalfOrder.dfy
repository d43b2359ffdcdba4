// The comparison s > order / 2 of the canonical signature encodings
// (ecdsa/util.py:203-216). util.py imports true division, so order / 2 is a
// double: order is first rounded to 53 significant bits.
module HalfOrder {
  import opened KconfigExpr
  import opened Modular
  import opened ScalarMul

  const TWO_52: nat := 0x10_0000_0000_0000
  const TWO_53: nat := 0x20_0000_0000_0000

  // The weight of the last of 53 significant bits of n.
  function Weight(n: nat): (m: nat)
    ensures m >= 1
  {
    if n < TWO_53 then 1 else 2 * Weight(n / 2)
  }

  // n rounded to 53 significant bits, a tie to the even one: twice order / 2.
  function Round(n: nat): nat {
    var m := Weight(n);
    var q, r := n / m, n % m;
    if 2 * r < m || (2 * r == m && q % 2 == 0) then q * m else (q + 1) * m
  }

  function Bits(n: nat): nat {
    if n == 0 then 0 else 1 + Bits(n / 2)
  }

  // sigencode_*_canonize; None is the OverflowError of a quotient that is 2^1024
  // or more.
  function LowS(n: nat, s: int): Option<int> {
    if Bits(Round(n)) > 1025 then None
    else Some(if 2 * s > Round(n) then n - s else s)
  }

  // ---------- what Round is ----------

  lemma {:induction false} WeightBounds(n: nat) returns (k: nat)
    ensures Weight(n) == Pow2(k) && n < TWO_53 * Weight(n) && (k > 0 ==> TWO_52 * Weight(n) <= n)
  {
    if n < TWO_53 {
      k := 0;
    } else {
      var j := WeightBounds(n / 2);
      k := j + 1;
      assert n / 2 >= TWO_52;
      if j == 0 { assert Weight(n / 2) == 1; }
    }
  }

  // The quotient has 53 bits, or 52 and less below 2^52.
  lemma Split(n: nat) returns (k: nat, m: nat, q: nat, r: nat)
    ensures m == Weight(n) == Pow2(k) && q == n / m && r == n % m
    ensures n == q * m + r && 0 <= r < m && q < TWO_53 && (k > 0 ==> TWO_52 <= q) && (k == 0 ==> m == 1)
  {
    k := WeightBounds(n);
    m := Weight(n);
    q, r := n / m, n % m;
    assert n == q * m + r;
    QuotientBounds(n, m, q, r, TWO_53);
    if k > 0 { QuotientAtLeast(n, m, q, r, TWO_52); }
  }

  lemma QuotientBounds(n: nat, m: nat, q: nat, r: nat, b: nat)
    requires m >= 1 && n == q * m + r && n < b * m
    ensures q < b
  {
    if q >= b { MulMono(b, m, q, m); }
  }

  lemma QuotientAtLeast(n: nat, m: nat, q: nat, r: nat, b: nat)
    requires m >= 1 && n == q * m + r && r < m && b * m <= n
    ensures b <= q
  {
    assert (q + 1) * m == q * m + m;
    if q + 1 <= b { MulMono(q + 1, m, b, m); }
  }

  // A number with at most 53 significant bits.
  ghost predicate Double(x: nat, q: nat, k: nat) {
    x == q * Pow2(k) && q < TWO_53
  }

  // The result is such a number, and no other one is nearer.
  lemma RoundIsDouble(n: nat) returns (q: nat, k: nat)
    ensures Double(Round(n), q, k)
  {
    var m, r;
    k, m, q, r := Split(n);
    if Round(n) != q * m {
      if q + 1 < TWO_53 {
        q := q + 1;
      } else {
        assert (q + 1) * m == TWO_52 * (2 * m);
        q, k := TWO_52, k + 1;
      }
    }
  }

  function Distance(x: int, y: int): nat {
    if x < y then y - x else x - y
  }

  lemma RoundIsNearest(n: nat, x: nat, q: nat, k: nat)
    requires Double(x, q, k)
    ensures Distance(n, Round(n)) <= Distance(n, x)
  {
    hide Round, Weight, Pow2;
    var j, m, p, r := Split(n);
    RoundDistance(n);
    if j <= k {
      var d := MultipleOfPower(j, k);
      assert q * (d * m) == q * d * m;
      MultiplesAround(n, m, p, r, q * d);
    } else {
      FinerIsBelow(x, q, k, j, m, p);
    }
  }

  // A double with finer bits is below all numbers of n's size.
  lemma FinerIsBelow(x: nat, q: nat, k: nat, j: nat, m: nat, p: nat)
    requires Double(x, q, k) && k < j && m == Pow2(j) && p >= TWO_52
    ensures x <= p * m
  {
    Pow2Monotone(k, j - 1);
    var h := Pow2(j - 1);
    assert m == 2 * h;
    MulMono(q, Pow2(k), TWO_53, h);
    assert TWO_53 * h == TWO_52 * m;
    MulMono(TWO_52, m, p, m);
  }

  // Down by the rest or up to the next multiple.
  lemma RoundIs(n: nat, m: nat, q: nat, r: nat)
    requires m == Weight(n) && n == q * m + r && 0 <= r < m
    ensures Round(n) == if 2 * r < m || (2 * r == m && q % 2 == 0) then q * m else q * m + m
  {
    DivIs(n, m, q, r);
    assert n == (n / m) * m + n % m;
    assert (q + 1) * m == q * m + m;
  }

  lemma RoundDistance(n: nat)
    ensures var m := Weight(n); var r := n % m; Distance(n, Round(n)) == if 2 * r <= m then r else m - r
  {
    hide Round, Weight;
    var m := Weight(n);
    var q, r := n / m, n % m;
    assert n == q * m + r;
    RoundIs(n, m, q, r);
  }

  // The multiples of m around n are the nearest ones.
  lemma MultiplesAround(n: nat, m: nat, p: nat, r: nat, a: nat)
    requires m >= 1 && n == p * m + r && r < m
    ensures Distance(n, a * m) >= if 2 * r <= m then r else m - r
  {
    if a <= p {
      MulMono(a, m, p, m);
    } else {
      MulMono(p + 1, m, a, m);
      assert (p + 1) * m == p * m + m;
    }
  }

  lemma {:induction false} MultipleOfPower(j: nat, k: nat) returns (d: nat)
    requires j <= k
    ensures Pow2(k) == d * Pow2(j)
    decreases k
  {
    if j == k {
      d := 1;
    } else {
      d := MultipleOfPower(j, k - 1);
      assert 2 * (d * Pow2(j)) == 2 * d * Pow2(j);
      d := 2 * d;
    }
  }

  // ---------- low or not ----------

  // The result is low unless s lies between order / 2 as a number and as a double:
  // a high s is left as it is, or a low one negated.
  lemma LowSIsLowIff(n: nat, s: int)
    requires 1 <= s < n && LowS(n, s).Some?
    ensures var low := LowS(n, s).value;
      && 1 <= low < n
      && (2 * low <= n <==> !(n < 2 * s <= Round(n)) && !(Round(n) < 2 * s < n))
      && (n % 2 == 1 ==> (2 * low <= n <==> (2 * s > n <==> 2 * s > Round(n))))
  {
  }

  // For an odd order some s goes wrong exactly if the order is rounded up, or down
  // by more than 1.
  lemma SafeOrderIff(n: nat)
    requires n % 2 == 1 && n >= 3 && Bits(Round(n)) <= 1025
    ensures (forall s | 1 <= s < n :: 2 * LowS(n, s).value <= n) <==> Round(n) == n || Round(n) == n - 1
  {
    var low, high := (n - 1) / 2, (n + 1) / 2;
    LowSIsLowIff(n, low);
    LowSIsLowIff(n, high);
    forall s | 1 <= s < n ensures Round(n) == n || Round(n) == n - 1 ==> 2 * LowS(n, s).value <= n {
      LowSIsLowIff(n, s);
    }
  }

  // So orders below 2^53 are safe.
  lemma SmallOrdersAreSafe(n: nat, s: int)
    requires 1 <= s < n < TWO_53
    ensures Round(n) == n
    ensures LowS(n, s).Some? && 2 * LowS(n, s).value <= n
  {
    assert Round(n) == n by { assert Weight(n) == 1 && n % 1 == 0; }
    Powers();
    FewBits(n, 54);
    LowSIsLowIff(n, s);
  }

  lemma {:induction false} FewBits(n: nat, k: nat)
    requires n < Pow2(k)
    ensures Bits(n) <= k
  {
    if n != 0 { FewBits(n / 2, k - 1); }
  }

  lemma {:induction false} ManyBits(n: nat, k: nat)
    ensures Bits(n) > k <==> n >= Pow2(k)
  {
    if n == 0 || k == 0 {
      Pow2Monotone(0, k);
    } else {
      ManyBits(n / 2, k - 1);
    }
  }

  // The quotient, half of Round(n), is too large for a double from 2^1024 on.
  lemma OverflowIff(n: nat, s: int, k: nat)
    requires k == 1025
    ensures LowS(n, s).None? <==> Round(n) >= Pow2(k)
  {
    hide Round, Pow2;
    ManyBits(Round(n), k);
  }

  // ---------- the orders of the program's curves ----------

  lemma {:induction false} Pow2Sum(j: nat, k: nat)
    ensures Pow2(j + k) == Pow2(j) * Pow2(k)
  {
    if j > 0 {
      Pow2Sum(j - 1, k);
      assert 2 * (Pow2(j - 1) * Pow2(k)) == 2 * Pow2(j - 1) * Pow2(k);
    }
  }

  lemma Powers()
    ensures Pow2(1) == 2 && Pow2(3) == 8 && Pow2(8) == 0x100 && Pow2(32) == 0x1_0000_0000
    ensures Pow2(54) == 2 * TWO_53
  {
    hide Pow2;
    PowerOne();
    Pow2Sum(1, 1);
    Pow2Sum(1, 2);
    Pow2Sum(3, 3);
    Pow2Sum(6, 2);
    Pow2Sum(8, 8);
    Pow2Sum(16, 16);
    Pow2Sum(32, 16);
    Pow2Sum(48, 6);
  }

  lemma PowerOne()
    ensures Pow2(1) == 2
  {
    assert Pow2(0) == 1;
  }

  const ORDER_192: nat :=
    6277101735386680763835789423176059013767194773182842284081
  const ORDER_224: nat :=
    26959946667150639794667015087019625940457807714424391721682722368061
  const ORDER_256: nat :=
    115792089210356248762697446949407573529996955224135760342422259061068512044369
  const ORDER_384: nat :=
    39402006196394479212279040100143613805079739270465446667946905279627659399113263569398956308152294913554433653942643
  const ORDER_521: nat :=
    6864797660130609714981900799081393217269435300143305409394463459185543183397655394245057746333217197532963996371363321113864768612440380340372808892707005449
  const ORDER_SECP256K1: nat :=
    115792089237316195423570985008687907852837564279074904382605163141518161494337

  // The high s next to the middle is left as it is.
  predicate HighStays(n: nat) {
    var s := (n + 1) / 2;
    2 * s > n && LowS(n, s) == Some(s)
  }

  // The low s next to the middle is made high.
  predicate LowNegated(n: nat) {
    var s := (n - 1) / 2;
    2 * s <= n < 2 * (s + 1) && LowS(n, s) == Some(s + 1)
  }

  lemma SameWeight(n: nat, j: nat, k: nat, w: nat, m: nat)
    requires w == Pow2(j) && m == Pow2(k)
    requires n < TWO_53 * w && (j > 0 ==> TWO_52 * w <= n)
    requires TWO_52 * m <= n < TWO_53 * m
    ensures w == m
  {
    if j < k {
      Pow2Monotone(j, k - 1);
    } else if k < j {
      Pow2Monotone(k, j - 1);
    }
  }

  // The rounding from a quotient of 53 bits.
  lemma RoundWith(n: nat, k: nat, m: nat, q: nat, r: nat)
    requires m == Pow2(k) && n == q * m + r && 0 <= r < m && TWO_52 <= q < TWO_53
    ensures Round(n) == if 2 * r < m || (2 * r == m && q % 2 == 0) then q * m else q * m + m
  {
    hide Weight, Round, Pow2;
    var j := WeightBounds(n);
    MulMono(TWO_52, m, q, m);
    MulMono(q + 1, m, TWO_53, m);
    assert (q + 1) * m == q * m + m;
    SameWeight(n, j, k, Weight(n), m);
    RoundIs(n, m, q, r);
  }

  // No order of the curves' size makes the quotient overflow.
  lemma NoOverflow(k: nat, m: nat, x: nat)
    requires m == Pow2(k) && k <= 900 && x <= TWO_53 * m
    ensures Bits(x) <= 1025
  {
    hide Bits, Pow2;
    Powers();
    Pow2Sum(54, k);
    Pow2Monotone(0, k);
    FewBits(x, 54 + k);
  }

  // An order that is rounded up to a power of two.
  lemma RoundedUp(n: nat, k: nat, m: nat, r: nat)
    requires m == Pow2(k) && k <= 900 && n == (TWO_53 - 1) * m + r && r < m < 2 * r && n % 2 == 1
    ensures n < Round(n)
    ensures HighStays(n)
  {
    hide Weight, Round, Pow2, Bits;
    RoundWith(n, k, m, TWO_53 - 1, r);
    NoOverflow(k, m, Round(n));
  }

  // An order that is rounded down.
  lemma RoundedDown(n: nat, k: nat, m: nat, q: nat, r: nat)
    requires m == Pow2(k) && k <= 900 && n == q * m + r && TWO_52 <= q < TWO_53
    requires 1 < r && 2 * r < m && n % 2 == 1
    ensures Round(n) < n - 1
    ensures LowNegated(n)
  {
    hide Weight, Round, Pow2, Bits;
    RoundWith(n, k, m, q, r);
    MulMono(q, m, TWO_53, m);
    NoOverflow(k, m, Round(n));
  }

  lemma Power139()
    ensures Pow2(139) == 0x80000000000000000000000000000000000
  {
    hide Pow2;
    Powers();
    Pow2Sum(32, 32);
    Pow2Sum(64, 64);
    Pow2Sum(128, 8);
    Pow2Sum(136, 3);
  }

  lemma Rounded192()
    ensures HighStays(ORDER_192)
  {
    hide Round, HighStays, LowNegated, Pow2;
    var m := 0x80000000000000000000000000000000000;
    Power139();
    RoundedUp(ORDER_192, 139, m, ORDER_192 - (TWO_53 - 1) * m);
  }

  lemma Power171()
    ensures Pow2(171) == 0x8000000000000000000000000000000000000000000
  {
    hide Pow2;
    Powers();
    Pow2Sum(32, 32);
    Pow2Sum(64, 64);
    Pow2Sum(128, 32);
    Pow2Sum(160, 8);
    Pow2Sum(168, 3);
  }

  lemma Rounded224()
    ensures HighStays(ORDER_224)
  {
    hide Round, HighStays, LowNegated, Pow2;
    var m := 0x8000000000000000000000000000000000000000000;
    Power171();
    RoundedUp(ORDER_224, 171, m, ORDER_224 - (TWO_53 - 1) * m);
  }

  lemma Power203()
    ensures Pow2(203) == 0x800000000000000000000000000000000000000000000000000
  {
    hide Pow2;
    Powers();
    Pow2Sum(32, 32);
    Pow2Sum(64, 64);
    Pow2Sum(128, 64);
    Pow2Sum(192, 8);
    Pow2Sum(200, 3);
  }

  lemma Rounded256()
    ensures LowNegated(ORDER_256)
  {
    hide Round, HighStays, LowNegated, Pow2;
    var m := 0x800000000000000000000000000000000000000000000000000;
    Power203();
    RoundedDown(ORDER_256, 203, m, 0x1fffffffe00000, ORDER_256 - 0x1fffffffe00000 * m);
  }

  lemma Power331()
    ensures Pow2(331) == 0x80000000000000000000000000000000000000000000000000000000000000000000000000000000000
  {
    hide Pow2;
    Powers();
    Pow2Sum(32, 32);
    Pow2Sum(64, 64);
    Pow2Sum(128, 128);
    Pow2Sum(256, 64);
    Pow2Sum(320, 8);
    Pow2Sum(328, 3);
  }

  lemma Rounded384()
    ensures HighStays(ORDER_384)
  {
    hide Round, HighStays, LowNegated, Pow2;
    var m := 0x80000000000000000000000000000000000000000000000000000000000000000000000000000000000;
    Power331();
    RoundedUp(ORDER_384, 331, m, ORDER_384 - (TWO_53 - 1) * m);
  }

  lemma Power468()
    ensures Pow2(468) == 0x1000000000000000000000000000000000000000000000000000000000000000000000000000000000000000000000000000000000000000000000
  {
    hide Pow2;
    Powers();
    Pow2Sum(32, 32);
    Pow2Sum(64, 64);
    Pow2Sum(128, 128);
    Pow2Sum(256, 128);
    Pow2Sum(384, 64);
    Pow2Sum(448, 8);
    Pow2Sum(456, 8);
    Pow2Sum(464, 3);
    Pow2Sum(467, 1);
  }

  lemma Rounded521()
    ensures HighStays(ORDER_521)
  {
    hide Round, HighStays, LowNegated, Pow2;
    var m := 0x1000000000000000000000000000000000000000000000000000000000000000000000000000000000000000000000000000000000000000000000;
    Power468();
    RoundedUp(ORDER_521, 468, m, ORDER_521 - (TWO_53 - 1) * m);
  }

  lemma RoundedSecp256k1()
    ensures HighStays(ORDER_SECP256K1)
  {
    hide Round, HighStays, LowNegated, Pow2;
    var m := 0x800000000000000000000000000000000000000000000000000;
    Power203();
    RoundedUp(ORDER_SECP256K1, 203, m, ORDER_SECP256K1 - (TWO_53 - 1) * m);
  }

  // Each of the program's six curves has an s whose form is not low.
  lemma CurveOrdersMiss()
    ensures HighStays(ORDER_192) && HighStays(ORDER_224) && LowNegated(ORDER_256)
    ensures HighStays(ORDER_384) && HighStays(ORDER_521) && HighStays(ORDER_SECP256K1)
  {
    hide HighStays, LowNegated;
    Rounded192();
    Rounded224();
    Rounded256();
    Rounded384();
    Rounded521();
    RoundedSecp256k1();
  }
}
