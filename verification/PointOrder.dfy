// When Point.__mul__ (ecdsa/ellipticcurve.py:109-138) fails, in terms of the order
// of the point: some doubling on the way meets the point of order 2.
module PointOrder {
  import opened KconfigExpr
  import opened Modular
  import opened NumberTheory
  import opened EllipticCurve
  import opened CurveGroup
  import opened ScalarMul

  // ---------- multipliers count modulo the order ----------

  lemma {:induction false} MultiplePeriod(c: Curve, P: Point, n: nat, k: nat, j: nat)
    requires IsGroup(c) && Element(c, P) && Multiple(c, P, n) == Infinity
    ensures Multiple(c, P, k + j * n) == Multiple(c, P, k)
  {
    MultipleProduct(c, P, n, j);
    InfinityMultiple(c, j);
    assert n * j == j * n;
    MultipleSum(c, P, k, j * n);
    MultipleElement(c, P, k);
    PlusZero(c, Multiple(c, P, k));
  }

  // Multipliers count modulo the order.
  lemma SameMultiple(c: Curve, P: Point, n: nat, j: nat, k: nat)
    requires IsGroup(c) && Element(c, P) && Multiple(c, P, n) == Infinity && n > 0 && Cong(j, k, n)
    ensures Multiple(c, P, j) == Multiple(c, P, k)
  {
    if j < k {
      CongSym(j, k, n);
      MultipleAbove(c, P, n, k, j);
    } else {
      MultipleAbove(c, P, n, j, k);
    }
  }

  lemma MultipleAbove(c: Curve, P: Point, n: nat, j: nat, k: nat)
    requires IsGroup(c) && Element(c, P) && Multiple(c, P, n) == Infinity && n > 0 && Cong(j, k, n) && j >= k
    ensures Multiple(c, P, j) == Multiple(c, P, k)
  {
    var q := Quotient(n, j - k);
    MultipleSize(q, n);
    assert q >= 0;
    MultiplePeriod(c, P, n, k, q);
  }

  // The order of P: its first multiple that is the point at infinity.
  ghost predicate LeastOrder(c: Curve, P: Point, N: nat)
    requires c.p > 0
  {
    N > 0 && Multiple(c, P, N) == Infinity && forall j | 0 < j < N :: Multiple(c, P, j) != Infinity
  }

  lemma ZeroIffOrderDivides(c: Curve, P: Point, N: nat, k: nat)
    requires IsGroup(c) && Element(c, P) && LeastOrder(c, P, N)
    ensures Multiple(c, P, k) == Infinity <==> k % N == 0
  {
    CongMod(k, N);
    SameMultiple(c, P, N, k % N, k);
    assert Multiple(c, P, 0) == Infinity;
  }

  // A multiplier reduced modulo the order of the point, which __mul__ does first,
  // gives the same multiple.
  lemma ReducedSame(c: Curve, P: Point, n: nat, e: nat)
    requires IsGroup(c) && Element(c, P) && Multiple(c, P, n) == Infinity && n > 0
    ensures 0 <= Reduced(e, n) < n && Multiple(c, P, Reduced(e, n)) == Multiple(c, P, e)
  {
    CongMod(e, n);
    SameMultiple(c, P, n, e % n, e);
  }

  // ---------- the point of order 2 ----------

  lemma TwoTorsionIff(c: Curve, R: Point)
    requires IsPrime(c.p) && Element(c, R)
    ensures TwoTorsion(c, R) <==> R.Affine? && Plus(c, R, R) == Infinity
  {
    DoubleFailsIff(c, R);
    if R.Affine? { assert R.y + R.y == 2 * R.y; }
  }

  lemma TwoTorsionMultiple(c: Curve, P: Point, N: nat, m: nat)
    requires IsGroup(c) && Element(c, P) && LeastOrder(c, P, N)
    ensures TwoTorsion(c, Multiple(c, P, m)) <==> N % 2 == 0 && m % N == N / 2
  {
    MultipleElement(c, P, m);
    TwoTorsionIff(c, Multiple(c, P, m));
    MultipleSum(c, P, m, m);
    ZeroIffOrderDivides(c, P, N, m);
    ZeroIffOrderDivides(c, P, N, m + m);
    HalfOfOrder(N, m);
  }

  lemma HalfOfOrder(N: nat, m: nat)
    requires N > 0
    ensures m % N != 0 && (m + m) % N == 0 <==> N % 2 == 0 && m % N == N / 2
  {
    var q, r := m / N, m % N;
    assert m == q * N + r && 0 <= r < N;
    assert m + m == 2 * q * N + 2 * r;
    if 2 * r < N {
      RemainderIs(m + m, N, 2 * q, 2 * r);
    } else {
      assert (2 * q + 1) * N == 2 * q * N + N;
      RemainderIs(m + m, N, 2 * q + 1, 2 * r - N);
    }
  }

  lemma RemainderIs(x: int, d: int, q: int, r: int)
    requires d > 0 && x == q * d + r && 0 <= r < d
    ensures x % d == r
  {
    DivIs(x, d, q, r);
    assert x == (x / d) * d + x % d;
  }

  // ---------- when a multiplication fails ----------

  // For a point of order N: N is even, and half of it is, modulo N, one of the
  // prefixes of the recoded multiplier that are doubled.
  lemma MulFailsIff(c: Curve, P: Point, N: nat, e: nat)
    requires IsGroup(c) && Element(c, P) && LeastOrder(c, P, N) && e >= 1
    ensures BlockedAbove(c, P, e, 0) <==>
      N % 2 == 0 && exists k: nat :: k > 0 && Reached(e, k) && PrefixAbove(e, k) % N == N / 2
  {
    forall k: nat | k > 0 && Reached(e, k)
      ensures TwoTorsion(c, Doubled(c, P, e, k)) <==> N % 2 == 0 && PrefixAbove(e, k) % N == N / 2
    {
      Pow2Monotone(0, k + 1);
      PrefixPositive(e, Pow2(k + 1));
      TwoTorsionMultiple(c, P, N, PrefixAbove(e, k));
    }
  }

  // The multiple that is doubled before the bits of weight 2^k are added.
  function PrefixAbove(e: nat, k: nat): int {
    Pow2Monotone(0, k + 1);
    Prefix(e, Pow2(k + 1))
  }

  // So exactly the points of even order have multiples that cannot be computed,
  // the N-fold among them, which is the point at infinity.
  lemma FailsIffEvenOrder(c: Curve, P: Point, N: nat)
    requires IsGroup(c) && Element(c, P) && LeastOrder(c, P, N)
    ensures N >= 1 && (BlockedAbove(c, P, N, 0) <==> N % 2 == 0)
    ensures (exists e: nat :: e >= 1 && BlockedAbove(c, P, e, 0)) <==> N % 2 == 0
  {
    hide BlockedAbove, LeastOrder, Multiple;
    OrderIsPositive(c, P, N);
    if e: nat :| e >= 1 && BlockedAbove(c, P, e, 0) { FailsOnlyIfEven(c, P, N, e); }
    if N % 2 == 0 { EvenFails(c, P, N, N / 2); }
  }

  lemma FailsOnlyIfEven(c: Curve, P: Point, N: nat, e: nat)
    requires IsGroup(c) && Element(c, P) && LeastOrder(c, P, N) && e >= 1 && BlockedAbove(c, P, e, 0)
    ensures N % 2 == 0
  {
    hide BlockedAbove, LeastOrder, Multiple, IsGroup, Element;
    MulFailsIff(c, P, N, e);
  }

  lemma EvenFails(c: Curve, P: Point, N: nat, m: nat)
    requires IsGroup(c) && Element(c, P) && LeastOrder(c, P, N) && N == 2 * m
    ensures m >= 1 && BlockedAbove(c, P, N, 0)
  {
    hide BlockedAbove, LeastOrder, Multiple, Element;
    OrderIsPositive(c, P, N);
    TwoTorsionMultiple(c, P, N, m);
    TwiceFails(c, P, m);
  }

  lemma OrderIsPositive(c: Curve, P: Point, N: nat)
    requires c.p > 0 && LeastOrder(c, P, N)
    ensures N > 0
  {
  }

  lemma TwiceFails(c: Curve, P: Point, m: nat)
    requires c.p > 0 && m >= 1 && TwoTorsion(c, Multiple(c, P, m))
    ensures BlockedAbove(c, P, 2 * m, 0)
  {
    hide Multiple, Doubled, Reached, TwoTorsion;
    MultipleIsDoubled(c, P, m);
    assert Reached(2 * m, 1) && TwoTorsion(c, Doubled(c, P, 2 * m, 1));
  }

  // ---------- every point of the curve has an order ----------

  lemma LeastOrderExists(c: Curve, P: Point) returns (N: nat)
    requires IsGroup(c) && Element(c, P)
    ensures LeastOrder(c, P, N)
  {
    var i, j := MultiplesRepeat(c, P);
    Difference(c, P, i, j);
    N := Least(c, P, j - i);
  }

  lemma {:induction false} Least(c: Curve, P: Point, n: nat) returns (N: nat)
    requires c.p > 0 && n > 0 && Multiple(c, P, n) == Infinity
    ensures LeastOrder(c, P, N)
  {
    if j :| 0 < j < n && Multiple(c, P, j) == Infinity {
      N := Least(c, P, j);
    } else {
      N := n;
    }
  }

  // Equal multiples differ by a multiple that is infinity.
  lemma Difference(c: Curve, P: Point, i: nat, j: nat)
    requires IsGroup(c) && Element(c, P) && i <= j && Multiple(c, P, i) == Multiple(c, P, j)
    ensures Multiple(c, P, j - i) == Infinity
  {
    var X, D := Multiple(c, P, i), Multiple(c, P, j - i);
    MultipleElement(c, P, i);
    MultipleElement(c, P, j - i);
    MultipleSum(c, P, i, j - i);
    NegIsInverse(c, X);
    PlusCommutes(c, X, Neg(c, X));
    // D = (-X + X) + D = -X + (X + D) = -X + X
    assert AssociativeAt(c, Neg(c, X), X, D);
    PlusZero(c, D);
  }

  // The points are finitely many.
  function Code(c: Curve, P: Point): int {
    if P.Infinity? then 0 else 1 + P.x * c.p + P.y
  }

  lemma CodeBounds(c: Curve, P: Point)
    requires c.p > 0 && Element(c, P)
    ensures 0 <= Code(c, P) < 1 + c.p * c.p
  {
    if P.Affine? {
      MulMono(P.x, c.p, c.p - 1, c.p);
      assert (c.p - 1) * c.p == c.p * c.p - c.p;
    }
  }

  lemma CodeIsInjective(c: Curve, P: Point, Q: Point)
    requires c.p > 0 && Element(c, P) && Element(c, Q) && Code(c, P) == Code(c, Q)
    ensures P == Q
  {
    CodeBounds(c, P);
    if P.Infinity? {
      if Q.Affine? { MulMono(0, 0, Q.x, c.p); }
    } else if Q.Infinity? {
      MulMono(0, 0, P.x, c.p);
    } else {
      DivIs(Code(c, P) - 1, c.p, P.x, P.y);
      DivIs(Code(c, Q) - 1, c.p, Q.x, Q.y);
    }
  }

  lemma MultiplesRepeat(c: Curve, P: Point) returns (i: nat, j: nat)
    requires IsGroup(c) && Element(c, P)
    ensures i < j && Multiple(c, P, i) == Multiple(c, P, j)
  {
    var b: nat := 1 + c.p * c.p;
    var codes := seq(b + 1, k requires k >= 0 => Code(c, Multiple(c, P, k)));
    forall k | 0 <= k < |codes| ensures 0 <= codes[k] < b {
      MultipleElement(c, P, k);
      CodeBounds(c, Multiple(c, P, k));
    }
    i, j := Pigeonhole(codes, b);
    MultipleElement(c, P, i);
    MultipleElement(c, P, j);
    CodeIsInjective(c, Multiple(c, P, i), Multiple(c, P, j));
  }

  // More numbers below b than b: one comes twice.
  lemma {:induction false} Pigeonhole(s: seq<int>, b: nat) returns (i: nat, j: nat)
    requires |s| > b && forall k | 0 <= k < |s| :: 0 <= s[k] < b
    ensures i < j < |s| && s[i] == s[j]
    decreases b
  {
    var last := |s| - 1;
    if k :| 0 <= k < last && s[k] == s[last] {
      i, j := k, last;
    } else {
      // The place of the last number goes to b - 1.
      var t := seq(last, k requires 0 <= k < last => if s[k] == b - 1 then s[last] else s[k]);
      i, j := Pigeonhole(t, b - 1);
    }
  }
}
