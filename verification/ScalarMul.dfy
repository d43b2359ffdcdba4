// Point.__mul__ (ecdsa/ellipticcurve.py:109-138): the signed double-and-add loop
// over the bits of 3e and e computes the e-fold sum of the point.
module ScalarMul {
  import opened KconfigExpr
  import opened Modular
  import opened NumberTheory
  import opened EllipticCurve
  import opened CurveGroup

  // P + P + ... + P
  ghost function Multiple(c: Curve, P: Point, k: nat): Point
    requires c.p > 0
  {
    if k == 0 then Infinity else Plus(c, Multiple(c, P, k - 1), P)
  }

  ghost predicate IsGroup(c: Curve) {
    IsPrime(c.p) && Associative(c)
  }

  lemma {:induction false} MultipleElement(c: Curve, P: Point, k: nat)
    requires IsPrime(c.p) && Element(c, P)
    ensures Element(c, Multiple(c, P, k))
  {
    if k > 0 {
      MultipleElement(c, P, k - 1);
      AddOfNorm(c, Multiple(c, P, k - 1), P);
    }
  }

  lemma NormElement(c: Curve, P: Point)
    requires c.p > 0 && Element(c, P)
    ensures Norm(c, P) == P
  {
    if P.Affine? {
      SmallMod(P.x, c.p);
      SmallMod(P.y, c.p);
    }
  }

  lemma PlusZero(c: Curve, P: Point)
    requires c.p > 0 && Element(c, P)
    ensures Plus(c, P, Infinity) == P && Plus(c, Infinity, P) == P
  {
    NormElement(c, P);
  }

  lemma {:induction false} MultipleSum(c: Curve, P: Point, j: nat, k: nat)
    requires IsGroup(c) && Element(c, P)
    ensures Plus(c, Multiple(c, P, j), Multiple(c, P, k)) == Multiple(c, P, j + k)
  {
    MultipleElement(c, P, j);
    if k == 0 {
      PlusZero(c, Multiple(c, P, j));
    } else {
      MultipleSum(c, P, j, k - 1);
      MultipleElement(c, P, k - 1);
      assert AssociativeAt(c, Multiple(c, P, j), Multiple(c, P, k - 1), P);
    }
  }

  lemma {:induction false} MultipleProduct(c: Curve, P: Point, j: nat, k: nat)
    requires IsGroup(c) && Element(c, P)
    ensures Multiple(c, Multiple(c, P, j), k) == Multiple(c, P, j * k)
  {
    var Q := Multiple(c, P, j);
    if k == 0 {
      assert j * k == 0;
    } else {
      var n: nat := j * (k - 1);
      MultipleProduct(c, P, j, k - 1);
      assert Multiple(c, Q, k) == Plus(c, Multiple(c, P, n), Q);
      MultipleSum(c, P, n, j);
      assert n + j == j * k;
    }
  }

  lemma MultipleMinusOne(c: Curve, P: Point, m: nat)
    requires IsGroup(c) && Element(c, P) && m >= 1
    ensures Plus(c, Multiple(c, P, m), Neg(c, P)) == Multiple(c, P, m - 1)
  {
    var T := Multiple(c, P, m - 1);
    MultipleElement(c, P, m - 1);
    NegIsInverse(c, P);
    assert AssociativeAt(c, T, P, Neg(c, P));
    PlusZero(c, T);
  }

  // ---------- powers of two and bits ----------

  function Pow2(k: nat): int {
    if k == 0 then 1 else 2 * Pow2(k - 1)
  }

  lemma {:induction false} Pow2Monotone(j: nat, k: nat)
    requires j <= k
    ensures 1 <= Pow2(j) <= Pow2(k)
    decreases k
  {
    if j < k { Pow2Monotone(j, k - 1); } else if k > 0 { Pow2Monotone(j - 1, k - 1); }
  }

  // (x & i) != 0 for a power of two i
  predicate Bit(x: int, i: int)
    requires i > 0
  {
    x / i % 2 == 1
  }

  // The multiple the loop has reached once the bits of weight w are in.
  function Prefix(e: int, w: int): int
    requires w > 0
  {
    3 * e / w - e / w
  }

  lemma DivIs(x: int, d: int, q: int, r: int)
    requires d > 0 && x == q * d + r && 0 <= r < d
    ensures x / d == q
  {
    var k := x / d - q;
    assert x == (x / d) * d + x % d;
    assert k * d == r - x % d;
    MultipleSize(k, d);
    MultipleSize(-k, d);
  }

  lemma HalfDiv(x: int, i: int)
    requires x >= 0 && i > 0
    ensures x / i == 2 * (x / (2 * i)) + (if Bit(x, i) then 1 else 0)
  {
    var q, r := x / i, x % i;
    var h, b := q / 2, q % 2;
    assert q == 2 * h + b && x == q * i + r;
    assert q * i == h * (2 * i) + b * i;
    assert 0 <= b * i <= i by { if b == 0 { assert b * i == 0; } else { assert b == 1; } }
    DivIs(x, 2 * i, h, b * i + r);
  }

  // One more bit of 3e and of e.
  lemma PrefixStep(e: int, i: int)
    requires e >= 1 && i > 0
    ensures Prefix(e, i) == 2 * Prefix(e, 2 * i) + (if Bit(3 * e, i) then 1 else 0) - (if Bit(e, i) then 1 else 0)
  {
    HalfDiv(3 * e, i);
    HalfDiv(e, i);
  }

  lemma PrefixPositive(e: int, w: int)
    requires e >= 1 && 0 < w <= 3 * e
    ensures Prefix(e, w) >= 1
  {
    var q, r := e / w, e % w;
    var q3, r3 := 3 * e / w, 3 * e % w;
    assert e == q * w + r && 3 * e == q3 * w + r3;
    QuotientGap(w, q, q3, q * w, q3 * w, r, r3);
  }

  lemma QuotientGap(w: int, q: int, q3: int, qw: int, q3w: int, r: int, r3: int)
    requires qw == q * w && q3w == q3 * w && 3 * (qw + r) == q3w + r3 && 0 <= r < w && 0 <= r3 < w
    requires 0 < w <= 3 * (qw + r) && q >= 0
    ensures q3 - q >= 1
  {
    assert (3 * q - q3) * w == 3 * qw - q3w;
    MultipleSize(3 * q - q3, w);
    MultipleSize(-q3, w);
  }

  lemma PrefixFirst(e: int, w: int)
    requires e >= 1 && w <= 3 * e < 2 * w
    ensures Prefix(e, w) == 1
  {
    DivIs(3 * e, w, 1, 3 * e - w);
    DivIs(e, w, 0, e);
  }

  lemma PrefixLast(e: int)
    ensures Prefix(e, 2) == e
  {
  }

  // leftmost_bit
  method LeftmostBit(x: int) returns (r: int, ghost k: nat)
    requires x > 0
    ensures r == Pow2(k) && r <= x < 2 * r
  {
    r, k := 1, 0;
    while r <= x
      invariant r == Pow2(k) && r >= 1 && (k > 0 ==> Pow2(k - 1) <= x)
      decreases x - r
    {
      r := 2 * r;
      k := k + 1;
    }
    k := k - 1;
    r := r / 2;
  }

  // ---------- the loop ----------

  // A point that double cannot handle.
  predicate TwoTorsion(c: Curve, P: Point)
    requires c.p > 0
  {
    P.Affine? && (2 * P.y) % c.p == 0
  }

  // The point that is doubled before the bits of weight 2^k are added.
  ghost function Doubled(c: Curve, P: Point, e: int, k: nat): Point
    requires c.p > 0 && e >= 1
  {
    Pow2Monotone(0, k + 1);
    var m := Prefix(e, Pow2(k + 1));
    if m >= 0 then Multiple(c, P, m) else Infinity
  }

  predicate Reached(e: int, k: nat) {
    Pow2(k + 1) <= 3 * e
  }

  ghost predicate BlockedAbove(c: Curve, P: Point, e: int, low: nat)
    requires c.p > 0 && e >= 1
  {
    exists k: nat :: k > low && Reached(e, k) && TwoTorsion(c, Doubled(c, P, e, k))
  }

  // R stands for m times P.
  ghost predicate Stands(c: Curve, P: Point, R: Point, m: int)
    requires c.p > 0
  {
    Usable(c, R) && m >= 0 && Norm(c, R) == Multiple(c, Norm(c, P), m)
  }

  lemma DoubleStep(c: Curve, P: Point, R: Point, m: int)
    requires IsGroup(c) && Usable(c, P) && Stands(c, P, R, m)
    ensures Double(c, R).None? <==> TwoTorsion(c, Norm(c, R))
    ensures Double(c, R).Some? ==> Stands(c, P, Double(c, R).value, 2 * m)
  {
    NormIsElement(c, P);
    NormIsElement(c, R);
    DoubleFailsIff(c, R);
    DoubleOfNorm(c, R);
    DoubleFailsIff(c, Norm(c, R));
    if Double(c, R).Some? {
      MultipleSum(c, Norm(c, P), m, m);
      DoubleIsPlus(c, Norm(c, R));
      NormElement(c, Double(c, R).value);
    }
  }

  lemma DoubleIsPlus(c: Curve, P: Point)
    requires IsPrime(c.p) && Element(c, P) && Double(c, P).Some?
    ensures Plus(c, P, P) == Norm(c, Double(c, P).value)
  {
    DoubleFailsIff(c, P);
    if P.Affine? { assert P.y + P.y == 2 * P.y; }
  }

  lemma AddSelfStep(c: Curve, P: Point, R: Point, m: int)
    requires IsGroup(c) && Usable(c, P) && Stands(c, P, R, m)
    ensures Add(c, R, P).Some? && Stands(c, P, Add(c, R, P).value, m + 1)
  {
    AddNeverFails(c, R, P);
    AddOfNorm(c, R, P);
    NormIsElement(c, P);
  }

  // negative_self is the negative, with a y that is not reduced.
  lemma NegativeSelf(c: Curve, P: Point)
    requires c.p > 0 && Usable(c, P) && P.Affine?
    ensures var N := Affine(P.x, -P.y); Usable(c, N) && Norm(c, N) == Neg(c, Norm(c, P))
  {
    assert -P.y * -P.y == P.y * P.y;
    SmallMod(P.x, c.p);
    CongMod(P.y, c.p);
    CongRefl(0, c.p);
    CongSub(0, 0, P.y, P.y % c.p, c.p);
    CongIffSameMod(-P.y, -(P.y % c.p), c.p);
  }

  lemma SubtractSelfStep(c: Curve, P: Point, R: Point, m: int)
    requires IsGroup(c) && Usable(c, P) && P.Affine? && Stands(c, P, R, m) && m >= 1
    ensures var N := Affine(P.x, -P.y);
      Add(c, R, N).Some? && Stands(c, P, Add(c, R, N).value, m - 1)
  {
    var N := Affine(P.x, -P.y);
    NegativeSelf(c, P);
    AddNeverFails(c, R, N);
    AddOfNorm(c, R, N);
    NormIsElement(c, P);
    MultipleMinusOne(c, Norm(c, P), m);
  }

  // What e becomes first.
  function Reduced(e: int, order: nat): int {
    if order != 0 then e % order else e
  }

  // The e-fold sum of P. Nothing but a doubling can fail, and it fails exactly
  // when one of the multiples on the way has y = -y.
  method PointMul(c: Curve, P: Point, order: nat, other: int) returns (r: Option<Point>)
    requires IsGroup(c) && Usable(c, P)
    ensures var e := Reduced(other, order);
      && (e == 0 || P.Infinity? ==> r == Some(Infinity))
      && (e < 0 && P.Affine? ==> r == None)
      && (e > 0 && P.Affine? ==> (r.None? <==> BlockedAbove(c, Norm(c, P), e, 0)))
      && (e >= 0 && r.Some? ==> Stands(c, P, r.value, e))
  {
    var e := if order != 0 then other % order else other;
    if e == 0 { return Some(Infinity); }
    if P.Infinity? {
      if e > 0 { InfinityMultiple(c, e); }
      return Some(Infinity);
    }
    if e < 0 { return None; }
    r := Ladder(c, P, e);
  }

  // Lines 126-138
  method Ladder(c: Curve, P: Point, e: int) returns (r: Option<Point>)
    requires IsGroup(c) && Usable(c, P) && P.Affine? && e > 0
    ensures r.None? <==> BlockedAbove(c, Norm(c, P), e, 0)
    ensures r.Some? ==> Stands(c, P, r.value, e)
  {
    var e3 := 3 * e;
    var negativeSelf := Affine(P.x, -P.y);
    var lb;
    ghost var k;
    lb, k := LeftmostBit(e3);
    var i := lb / 2;
    var result := P;
    LadderStart(c, P, e, lb, k);
    k := k - 1;
    while i > 1
      invariant k >= 0 && 0 < i == Pow2(k) && 2 * i <= e3
      invariant Stands(c, P, result, Prefix(e, 2 * i))
      invariant !BlockedAbove(c, Norm(c, P), e, k)
      decreases i
    {
      var d := PointDouble(c, result);
      LadderDouble(c, P, result, e, i, k);
      if d.None? { return None; }
      result := LadderAdds(c, P, negativeSelf, e, i, d.value);
      i := i / 2;
      k := k - 1;
    }
    Pow2Monotone(0, k);
    if k > 0 { Pow2Monotone(1, k); }
    PrefixLast(e);
    r := Some(result);
  }

  lemma LadderStart(c: Curve, P: Point, e: int, lb: int, k: nat)
    requires IsPrime(c.p) && Usable(c, P) && e > 0 && lb == Pow2(k) && lb <= 3 * e < 2 * lb
    ensures k >= 1 && lb / 2 == Pow2(k - 1) && lb == 2 * (lb / 2)
    ensures Stands(c, P, P, Prefix(e, lb))
    ensures !BlockedAbove(c, Norm(c, P), e, k - 1)
  {
    PrefixFirst(e, lb);
    NothingAbove(c, P, e, k);
    OneTimes(c, P);
  }

  // Doubling in one round: it succeeds, or shows that e is blocked.
  lemma LadderDouble(c: Curve, P: Point, R: Point, e: int, i: int, k: nat)
    requires IsGroup(c) && Usable(c, P) && e > 0 && k >= 1 && i == Pow2(k) && 0 < i && 2 * i <= 3 * e
    requires Stands(c, P, R, Prefix(e, 2 * i)) && !BlockedAbove(c, Norm(c, P), e, k)
    ensures Double(c, R).None? ==> BlockedAbove(c, Norm(c, P), e, 0)
    ensures Double(c, R).Some? ==> Stands(c, P, Double(c, R).value, 2 * Prefix(e, 2 * i))
    ensures Double(c, R).Some? ==> !BlockedAbove(c, Norm(c, P), e, k - 1)
  {
    assert Pow2(k + 1) == 2 * i;
    DoubleStep(c, P, R, Prefix(e, 2 * i));
    assert Doubled(c, Norm(c, P), e, k) == Norm(c, R);
    if Double(c, R).Some? {
      BlockedStep(c, Norm(c, P), e, k - 1);
    } else {
      assert Reached(e, k);
    }
  }

  // The additions of one round (lines 133-134)
  method LadderAdds(c: Curve, P: Point, negativeSelf: Point, e: int, i: int, R: Point) returns (result: Point)
    requires IsGroup(c) && Usable(c, P) && P.Affine? && negativeSelf == Affine(P.x, -P.y)
    requires e >= 1 && 0 < i && 2 * i <= 3 * e && Stands(c, P, R, 2 * Prefix(e, 2 * i))
    ensures Stands(c, P, result, Prefix(e, i))
  {
    result := R;
    PrefixPositive(e, 2 * i);
    PrefixStep(e, i);
    if Bit(3 * e, i) && !Bit(e, i) {
      AddSelfStep(c, P, result, 2 * Prefix(e, 2 * i));
      var s := PointAdd(c, result, P);
      result := s.value;
    }
    if !Bit(3 * e, i) && Bit(e, i) {
      SubtractSelfStep(c, P, result, 2 * Prefix(e, 2 * i));
      var s := PointAdd(c, result, negativeSelf);
      result := s.value;
    }
  }

  lemma OneTimes(c: Curve, P: Point)
    requires IsPrime(c.p) && Usable(c, P)
    ensures Stands(c, P, P, 1)
  {
    NormIsElement(c, P);
    PlusZero(c, Norm(c, P));
    assert Multiple(c, Norm(c, P), 0) == Infinity;
  }

  lemma {:induction false} InfinityMultiple(c: Curve, e: nat)
    requires c.p > 0
    ensures Multiple(c, Infinity, e) == Infinity
  {
    if e > 0 { InfinityMultiple(c, e - 1); }
  }

  // The loop starts below the leftmost bit.
  lemma NothingAbove(c: Curve, P: Point, e: int, k: nat)
    requires c.p > 0 && e >= 1 && Pow2(k) <= 3 * e < 2 * Pow2(k)
    ensures k >= 1 && !BlockedAbove(c, Norm(c, P), e, k - 1)
  {
    assert Pow2(0) == 1;
    forall j: nat | j > k - 1 ensures !Reached(e, j) {
      Pow2Monotone(k + 1, j + 1);
    }
  }

  lemma BlockedStep(c: Curve, P: Point, e: int, k: nat)
    requires c.p > 0 && e >= 1
    requires !BlockedAbove(c, P, e, k + 1) && !TwoTorsion(c, Doubled(c, P, e, k + 1))
    ensures !BlockedAbove(c, P, e, k)
  {
  }

  // ---------- when every multiple can be computed ----------

  lemma TwoTorsionSum(c: Curve, R: Point)
    requires c.p > 0 && Element(c, R) && TwoTorsion(c, R)
    ensures Plus(c, R, R) == Infinity
  {
    assert R.y + R.y == 2 * R.y;
  }

  // The loop doubles m times the point on its way to 2m times the point.
  lemma MultipleIsDoubled(c: Curve, P: Point, m: nat)
    requires c.p > 0 && m >= 1
    ensures Reached(2 * m, 1) && Doubled(c, P, 2 * m, 1) == Multiple(c, P, m)
  {
    assert Pow2(1) == 2 * Pow2(0) == 2;
    assert Pow2(2) == 4;
    PrefixStep(2 * m, 2);
    Halves(m);
  }

  lemma Halves(m: nat)
    ensures 3 * (2 * m) / 2 == 3 * m && 2 * m / 2 == m && 3 * m % 2 == m % 2
  {
  }

  // Some e makes the loop fail exactly when some multiple of the point is its
  // own negative.
  lemma FailsIffTwoTorsion(c: Curve, P: Point)
    requires c.p > 0
    ensures (exists e: nat :: e >= 1 && BlockedAbove(c, P, e, 0)) <==> (exists m: nat :: m >= 1 && TwoTorsion(c, Multiple(c, P, m)))
  {
    if e: nat :| e >= 1 && BlockedAbove(c, P, e, 0) {
      var k: nat :| k > 0 && Reached(e, k) && TwoTorsion(c, Doubled(c, P, e, k));
      Pow2Monotone(0, k + 1);
      var m := Prefix(e, Pow2(k + 1));
      PrefixPositive(e, Pow2(k + 1));
      assert TwoTorsion(c, Multiple(c, P, m));
    }
    if m: nat :| m >= 1 && TwoTorsion(c, Multiple(c, P, m)) {
      MultipleIsDoubled(c, P, m);
      var e: nat := 2 * m;
      assert BlockedAbove(c, P, e, 0);
    }
  }

  // A point of odd order has no such multiple, so the loop never fails for it.
  lemma OddOrderNeverFails(c: Curve, P: Point, n: nat, m: nat)
    requires IsGroup(c) && Element(c, P) && n % 2 == 1 && Multiple(c, P, n) == Infinity
    ensures !TwoTorsion(c, Multiple(c, P, m))
  {
    var R := Multiple(c, P, m);
    MultipleElement(c, P, m);
    // nR = m(nP) = Infinity
    MultipleProduct(c, P, m, n);
    MultipleProduct(c, P, n, m);
    InfinityMultiple(c, m);
    assert m * n == n * m;
    if TwoTorsion(c, R) { OddMultipleOfTwoTorsion(c, R, n); }
  }

  // nR = 2jR + R = R
  lemma OddMultipleOfTwoTorsion(c: Curve, R: Point, n: nat)
    requires IsGroup(c) && Element(c, R) && n % 2 == 1 && TwoTorsion(c, R)
    ensures Multiple(c, R, n) == R
  {
    var j := n / 2;
    TwoTorsionSum(c, R);
    PlusZero(c, R);
    assert Multiple(c, R, 1) == Plus(c, Multiple(c, R, 0), R) == R;
    assert Multiple(c, R, 2) == Plus(c, Multiple(c, R, 1), R) == Infinity;
    MultipleProduct(c, R, 2, j);
    InfinityMultiple(c, j);
    assert Multiple(c, R, n) == Plus(c, Multiple(c, R, 2 * j), R);
  }

  lemma NotBlocked(c: Curve, P: Point, n: nat, e: nat)
    requires IsGroup(c) && Element(c, P) && n % 2 == 1 && Multiple(c, P, n) == Infinity && e >= 1
    ensures !BlockedAbove(c, P, e, 0)
  {
    forall k: nat | k > 0 && Reached(e, k) ensures !TwoTorsion(c, Doubled(c, P, e, k)) {
      Pow2Monotone(0, k + 1);
      PrefixPositive(e, Pow2(k + 1));
      OddOrderNeverFails(c, P, n, Prefix(e, Pow2(k + 1)));
    }
  }

  // Multiplying by 1 doubles nothing that anything is added to.
  lemma OneNeverBlocked(c: Curve, P: Point)
    requires c.p > 0
    ensures !BlockedAbove(c, P, 1, 0)
  {
    forall k: nat | k > 0 ensures !Reached(1, k) {
      assert Pow2(1) == 2 * Pow2(0) == 2;
      assert Pow2(2) == 2 * Pow2(1);
      Pow2Monotone(2, k + 1);
    }
  }

  // A point that is its own negative can be multiplied by 1 (and, with the sum
  // Infinity, by 0); every other multiplication fails, although the multiple exists.
  lemma OwnNegativeFails(c: Curve, P: Point, e: nat)
    requires IsPrime(c.p) && Element(c, P) && TwoTorsion(c, P) && e >= 1
    ensures BlockedAbove(c, P, e, 0) <==> e >= 2
  {
    if e == 1 {
      OneNeverBlocked(c, P);
    } else {
      var k := TopBit(3 * e);
      PrefixFirst(e, Pow2(k));
      if k <= 1 { Pow2Monotone(k, 1); }
      assert k >= 2 by { assert Pow2(1) == 2 * Pow2(0) == 2; }
      PlusZero(c, P);
      assert Multiple(c, P, 1) == Plus(c, Multiple(c, P, 0), P) == P;
      assert Reached(e, k - 1) && Doubled(c, P, e, k - 1) == P;
    }
  }

  lemma {:induction false} TopBit(x: nat) returns (k: nat)
    requires x >= 1
    ensures Pow2(k) <= x < 2 * Pow2(k)
  {
    if x == 1 {
      k := 0;
    } else {
      var j := TopBit(x / 2);
      k := j + 1;
    }
  }
}
