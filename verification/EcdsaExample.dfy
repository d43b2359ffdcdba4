// Two small curves. On the first the hypotheses of the signature theorems are met
// and a signature is rejected by its own key, on the second a multiplication fails.
module EcdsaExample {
  import opened KconfigExpr
  import opened Modular
  import opened NumberTheory
  import opened EllipticCurve
  import opened CurveGroup
  import opened ScalarMul
  import opened Ecdsa

  // ---------- a group of seven multiples of one point ----------

  ghost predicate SumAt(c: Curve, t: seq<Point>, i: nat, j: nat)
    requires c.p > 0 && |t| == 7 && i < 7 && j < 7
  {
    Plus(c, t[i], t[j]) == t[(i + j) % 7]
  }

  // The elements are those of t, and they add up as their positions do modulo 7.
  ghost predicate Cyclic(c: Curve, t: seq<Point>) {
    && c.p > 0 && |t| == 7 && t[0] == Infinity
    && (forall P {:trigger Element(c, P)} :: Element(c, P) <==> P in t)
    && (forall i: nat, j: nat {:trigger SumAt(c, t, i, j)} | i < 7 && j < 7 :: SumAt(c, t, i, j))
  }

  lemma CyclicAssociative(c: Curve, t: seq<Point>)
    requires Cyclic(c, t)
    ensures Associative(c)
  {
    forall P, Q, R | Element(c, P) && Element(c, Q) && Element(c, R) ensures AssociativeAt(c, P, Q, R) {
      var i: nat :| i < |t| && t[i] == P;
      var j: nat :| j < |t| && t[j] == Q;
      var k: nat :| k < |t| && t[k] == R;
      var ij, jk := (i + j) % 7, (j + k) % 7;
      assert SumAt(c, t, i, j) && SumAt(c, t, j, k) && SumAt(c, t, ij, k) && SumAt(c, t, i, jk);
      SumOfPositions(i, j, k);
    }
  }

  lemma SumOfPositions(i: nat, j: nat, k: nat)
    ensures ((i + j) % 7 + k) % 7 == (i + (j + k) % 7) % 7
  {
    var u, v := (i + j) / 7, (j + k) / 7;
    SameRest((i + j) % 7 + k, i + (j + k) % 7, v - u);
  }

  lemma SameRest(a: int, b: int, q: int)
    requires a - b == 7 * q
    ensures a % 7 == b % 7
  {
  }

  lemma {:induction false} CyclicMultiples(c: Curve, t: seq<Point>, k: nat)
    requires Cyclic(c, t)
    ensures Multiple(c, t[1], k) == t[k % 7]
  {
    if k > 0 {
      CyclicMultiples(c, t, k - 1);
      assert SumAt(c, t, (k - 1) % 7, 1);
      NextPosition(k);
    }
  }

  lemma NextPosition(k: nat)
    requires k > 0
    ensures ((k - 1) % 7 + 1) % 7 == k % 7
  {
  }

  // ---------- adding two points with given numbers ----------

  lemma InverseWith(d: int, p: int, inv: int)
    requires p > 1 && 1 <= inv < p && (d * inv) % p == 1
    ensures Inverse(d, p) == Some(inv)
  {
    CongMod(d * inv, p);
    CongSym(1, d * inv, p);
    InverseIs(d, p, inv);
  }

  // What has to be checked of the numbers of two points in t: the inverse, the
  // slope and the third point, modulo 11.
  predicate ChordAt(t: seq<Point>, i: nat, j: nat, inv: int, l: int)
    requires |t| == 7 && i < 7 && j < 7
  {
    var P, Q := t[i], t[j];
    && P.Affine? && Q.Affine? && P.x != Q.x && 1 <= inv < 11
    && ((Q.x - P.x) * inv) % 11 == 1 && l == ((Q.y - P.y) * inv) % 11 && t[(i + j) % 7] == Third(P, Q.x, l)
  }

  predicate TangentAt(t: seq<Point>, i: nat, inv: int, l: int)
    requires |t| == 7 && i < 7
  {
    var P := t[i];
    && P.Affine? && (P.y + P.y) % 11 != 0 && 1 <= inv < 11
    && (2 * P.y * inv) % 11 == 1 && l == ((3 * P.x * P.x + 2) * inv) % 11 && t[(i + i) % 7] == Third(P, P.x, l)
  }

  function Third(P: Point, x2: int, l: int): Point
    requires P.Affine?
  {
    var x3 := (l * l - P.x - x2) % 11;
    Affine(x3, (l * (P.x - x3) - P.y) % 11)
  }

  // ---------- y^2 = x^3 + 2x + 7 modulo 11 ----------

  const SMALL := Curve(11, 2, 7)

  const POINTS := [Infinity, Affine(6, 2), Affine(10, 9), Affine(7, 10), Affine(7, 1), Affine(10, 2), Affine(6, 9)]

  lemma SevenAndElevenArePrime()
    ensures IsPrime(7) && IsPrime(11)
  {
    forall d | 2 <= d < 7 ensures !Divides(d, 7) { DividesIffMod(d, 7); }
    forall d | 2 <= d < 11 ensures !Divides(d, 11) { DividesIffMod(d, 11); }
  }

  // The inverses and slopes of the chords and of the tangents.
  lemma ChordEntry(t: seq<Point>, i: nat, j: nat) returns (inv: int, l: int)
    requires t == POINTS && 1 <= i < j < 7 && i + j != 7
    ensures ChordAt(t, i, j, inv, l)
  {
    PointsAre(t);
    if i == 1 && j == 2 { inv, l := 3, 10; }
    else if i == 1 && j == 3 { inv, l := 1, 8; }
    else if i == 1 && j == 4 { inv, l := 1, 10; }
    else if i == 1 && j == 5 { inv, l := 3, 0; }
    else if i == 2 && j == 3 { inv, l := 7, 7; }
    else if i == 2 && j == 4 { inv, l := 7, 10; }
    else if i == 2 && j == 6 { inv, l := 8, 0; }
    else if i == 3 && j == 5 { inv, l := 4, 1; }
    else if i == 3 && j == 6 { inv, l := 10, 1; }
    else if i == 4 && j == 5 { inv, l := 4, 4; }
    else if i == 4 && j == 6 { inv, l := 10, 3; }
    else { inv, l := 8, 1; }
  }

  lemma TangentEntry(t: seq<Point>, i: nat) returns (inv: int, l: int)
    requires t == POINTS && 1 <= i < 7
    ensures TangentAt(t, i, inv, l)
  {
    PointsAre(t);
    if i == 1 { inv, l := 3, 0; }
    else if i == 2 { inv, l := 8, 7; }
    else if i == 3 { inv, l := 5, 8; }
    else if i == 4 { inv, l := 6, 3; }
    else if i == 5 { inv, l := 3, 4; }
    else { inv, l := 8, 0; }
  }

  lemma PointsAre(t: seq<Point>)
    requires t == POINTS
    ensures t[1] == Affine(6, 2) && t[2] == Affine(10, 9) && t[3] == Affine(7, 10)
    ensures t[4] == Affine(7, 1) && t[5] == Affine(10, 2) && t[6] == Affine(6, 9) && t[0] == Infinity
  {
  }

  // Nothing but the parameters of the curve and the table is needed from here on.
  ghost predicate Given(c: Curve, t: seq<Point>) {
    && c.p == 11 && c.a == 2 && IsPrime(11) && |t| == 7 && t[0] == Infinity
    && (forall P | P in t :: Element(c, P))
    && (forall i | 1 <= i < 7 :: t[i].Affine? && t[7 - i] == Neg(c, t[i]))
  }

  lemma ChordAdds(c: Curve, t: seq<Point>, i: nat, j: nat, inv: int, l: int)
    requires Given(c, t) && i < 7 && j < 7 && ChordAt(t, i, j, inv, l)
    ensures SumAt(c, t, i, j)
  {
    assert t[i] in t && t[j] in t;
    InverseWith(t[j].x - t[i].x, c.p, inv);
    var l', x3, y3 := PlusOfChord(c, t[i], t[j], inv);
  }

  lemma TangentAdds(c: Curve, t: seq<Point>, i: nat, inv: int, l: int)
    requires Given(c, t) && i < 7 && TangentAt(t, i, inv, l)
    ensures SumAt(c, t, i, i)
  {
    assert t[i] in t;
    InverseWith(2 * t[i].y, c.p, inv);
    var l', x3, y3 := PlusOfTangent(c, t[i], inv);
  }

  lemma SumInOrder(c: Curve, t: seq<Point>, i: nat, j: nat)
    requires Given(c, t) && t == POINTS && 1 <= i <= j < 7
    ensures SumAt(c, t, i, j)
  {
    if i + j == 7 {
      OppositeAdds(c, t, i);
    } else if i == j {
      var inv, l := TangentEntry(t, i);
      TangentAdds(c, t, i, inv, l);
    } else {
      var inv, l := ChordEntry(t, i, j);
      ChordAdds(c, t, i, j, inv, l);
    }
  }

  lemma OppositeAdds(c: Curve, t: seq<Point>, i: nat)
    requires Given(c, t) && 1 <= i < 7
    ensures SumAt(c, t, i, 7 - i)
  {
    assert t[i] in t;
    NegIsInverse(c, t[i]);
  }

  lemma ZeroAdds(c: Curve, t: seq<Point>, i: nat)
    requires Given(c, t) && i < 7
    ensures SumAt(c, t, i, 0) && SumAt(c, t, 0, i)
  {
    assert t[i] in t;
    PlusZero(c, t[i]);
  }

  lemma SwappedAdds(c: Curve, t: seq<Point>, i: nat, j: nat)
    requires Given(c, t) && i < 7 && j < 7 && SumAt(c, t, i, j)
    ensures SumAt(c, t, j, i)
  {
    assert t[i] in t && t[j] in t;
    PlusCommutes(c, t[i], t[j]);
  }

  lemma SumInAnyOrder(c: Curve, t: seq<Point>, i: nat, j: nat)
    requires Given(c, t) && t == POINTS && i < 7 && j < 7
    ensures SumAt(c, t, i, j)
  {
    if i == 0 {
      ZeroAdds(c, t, j);
    } else if j == 0 {
      ZeroAdds(c, t, i);
    } else if i <= j {
      SumInOrder(c, t, i, j);
    } else {
      SumInOrder(c, t, j, i);
      SwappedAdds(c, t, j, i);
    }
  }

  // ---------- its points ----------

  function CubicRest(x: int): int {
    if x == 0 then 7 else if x == 1 then 10 else if x == 2 then 8 else if x == 3 then 7 else if x == 4 then 2
    else if x == 5 then 10 else if x == 6 then 4 else if x == 7 then 1 else if x == 8 then 7 else if x == 9 then 6 else 4
  }

  function SquareRest(y: int): int {
    if y == 0 then 0 else if y == 1 || y == 10 then 1 else if y == 2 || y == 9 then 4 else if y == 3 || y == 8 then 9
    else if y == 4 || y == 7 then 5 else 3
  }

  lemma Rests(x: int)
    requires 0 <= x < 11
    ensures (x * x) % 11 == SquareRest(x) && (x * x * x + 2 * x + 7) % 11 == CubicRest(x)
  {
    if x == 0 {} else if x == 1 {} else if x == 2 {} else if x == 3 {} else if x == 4 {} else if x == 5 {}
    else if x == 6 {} else if x == 7 {} else if x == 8 {} else if x == 9 {} else { assert x == 10; }
  }

  lemma ContainsIff(c: Curve, x: int, y: int)
    requires c == SMALL && 0 <= x < 11 && 0 <= y < 11
    ensures Contains(c, x, y) <==> SquareRest(y) == CubicRest(x)
  {
    Rests(x);
    Rests(y);
    assert Cubic(c, x) == x * x * x + 2 * x + 7;
    DifferenceMod(y * y, Cubic(c, x));
  }

  lemma DifferenceMod(u: int, v: int)
    ensures (u - v) % 11 == 0 <==> u % 11 == v % 11
  {
  }

  predicate Listed(P: Point) {
    P.Affine? ==> (P.x == 6 && (P.y == 2 || P.y == 9)) || (P.x == 7 && (P.y == 1 || P.y == 10))
                  || (P.x == 10 && (P.y == 2 || P.y == 9))
  }

  lemma ElementIff(c: Curve, P: Point)
    requires c == SMALL
    ensures Element(c, P) <==> Listed(P)
  {
    if P.Affine? && 0 <= P.x < 11 && 0 <= P.y < 11 { ContainsIff(c, P.x, P.y); }
  }

  lemma ListedIff(t: seq<Point>, P: Point)
    requires t == POINTS
    ensures P in t <==> Listed(P)
  {
    PointsAre(t);
    if P in t {
      var i :| 0 <= i < 7 && t[i] == P;
    } else {
      assert P != t[0] && P != t[1] && P != t[2] && P != t[3] && P != t[4] && P != t[5] && P != t[6];
    }
  }

  lemma SmallIsGiven(c: Curve, t: seq<Point>)
    requires c == SMALL && t == POINTS
    ensures Given(c, t) && (forall P :: Element(c, P) <==> P in t)
  {
    SevenAndElevenArePrime();
    PointsAre(t);
    forall P ensures Element(c, P) <==> P in t { ElementIff(c, P); ListedIff(t, P); }
    forall i | 1 <= i < 7 ensures t[i].Affine? && t[7 - i] == Neg(c, t[i]) {}
  }

  lemma SmallIsCyclic(c: Curve, t: seq<Point>)
    requires c == SMALL && t == POINTS
    ensures Cyclic(c, t)
  {
    SmallIsGiven(c, t);
    forall i: nat, j: nat | i < 7 && j < 7 ensures SumAt(c, t, i, j) { SumInAnyOrder(c, t, i, j); }
  }

  lemma SmallDomain(d: Domain)
    requires d == Domain(SMALL, Affine(6, 2), 7)
    ensures ValidDomain(d)
    ensures forall k: nat :: Multiple(d.c, d.G, k) == POINTS[k % 7]
  {
    var t := POINTS;
    PointsAre(t);
    SevenAndElevenArePrime();
    SmallIsCyclic(d.c, t);
    CyclicAssociative(d.c, t);
    forall k: nat ensures Multiple(d.c, d.G, k) == t[k % 7] { CyclicMultiples(d.c, t, k); }
    assert Multiple(d.c, d.G, 7) == t[0];
    assert t[1] in t;
  }

  // Signing and verifying with the secret key 1 where t holds the multiples of G.
  method SignInGroup(d: Domain, t: seq<Point>, hash: int, randomK: int) returns (res: SignResult, accepted: Option<bool>)
    requires ValidDomain(d) && d.n == 7 && |t| == 7 && t[1] == d.G && t[0] == Infinity
    requires forall i | 1 <= i < 7 :: t[i].Affine? && t[i].x != 0
    requires forall k: nat :: Multiple(d.c, d.G, k) == t[k % 7]
    ensures res.Signed? <==> randomK % 7 != 0 && (hash + t[randomK % 7].x) % 7 != 0
    ensures res.Signed? ==> accepted == Some(t[randomK % 7].x < 7)
  {
    ghost var k := randomK % 7;
    NormElement(d.c, d.G);
    assert Multiple(d.c, d.G, 1) == t[1 % 7] && Multiple(d.c, d.G, k) == t[k % 7] == t[k];
    res := Sign(d, 1, hash, randomK);
    accepted := None;
    if res.Signed? {
      accepted := Verifies(d, d.G, 7, 1, hash, res.r, res.s);
      SignatureVerifies(d, 1, hash, k, res.r, res.s);
    }
  }

  lemma PointXs(t: seq<Point>)
    requires t == POINTS
    ensures t[0] == Infinity && t[1] == Affine(6, 2)
    ensures forall i | 1 <= i < 7 :: t[i].Affine? && t[i].x != 0 && (t[i].x < 7 <==> i == 1 || i == 6)
  {
    PointsAre(t);
  }

  // The secret key 1, whose point has both coordinates in the range the
  // constructor of Public_key asks for. Two of the six multipliers give a signature
  // its own key accepts; the points of the other four have x >= 7.
  method SignWithOwnKey(hash: int, randomK: int) returns (res: SignResult, accepted: Option<bool>)
    ensures res.Signed? <==> randomK % 7 != 0 && (hash + POINTS[randomK % 7].x) % 7 != 0
    ensures res.Signed? ==> accepted == Some(randomK % 7 == 1 || randomK % 7 == 6)
  {
    hide ValidDomain, Multiple, Accepts;
    var d, t := Domain(SMALL, Affine(6, 2), 7), POINTS;
    SmallDomain(d);
    PointXs(t);
    res, accepted := SignInGroup(d, t, hash, randomK);
  }

  // ---------- y^2 = x^3 + 2x modulo 3 ----------

  const FLAT := Curve(3, 2, 0)

  lemma ThreeIsPrime()
    ensures IsPrime(3)
  {
    forall d | 2 <= d < 3 ensures !Divides(d, 3) { DividesIffMod(d, 3); }
  }

  predicate OnAxis(P: Point) {
    P.Affine? ==> 0 <= P.x < 3 && P.y == 0
  }

  lemma FlatElement(c: Curve, P: Point)
    requires c == FLAT
    ensures Element(c, P) <==> OnAxis(P)
  {
    if P.Affine? && 0 <= P.x < 3 && 0 <= P.y < 3 { FlatContains(c, P.x, P.y); }
  }

  lemma FlatContains(c: Curve, x: int, y: int)
    requires c.p == 3 && c.a == 2 && c.b == 0 && 0 <= x < 3 && 0 <= y < 3
    ensures Contains(c, x, y) <==> y == 0
  {
    CubeMod3(x);
    assert Cubic(c, x) == x * x * x + 2 * x;
    SquareMod3(y, Cubic(c, x));
  }

  lemma CubeMod3(x: int)
    requires 0 <= x < 3
    ensures (x * x * x + 2 * x) % 3 == 0
  {
    if x == 0 { assert x * x * x == 0; } else if x == 1 { assert x * x * x == 1; } else { assert x * x * x == 8; }
  }

  lemma SquareMod3(y: int, v: int)
    requires 0 <= y < 3 && v % 3 == 0
    ensures (y * y - v) % 3 == 0 <==> y == 0
  {
    if y == 0 { assert y * y == 0; } else if y == 1 { assert y * y == 1; } else { assert y * y == 4; }
  }

  function FlatSum(P: Point, Q: Point): Point {
    if Q.Infinity? then P else if P.Infinity? then Q
    else if P.x == Q.x then Infinity else Affine(3 - P.x - Q.x, 0)
  }

  lemma FlatPlus(c: Curve, P: Point, Q: Point)
    requires c == FLAT && OnAxis(P) && OnAxis(Q)
    ensures Plus(c, P, Q) == FlatSum(P, Q) && OnAxis(FlatSum(P, Q))
  {
    FlatElement(c, P);
    FlatElement(c, Q);
    FlatPlusOf(c, P, Q);
  }

  lemma FlatPlusOf(c: Curve, P: Point, Q: Point)
    requires c.p == 3 && Element(c, P) && Element(c, Q) && OnAxis(P) && OnAxis(Q)
    ensures Plus(c, P, Q) == FlatSum(P, Q)
  {
    PlusZero(c, P);
    PlusZero(c, Q);
    if P.Affine? && Q.Affine? && P.x != Q.x { FlatChord(c, P, Q, (Q.x - P.x) % 3); }
  }

  lemma FlatChord(c: Curve, P: Point, Q: Point, inv: int)
    requires c.p == 3 && OnCurve(c, P) && OnCurve(c, Q) && OnAxis(P) && OnAxis(Q) && P.Affine? && Q.Affine?
    requires P.x != Q.x && inv == (Q.x - P.x) % 3
    ensures Plus(c, P, Q) == FlatSum(P, Q)
  {
    OwnInverse(Q.x - P.x, inv);
    InverseWith(Q.x - P.x, 3, inv);
    var l, x3, y3 := PlusOfChord(c, P, Q, inv);
    FlatNumbers(P.x, Q.x, inv, l, x3, y3);
  }

  lemma OwnInverse(d: int, inv: int)
    requires -3 < d < 3 && d != 0 && inv == d % 3
    ensures 1 <= inv < 3 && (d * inv) % 3 == 1
  {
    if inv == 1 { assert d * inv == d; } else { assert d * inv == 2 * d; }
  }

  lemma FlatNumbers(x1: int, x2: int, inv: int, l: int, x3: int, y3: int)
    requires 0 <= x1 < 3 && 0 <= x2 < 3 && x1 != x2
    requires l == ((0 - 0) * inv) % 3 && x3 == (l * l - x1 - x2) % 3 && y3 == (l * (x1 - x3) - 0) % 3
    ensures x3 == 3 - x1 - x2 && y3 == 0
  {
    assert (0 - 0) * inv == 0;
    assert l == 0;
  }

  lemma FlatAssociative(P: Point, Q: Point, R: Point)
    requires OnAxis(P) && OnAxis(Q) && OnAxis(R)
    ensures FlatSum(FlatSum(P, Q), R) == FlatSum(P, FlatSum(Q, R))
  {
  }

  lemma FlatAssociativeAt(c: Curve, P: Point, Q: Point, R: Point)
    requires c == FLAT && OnAxis(P) && OnAxis(Q) && OnAxis(R)
    ensures AssociativeAt(c, P, Q, R)
  {
    FlatPlus(c, P, Q);
    FlatPlus(c, Q, R);
    FlatPlus(c, FlatSum(P, Q), R);
    FlatPlus(c, P, FlatSum(Q, R));
    FlatAssociative(P, Q, R);
  }

  lemma FlatGroup(c: Curve)
    requires c == FLAT
    ensures IsGroup(c)
  {
    ThreeIsPrime();
    forall P, Q, R | Element(c, P) && Element(c, Q) && Element(c, R) ensures AssociativeAt(c, P, Q, R) {
      FlatElement(c, P);
      FlatElement(c, Q);
      FlatElement(c, R);
      FlatAssociativeAt(c, P, Q, R);
    }
  }

  // A multiplication of a point that is its own negative.
  method MultiplyOwnNegative(c: Curve, P: Point, e: int) returns (r: Option<Point>)
    requires IsGroup(c) && Element(c, P) && TwoTorsion(c, P) && e >= 1
    ensures r.None? <==> e >= 2
  {
    NormElement(c, P);
    OwnNegativeFails(c, P, e);
    r := PointMul(c, P, 0, e);
  }

  // On this curve all points but infinity are such: every multiple from the second
  // on fails, although it exists.
  method MultiplyOnAxis(P: Point, e: int) returns (r: Option<Point>)
    requires P.Affine? && OnAxis(P) && e >= 1
    ensures Element(FLAT, P) && (r.None? <==> e >= 2)
  {
    FlatGroup(FLAT);
    FlatElement(FLAT, P);
    r := MultiplyOwnNegative(FLAT, P, e);
  }
}
