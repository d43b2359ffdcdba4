// The points of a curve over a prime field under Point.__add__: it never fails
// on reduced points, is closed and commutative, and has inverses. That it is
// associative is the one law of the group taken as a hypothesis.
module CurveGroup {
  import opened KconfigExpr
  import opened Modular
  import opened NumberTheory
  import opened EllipticCurve

  // A point of the curve with a reduced x. The y of negative_self is not reduced.
  predicate Usable(c: Curve, P: Point)
    requires c.p > 0
  {
    P.Affine? ==> 0 <= P.x < c.p && Contains(c, P.x, P.y)
  }

  function Norm(c: Curve, P: Point): Point
    requires c.p > 0
  {
    if P.Infinity? then P else Affine(P.x % c.p, P.y % c.p)
  }

  // A group element: both coordinates reduced.
  predicate Element(c: Curve, P: Point)
    requires c.p > 0
  {
    Usable(c, P) && (P.Affine? ==> 0 <= P.y < c.p)
  }

  // The sum, reduced.
  ghost function Plus(c: Curve, P: Point, Q: Point): Point
    requires c.p > 0
  {
    var r := Add(c, P, Q);
    if r.Some? then Norm(c, r.value) else Infinity
  }

  function Neg(c: Curve, P: Point): Point
    requires c.p > 0
  {
    if P.Infinity? then P else Affine(P.x, -P.y % c.p)
  }

  // ---------- y only matters modulo p ----------

  lemma InverseOfCong(u: int, v: int, p: int)
    requires p > 0 && Cong(u, v, p)
    ensures Inverse(u, p) == Inverse(v, p)
  {
    forall x ensures IsInverse(u, p, x) <==> IsInverse(v, p, x) {
      CongRefl(x, p);
      CongMul(u, v, x, x, p);
      CongSym(u * x, v * x, p);
      if Cong(u * x, 1, p) { CongTrans(v * x, u * x, 1, p); }
      if Cong(v * x, 1, p) { CongTrans(u * x, v * x, 1, p); }
    }
    if Inverse(u, p).Some? { InverseIs(v, p, Inverse(u, p).value); }
  }

  lemma NormContains(c: Curve, x: int, y: int)
    requires c.p > 0
    ensures Contains(c, x, y) <==> Contains(c, x, y % c.p)
  {
    var p := c.p;
    CongMod(y, p);
    CongMul(y, y % p, y, y % p, p);
    CongRefl(Cubic(c, x), p);
    CongSub(y * y, y % p * (y % p), Cubic(c, x), Cubic(c, x), p);
    CongIffSameMod(y * y - Cubic(c, x), y % p * (y % p) - Cubic(c, x), p);
  }

  lemma NormIsElement(c: Curve, P: Point)
    requires c.p > 0 && Usable(c, P)
    ensures Element(c, Norm(c, P)) && (P.Affine? ==> Norm(c, P).x == P.x)
  {
    if P.Affine? {
      NormContains(c, P.x, P.y);
      SmallMod(P.x, c.p);
    }
  }

  lemma SmallMod(x: int, p: int)
    requires 0 <= x < p
    ensures x % p == x
  {
  }

  lemma DoubleOfNorm(c: Curve, P: Point)
    requires c.p > 0 && Usable(c, P)
    ensures Double(c, Norm(c, P)) == Double(c, P)
  {
    if P.Affine? {
      var x, y, p := P.x, P.y, c.p;
      var N := Norm(c, P);
      NormIsElement(c, P);
      CongMod(y, p);
      CongRefl(2, p);
      CongMul(2, 2, y % p, y, p);
      InverseOfCong(2 * (y % p), 2 * y, p);
      if Inverse(2 * y, p).Some? {
        var l := ((3 * x * x + c.a) * Inverse(2 * y, p).value) % p;
        ThirdYOfCong(c, l, x, y % p, y, ThirdX(c, l, x, x));
      }
    }
  }

  lemma ThirdYOfCong(c: Curve, l: int, x: int, y: int, y': int, x3: int)
    requires c.p > 0 && Cong(y, y', c.p)
    ensures ThirdY(c, l, x, y, x3) == ThirdY(c, l, x, y', x3)
  {
    CongRefl(l * (x - x3), c.p);
    CongSub(l * (x - x3), l * (x - x3), y, y', c.p);
    CongIffSameMod(l * (x - x3) - y, l * (x - x3) - y', c.p);
  }

  lemma AddChordOfNorm(c: Curve, P: Point, Q: Point)
    requires c.p > 0 && Usable(c, P) && Usable(c, Q) && P.Affine? && Q.Affine?
    ensures AddChord(c, Norm(c, P), Norm(c, Q)) == AddChord(c, P, Q)
  {
    var p := c.p;
    NormIsElement(c, P);
    NormIsElement(c, Q);
    var inv := Inverse(Q.x - P.x, p);
    if inv.Some? {
      CongMod(P.y, p);
      CongMod(Q.y, p);
      CongSub(Q.y % p, Q.y, P.y % p, P.y, p);
      CongRefl(inv.value, p);
      CongMul(Q.y % p - P.y % p, Q.y - P.y, inv.value, inv.value, p);
      CongIffSameMod((Q.y % p - P.y % p) * inv.value, (Q.y - P.y) * inv.value, p);
      var l := ((Q.y - P.y) * inv.value) % p;
      ThirdYOfCong(c, l, P.x, P.y % p, P.y, ThirdX(c, l, P.x, Q.x));
    }
  }

  // ---------- on reduced points nothing fails ----------

  // Points with the same x are equal or opposite.
  lemma SameX(c: Curve, x: int, y: int, y': int)
    requires IsPrime(c.p) && Contains(c, x, y) && Contains(c, x, y')
    ensures Cong(y, y', c.p) || (y + y') % c.p == 0
  {
    var p := c.p;
    CongZero(y * y - Cubic(c, x), p);
    CongZero(y' * y' - Cubic(c, x), p);
    CongSub(y * y - Cubic(c, x), 0, y' * y' - Cubic(c, x), 0, p);
    assert (y * y - Cubic(c, x)) - (y' * y' - Cubic(c, x)) == (y - y') * (y + y');
    CongZero((y - y') * (y + y'), p);
    PrimeDividesProduct(p, y - y', y + y');
    DividesIffMod(p, y + y');
  }

  lemma DoubleFailsIff(c: Curve, P: Point)
    requires IsPrime(c.p) && OnCurve(c, P)
    ensures Double(c, P).None? <==> P.Affine? && (2 * P.y) % c.p == 0
    ensures Double(c, P).Some? ==> Element(c, Double(c, P).value)
  {
    DoubleCloses(c, P);
    if P.Affine? {
      PrimeInverse(2 * P.y, c.p);
      DividesIffMod(c.p, 2 * P.y);
    }
  }

  lemma AddNeverFails(c: Curve, P: Point, Q: Point)
    requires IsPrime(c.p) && Usable(c, P) && Usable(c, Q)
    ensures Add(c, P, Q).Some? && Usable(c, Add(c, P, Q).value)
  {
    AddCloses(c, P, Q);
    if P.Affine? && Q.Affine? {
      if P.x != Q.x {
        PrimeInverse(Q.x - P.x, c.p);
        if Divides(c.p, Q.x - P.x) { CongCanonical(Q.x, P.x, c.p); }
      } else if (P.y + Q.y) % c.p != 0 {
        SameX(c, P.x, P.y, Q.y);
        SumIsDouble(P.y, Q.y, c.p);
        DoubleFailsIff(c, P);
      }
    }
  }

  lemma SumIsDouble(y: int, y': int, p: int)
    requires p > 0 && Cong(y, y', p)
    ensures (y + y') % p == (2 * y) % p
  {
    CongRefl(y, p);
    CongAdd(y, y, y, y', p);
    CongIffSameMod(y + y, y + y', p);
  }

  // The sum of two points depends on the reduced points only, and is one.
  lemma AddOfNorm(c: Curve, P: Point, Q: Point)
    requires IsPrime(c.p) && Usable(c, P) && Usable(c, Q)
    ensures Add(c, P, Q).Some? && Norm(c, Add(c, P, Q).value) == Plus(c, Norm(c, P), Norm(c, Q))
    ensures Element(c, Plus(c, P, Q)) && Plus(c, P, Q) == Plus(c, Norm(c, P), Norm(c, Q))
  {
    AddNeverFails(c, P, Q);
    NormIsElement(c, P);
    NormIsElement(c, Q);
    NormIsElement(c, Add(c, P, Q).value);
    if P.Affine? && Q.Affine? {
      DoubleOfNorm(c, P);
      AddChordOfNorm(c, P, Q);
      SumOfMods(P.y, Q.y, c.p);
    } else if P.Affine? {
      NormNorm(P.y, c.p);
    } else if Q.Affine? {
      NormNorm(Q.y, c.p);
    }
  }

  lemma NormNorm(y: int, p: int)
    requires p > 0
    ensures y % p % p == y % p
  {
  }

  lemma SumOfMods(y: int, y': int, p: int)
    requires p > 0
    ensures (y % p + y' % p) % p == (y + y') % p
  {
    CongMod(y, p);
    CongMod(y', p);
    CongAdd(y % p, y, y' % p, y', p);
    CongIffSameMod(y % p + y' % p, y + y', p);
  }

  // The sums in numbers, given the inverse.
  lemma PlusOfChord(c: Curve, P: Point, Q: Point, inv: int) returns (l: int, x3: int, y3: int)
    requires c.p > 0 && P.Affine? && Q.Affine? && OnCurve(c, P) && OnCurve(c, Q) && P.x != Q.x
    requires Inverse(Q.x - P.x, c.p) == Some(inv)
    ensures l == ((Q.y - P.y) * inv) % c.p
    ensures x3 == (l * l - P.x - Q.x) % c.p && y3 == (l * (P.x - x3) - P.y) % c.p
    ensures Plus(c, P, Q) == Affine(x3, y3)
  {
    AddChordCloses(c, P, Q);
    l := ((Q.y - P.y) * inv) % c.p;
    x3 := ThirdX(c, l, P.x, Q.x);
    y3 := ThirdY(c, l, P.x, P.y, x3);
    SmallMod(x3, c.p);
    SmallMod(y3, c.p);
  }

  lemma PlusOfTangent(c: Curve, P: Point, inv: int) returns (l: int, x3: int, y3: int)
    requires c.p > 0 && P.Affine? && OnCurve(c, P) && (P.y + P.y) % c.p != 0 && Inverse(2 * P.y, c.p) == Some(inv)
    ensures l == ((3 * P.x * P.x + c.a) * inv) % c.p
    ensures x3 == (l * l - P.x - P.x) % c.p && y3 == (l * (P.x - x3) - P.y) % c.p
    ensures Plus(c, P, P) == Affine(x3, y3)
  {
    DoubleCloses(c, P);
    l := ((3 * P.x * P.x + c.a) * inv) % c.p;
    x3 := ThirdX(c, l, P.x, P.x);
    y3 := ThirdY(c, l, P.x, P.y, x3);
    SmallMod(x3, c.p);
    SmallMod(y3, c.p);
  }

  // ---------- the laws ----------

  lemma PlusCommutes(c: Curve, P: Point, Q: Point)
    requires IsPrime(c.p) && Element(c, P) && Element(c, Q)
    ensures Plus(c, P, Q) == Plus(c, Q, P)
  {
    if P.Affine? && Q.Affine? {
      if P.x != Q.x {
        AddChordCommutes(c, P, Q);
      } else if (P.y + Q.y) % c.p != 0 {
        SameX(c, P.x, P.y, Q.y);
        CongCanonical(P.y, Q.y, c.p);
      }
    }
  }

  // The sum of points with different x is the same in either order.
  lemma AddChordCommutes(c: Curve, P: Point, Q: Point)
    requires c.p > 0 && P.Affine? && Q.Affine?
    ensures AddChord(c, P, Q) == AddChord(c, Q, P)
  {
    var p, d, e := c.p, Q.x - P.x, Q.y - P.y;
    NegatedInverse(d, p);
    if Inverse(d, p).Some? {
      var l := Slope(e, d, Inverse(d, p).value, p);
      var m := Slope(-e, -d, Inverse(-d, p).value, p);
      SameSlope(e, Inverse(d, p).value, Inverse(-d, p).value, p);
      assert l == m && P.x - Q.x == -d && P.y - Q.y == -e;
      var x3 := ThirdX(c, l, P.x, Q.x);
      assert l * l - P.x - Q.x == l * l - Q.x - P.x;
      // l(x2 - x3) - y2 = l(x1 - x3) - y1, as l(x2 - x1) = y2 - y1
      assert (l * (Q.x - x3) - Q.y) - (l * (P.x - x3) - P.y) == l * d - e;
      CongBy(l * (Q.x - x3) - Q.y, l * (P.x - x3) - P.y, p, Quotient(p, l * d - e));
      CongIffSameMod(l * (Q.x - x3) - Q.y, l * (P.x - x3) - P.y, p);
    }
  }

  lemma NegatedInverse(d: int, p: int)
    requires p > 0
    ensures Inverse(-d, p).Some? <==> Inverse(d, p).Some?
    ensures Inverse(d, p).Some? ==> Cong(Inverse(-d, p).value, -Inverse(d, p).value, p)
  {
    if Inverse(d, p).Some? {
      var v := Inverse(d, p).value;
      assert -d * -v == d * v;
      SolutionGivesInverse(-d, p, -v);
    }
    if Inverse(-d, p).Some? {
      var v := Inverse(-d, p).value;
      assert d * -v == -d * v;
      SolutionGivesInverse(d, p, -v);
    }
  }

  lemma SameSlope(e: int, v: int, w: int, p: int)
    requires p > 0 && Cong(w, -v, p)
    ensures (e * v) % p == (-e * w) % p
  {
    CongRefl(-e, p);
    CongMul(-e, -e, w, -v, p);
    assert -e * -v == e * v;
    CongIffSameMod(-e * w, e * v, p);
  }

  lemma NegIsInverse(c: Curve, P: Point)
    requires c.p > 0 && Element(c, P)
    ensures Element(c, Neg(c, P)) && Plus(c, P, Neg(c, P)) == Infinity
  {
    if P.Affine? {
      assert -P.y * -P.y == P.y * P.y;
      NormContains(c, P.x, -P.y);
      CongMod(-P.y, c.p);
      CongRefl(P.y, c.p);
      CongAdd(P.y, P.y, -P.y % c.p, -P.y, c.p);
      CongZero(P.y + -P.y % c.p, c.p);
    }
  }

  ghost predicate AssociativeAt(c: Curve, P: Point, Q: Point, R: Point)
    requires c.p > 0
  {
    Plus(c, Plus(c, P, Q), R) == Plus(c, P, Plus(c, Q, R))
  }

  ghost predicate Associative(c: Curve)
    requires c.p > 0
  {
    forall P, Q, R {:trigger AssociativeAt(c, P, Q, R)} | Element(c, P) && Element(c, Q) && Element(c, R) ::
      AssociativeAt(c, P, Q, R)
  }
}
