// CurveFp and Point (ecdsa/ellipticcurve.py): the chord and tangent formulas,
// and what the sum of two points has to do with the curve.
module EllipticCurve {
  import opened KconfigExpr
  import opened Modular
  import opened NumberTheory

  datatype Curve = Curve(p: int, a: int, b: int)

  // The coordinates are whatever the caller passed; results are reduced.
  datatype Point = Infinity | Affine(x: int, y: int)

  function Cubic(c: Curve, x: int): int { x * x * x + c.a * x + c.b }

  // CurveFp.contains_point
  predicate Contains(c: Curve, x: int, y: int)
    requires c.p > 0
  {
    (y * y - Cubic(c, x)) % c.p == 0
  }

  predicate OnCurve(c: Curve, P: Point)
    requires c.p > 0
  {
    P.Affine? ==> Contains(c, P.x, P.y)
  }

  // The constructor with its assertion
  function MakePoint(c: Curve, x: int, y: int): Option<Point>
    requires c.p > 0
  {
    if Contains(c, x, y) then Some(Affine(x, y)) else None
  }

  // The line of slope l through (x1, y1) meets the curve again at x3; the result
  // is that point mirrored (lines 104-105 and 163-164).
  function ThirdX(c: Curve, l: int, x1: int, x2: int): int
    requires c.p > 0
  {
    (l * l - x1 - x2) % c.p
  }

  function ThirdY(c: Curve, l: int, x1: int, y1: int, x3: int): int
    requires c.p > 0
  {
    (l * (x1 - x3) - y1) % c.p
  }

  // Point.double; None where inverse_mod's assertion fails, or the constructor's.
  ghost function Double(c: Curve, P: Point): Option<Point>
    requires c.p > 0
  {
    if P.Infinity? then Some(Infinity) else
    var inv := Inverse(2 * P.y, c.p);
    if inv.None? then None else
    var l := ((3 * P.x * P.x + c.a) * inv.value) % c.p;
    var x3 := ThirdX(c, l, P.x, P.x);
    MakePoint(c, x3, ThirdY(c, l, P.x, P.y, x3))
  }

  // Point.__add__
  ghost function Add(c: Curve, P: Point, Q: Point): Option<Point>
    requires c.p > 0
  {
    if Q.Infinity? then Some(P)
    else if P.Infinity? then Some(Q)
    else if P.x == Q.x then
      if (P.y + Q.y) % c.p == 0 then Some(Infinity) else Double(c, P)
    else AddChord(c, P, Q)
  }

  ghost function AddChord(c: Curve, P: Point, Q: Point): Option<Point>
    requires c.p > 0 && P.Affine? && Q.Affine?
  {
    var inv := Inverse(Q.x - P.x, c.p);
    if inv.None? then None else
    var l := ((Q.y - P.y) * inv.value) % c.p;
    var x3 := ThirdX(c, l, P.x, Q.x);
    MakePoint(c, x3, ThirdY(c, l, P.x, P.y, x3))
  }

  method PointDouble(c: Curve, P: Point) returns (r: Option<Point>)
    requires c.p > 0
    ensures r == Double(c, P)
  {
    if P.Infinity? { return Some(Infinity); }
    var inv := InverseMod(2 * P.y, c.p);
    if inv.None? { return None; }
    var l := ((3 * P.x * P.x + c.a) * inv.value) % c.p;
    var x3 := (l * l - P.x - P.x) % c.p;
    var y3 := (l * (P.x - x3) - P.y) % c.p;
    r := MakePoint(c, x3, y3);
  }

  method PointAdd(c: Curve, P: Point, Q: Point) returns (r: Option<Point>)
    requires c.p > 0
    ensures r == Add(c, P, Q)
  {
    if Q.Infinity? { return Some(P); }
    if P.Infinity? { return Some(Q); }
    if P.x == Q.x {
      if (P.y + Q.y) % c.p == 0 { return Some(Infinity); }
      r := PointDouble(c, P);
      return;
    }
    var inv := InverseMod(Q.x - P.x, c.p);
    if inv.None? { return None; }
    var l := ((Q.y - P.y) * inv.value) % c.p;
    var x3 := (l * l - P.x - Q.x) % c.p;
    var y3 := (l * (P.x - x3) - P.y) % c.p;
    r := MakePoint(c, x3, y3);
  }

  // ---------- closure ----------

  // What is left of (cubic - line^2) after dividing by x - x1.
  function Quadratic(a: int, l: int, x1: int, y1: int, x: int): int {
    x * x + x * x1 + x1 * x1 + a - l * (2 * y1 + l * (x - x1))
  }

  lemma LineMeetsCubic(c: Curve, l: int, x1: int, y1: int, x: int)
    ensures var g := y1 + l * (x - x1);
      Cubic(c, x) - g * g == Cubic(c, x1) - y1 * y1 + (x - x1) * Quadratic(c.a, l, x1, y1, x)
  {
    var d := x - x1;
    var g := y1 + l * d;
    LineSquared(y1, l, d);
    CubeDifference(x, x1);
    QuadraticTerms(c.a, d, x * x + x * x1 + x1 * x1, l * (2 * y1 + l * d), x, x1);
  }

  lemma LineSquared(y1: int, l: int, d: int)
    ensures (y1 + l * d) * (y1 + l * d) == y1 * y1 + d * (l * (2 * y1 + l * d))
  {
    var e := l * d;
    assert (y1 + e) * (y1 + e) == y1 * y1 + e * (2 * y1 + e);
    assert e * (2 * y1 + e) == d * (l * (2 * y1 + e));
  }

  lemma CubeDifference(x: int, x1: int)
    ensures x * x * x - x1 * x1 * x1 == (x - x1) * (x * x + x * x1 + x1 * x1)
  {
  }

  lemma QuadraticTerms(a: int, d: int, u: int, v: int, x: int, x1: int)
    requires d == x - x1
    ensures d * u + (a * x - a * x1) - d * v == d * (u + a - v)
  {
  }

  // A second common point makes the third one the root of a linear factor.
  lemma QuadraticFactors(a: int, l: int, x1: int, y1: int, x2: int, x: int)
    ensures Quadratic(a, l, x1, y1, x) - Quadratic(a, l, x1, y1, x2) == (x - x2) * (x + x2 + x1 - l * l)
  {
    assert l * (2 * y1 + l * (x - x1)) - l * (2 * y1 + l * (x2 - x1)) == (l * l) * (x - x2);
    assert x * x - x2 * x2 == (x - x2) * (x + x2);
    assert x * x1 - x2 * x1 == (x - x2) * x1;
  }

  // If the line through a point of the curve meets it in x2 too, the mirrored
  // third intersection is on the curve.
  lemma ThirdPoint(c: Curve, l: int, x1: int, y1: int, x2: int, x3: int, y3: int)
    requires c.p > 0 && Contains(c, x1, y1)
    requires Cong(Quadratic(c.a, l, x1, y1, x2), 0, c.p)
    requires Cong(x3, l * l - x1 - x2, c.p)
    requires Cong(y3, l * (x1 - x3) - y1, c.p)
    ensures Contains(c, x3, y3)
  {
    var p := c.p;
    var g := y1 + l * (x3 - x1);
    var q2, q3 := Quadratic(c.a, l, x1, y1, x2), Quadratic(c.a, l, x1, y1, x3);
    // the linear factor vanishes, so the quadratic does
    CongBy(x3 + x2 + x1 - l * l, 0, p, Quotient(p, x3 - (l * l - x1 - x2)));
    CongTimes(x3 - x2, x3 + x2 + x1 - l * l, p);
    QuadraticFactors(c.a, l, x1, y1, x2, x3);
    CongAdd(q2, 0, (x3 - x2) * (x3 + x2 + x1 - l * l), 0, p);
    assert Cong(q3, 0, p);
    // so cubic - line^2 is what it is at x1, which is 0
    LineMeetsCubic(c, l, x1, y1, x3);
    CongTimes(x3 - x1, q3, p);
    CongZero(y1 * y1 - Cubic(c, x1), p);
    CongSub((x3 - x1) * q3, 0, y1 * y1 - Cubic(c, x1), 0, p);
    assert Cong(Cubic(c, x3) - g * g, 0, p);
    // and y3 is the line mirrored
    assert l * (x1 - x3) - y1 == -g;
    CongMul(y3, -g, y3, -g, p);
    assert -g * -g == g * g;
    CongSub(y3 * y3, g * g, Cubic(c, x3) - g * g, 0, p);
    CongBy(y3 * y3 - Cubic(c, x3), 0, p, Quotient(p, (y3 * y3 - (Cubic(c, x3) - g * g)) - (g * g - 0)));
    CongZero(y3 * y3 - Cubic(c, x3), p);
  }

  // A multiple of 0 is 0.
  lemma CongTimes(k: int, z: int, p: int)
    requires Cong(z, 0, p)
    ensures Cong(k * z, 0, p)
  {
    CongRefl(k, p);
    CongMul(k, k, z, 0, p);
    assert k * 0 == 0;
  }

  // u/v times v is u.
  lemma Slope(u: int, v: int, inv: int, p: int) returns (l: int)
    requires p > 0 && Cong(v * inv, 1, p)
    ensures l == (u * inv) % p && Cong(l * v, u, p)
  {
    l := (u * inv) % p;
    CongMod(u * inv, p);
    CongRefl(v, p);
    CongMul(l, u * inv, v, v, p);
    CongRefl(u, p);
    CongMul(u, u, v * inv, 1, p);
    assert u * inv * v == u * (v * inv);
    CongTrans(l * v, u * inv * v, u, p);
  }

  // Doubling fails only where 2y has no inverse; the constructor's assertion
  // never does.
  lemma TangentQuadratic(a: int, l: int, x: int, y: int)
    ensures Quadratic(a, l, x, y, x) == 3 * x * x + a - l * (2 * y)
  {
    assert l * (x - x) == 0;
  }

  lemma DoubleCloses(c: Curve, P: Point)
    requires c.p > 0 && OnCurve(c, P)
    ensures Double(c, P).Some? <==> P.Infinity? || Inverse(2 * P.y, c.p).Some?
    ensures Double(c, P).Some? ==> OnCurve(c, Double(c, P).value)
  {
    if P.Affine? && Inverse(2 * P.y, c.p).Some? {
      var x, y, p := P.x, P.y, c.p;
      var l := Slope(3 * x * x + c.a, 2 * y, Inverse(2 * y, p).value, p);
      TangentQuadratic(c.a, l, x, y);
      CongSym(l * (2 * y), 3 * x * x + c.a, p);
      CongBy(Quadratic(c.a, l, x, y, x), 0, p, Quotient(p, 3 * x * x + c.a - l * (2 * y)));
      var x3 := ThirdX(c, l, x, x);
      CongMod(l * l - x - x, p);
      CongMod(l * (x - x3) - y, p);
      ThirdPoint(c, l, x, y, x, x3, ThirdY(c, l, x, y, x3));
    }
  }

  lemma AddChordCloses(c: Curve, P: Point, Q: Point)
    requires c.p > 0 && P.Affine? && Q.Affine? && OnCurve(c, P) && OnCurve(c, Q)
    ensures AddChord(c, P, Q).Some? <==> Inverse(Q.x - P.x, c.p).Some?
    ensures AddChord(c, P, Q).Some? ==> OnCurve(c, AddChord(c, P, Q).value)
  {
    if Inverse(Q.x - P.x, c.p).Some? {
      var p := c.p;
      var inv := Inverse(Q.x - P.x, p).value;
      var l := Slope(Q.y - P.y, Q.x - P.x, inv, p);
      SecondIntersection(c, l, P.x, P.y, Q.x, Q.y, inv);
      var x3 := ThirdX(c, l, P.x, Q.x);
      CongMod(l * l - P.x - Q.x, p);
      CongMod(l * (P.x - x3) - P.y, p);
      ThirdPoint(c, l, P.x, P.y, Q.x, x3, ThirdY(c, l, P.x, P.y, x3));
    }
  }

  // The chord passes through the second point.
  lemma SecondIntersection(c: Curve, l: int, x1: int, y1: int, x2: int, y2: int, inv: int)
    requires c.p > 0 && Contains(c, x1, y1) && Contains(c, x2, y2)
    requires Cong((x2 - x1) * inv, 1, c.p) && Cong(l * (x2 - x1), y2 - y1, c.p)
    ensures Cong(Quadratic(c.a, l, x1, y1, x2), 0, c.p)
  {
    var p, d := c.p, x2 - x1;
    var g := y1 + l * d;
    var q := Quadratic(c.a, l, x1, y1, x2);
    CongBy(g, y2, p, Quotient(p, l * d - (y2 - y1)));
    CongMul(g, y2, g, y2, p);
    LineMeetsCubic(c, l, x1, y1, x2);
    CongZero(y1 * y1 - Cubic(c, x1), p);
    CongZero(y2 * y2 - Cubic(c, x2), p);
    // d q = (y1^2 - cubic(x1)) - (g^2 - y2^2) - (y2^2 - cubic(x2))
    assert d * q == (y1 * y1 - Cubic(c, x1)) - (g * g - y2 * y2) - (y2 * y2 - Cubic(c, x2));
    CongBy(g * g - y2 * y2, 0, p, Quotient(p, g * g - y2 * y2));
    CongSub(y1 * y1 - Cubic(c, x1), 0, g * g - y2 * y2, 0, p);
    CongSub((y1 * y1 - Cubic(c, x1)) - (g * g - y2 * y2), 0, y2 * y2 - Cubic(c, x2), 0, p);
    CancelFactor(d, q, inv, p);
  }

  lemma CancelFactor(d: int, q: int, inv: int, p: int)
    requires Cong(d * inv, 1, p) && Cong(d * q, 0, p)
    ensures Cong(q, 0, p)
  {
    CongTimes(inv, d * q, p);
    CongRefl(q, p);
    CongMul(d * inv, 1, q, q, p);
    assert inv * (d * q) == d * inv * q;
    CongSym(d * inv * q, 1 * q, p);
    CongTrans(q, d * inv * q, 0, p);
  }

  // Addition: closed, and it fails exactly where no slope exists.
  lemma AddCloses(c: Curve, P: Point, Q: Point)
    requires c.p > 0 && OnCurve(c, P) && OnCurve(c, Q)
    ensures Add(c, P, Q).None? <==> (P.Affine? && Q.Affine? &&
      (if P.x != Q.x then Inverse(Q.x - P.x, c.p).None? else (P.y + Q.y) % c.p != 0 && Inverse(2 * P.y, c.p).None?))
    ensures Add(c, P, Q).Some? ==> OnCurve(c, Add(c, P, Q).value)
  {
    DoubleCloses(c, P);
    if P.Affine? && Q.Affine? && P.x != Q.x { AddChordCloses(c, P, Q); }
  }
}
