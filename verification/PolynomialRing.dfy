// Polynomials with integer coefficients, lowest power first, as the lists of
// ecdsa/numbertheory.py are: their ring laws, coefficient by coefficient.
module PolynomialRing {
  import opened Modular

  type Poly = seq<int>

  // The k-th coefficient; lists stand for polynomials with zeros beyond their end.
  function C(f: Poly, k: nat): int {
    if k < |f| then f[k] else 0
  }

  ghost predicate Same(f: Poly, g: Poly) {
    forall k: nat :: C(f, k) == C(g, k)
  }

  function Longer(m: nat, n: nat): nat { if m < n then n else m }

  function Add(f: Poly, g: Poly): Poly {
    seq(Longer(|f|, |g|), k requires 0 <= k => C(f, k) + C(g, k))
  }

  function Scale(a: int, f: Poly): Poly {
    seq(|f|, k requires 0 <= k < |f| => a * f[k])
  }

  // x * f
  function Shift(f: Poly): Poly { [0] + f }

  function Tail(f: Poly): Poly { if f == [] then [] else f[1..] }

  function Mul(f: Poly, g: Poly): Poly {
    if f == [] then [] else Add(Scale(f[0], g), Shift(Mul(f[1..], g)))
  }

  // x^n * f
  function ShiftBy(f: Poly, n: nat): Poly {
    if n == 0 then f else Shift(ShiftBy(f, n - 1))
  }

  // The naive power.
  function Power(f: Poly, e: nat): Poly {
    if e == 0 then [1] else Mul(f, Power(f, e - 1))
  }

  // ---------- coefficients ----------

  function Below(f: Poly, k: nat): int {
    if k == 0 then 0 else C(f, k - 1)
  }

  lemma CAdd(f: Poly, g: Poly, k: nat)
    ensures C(Add(f, g), k) == C(f, k) + C(g, k)
  {
  }

  lemma CScale(a: int, f: Poly, k: nat)
    ensures C(Scale(a, f), k) == a * C(f, k)
  {
    if k >= |f| { assert a * 0 == 0; }
  }

  lemma CShift(f: Poly, k: nat)
    ensures C(Shift(f), k) == Below(f, k)
  {
  }

  lemma CMul(f: Poly, g: Poly, k: nat)
    ensures C(Mul(f, g), k) == C(f, 0) * C(g, k) + Below(Mul(Tail(f), g), k)
  {
    if f == [] {
      assert 0 * C(g, k) == 0;
    } else {
      CAdd(Scale(f[0], g), Shift(Mul(f[1..], g)), k);
      CScale(f[0], g, k);
      CShift(Mul(f[1..], g), k);
    }
  }

  lemma {:induction false} CShiftBy(f: Poly, n: nat, k: nat)
    ensures C(ShiftBy(f, n), k) == if k < n then 0 else C(f, k - n)
  {
    if n > 0 {
      CShift(ShiftBy(f, n - 1), k);
      if k > 0 { CShiftBy(f, n - 1, k - 1); }
    }
  }

  // ---------- the laws ----------

  lemma {:induction false} MulOfSame(f: Poly, g: Poly, h: Poly, k: nat)
    requires Same(g, h)
    ensures C(Mul(f, g), k) == C(Mul(f, h), k)
    decreases |f|
  {
    CMul(f, g, k);
    CMul(f, h, k);
    if f != [] && k > 0 { MulOfSame(f[1..], g, h, k - 1); }
  }

  lemma {:induction false} MulAddRight(f: Poly, g: Poly, h: Poly, k: nat)
    ensures C(Mul(f, Add(g, h)), k) == C(Mul(f, g), k) + C(Mul(f, h), k)
    decreases |f|
  {
    CMul(f, Add(g, h), k);
    CMul(f, g, k);
    CMul(f, h, k);
    CAdd(g, h, k);
    Distribute(C(f, 0), C(g, k), C(h, k));
    if f != [] && k > 0 { MulAddRight(Tail(f), g, h, k - 1); }
  }

  lemma Distribute(a: int, b: int, c: int)
    ensures a * (b + c) == a * b + a * c && (b + c) * a == b * a + c * a
  {
  }

  lemma {:induction false} MulAddLeft(f: Poly, g: Poly, h: Poly, k: nat)
    ensures C(Mul(Add(f, g), h), k) == C(Mul(f, h), k) + C(Mul(g, h), k)
    decreases |f| + |g|
  {
    var s := Add(f, g);
    CMul(s, h, k);
    CMul(f, h, k);
    CMul(g, h, k);
    CAdd(f, g, 0);
    Distribute(C(h, k), C(f, 0), C(g, 0));
    TailAdd(f, g);
    if k > 0 && (f != [] || g != []) { MulAddLeft(Tail(f), Tail(g), h, k - 1); }
  }

  lemma {:induction false} MulScaleLeft(a: int, f: Poly, g: Poly, k: nat)
    ensures C(Mul(Scale(a, f), g), k) == a * C(Mul(f, g), k)
    decreases |f|
  {
    var s := Scale(a, f);
    CMul(s, g, k);
    CMul(f, g, k);
    CScale(a, f, 0);
    ScaleStep(a, C(f, 0), C(g, k), Below(Mul(Tail(f), g), k));
    TailScale(a, f);
    if f == [] || k == 0 { assert a * 0 == 0; } else { MulScaleLeft(a, f[1..], g, k - 1); }
  }

  lemma ScaleStep(a: int, x: int, y: int, b: int)
    ensures a * x * y + a * b == a * (x * y + b)
  {
    Distribute(a, x * y, b);
    assert a * x * y == a * (x * y);
  }

  lemma TailAdd(f: Poly, g: Poly)
    ensures Tail(Add(f, g)) == Add(Tail(f), Tail(g))
  {
  }

  lemma TailScale(a: int, f: Poly)
    ensures Tail(Scale(a, f)) == Scale(a, Tail(f))
  {
  }

  lemma MulShiftLeft(f: Poly, g: Poly, k: nat)
    ensures C(Mul(Shift(f), g), k) == Below(Mul(f, g), k)
  {
    CMul(Shift(f), g, k);
    assert Tail(Shift(f)) == f && C(Shift(f), 0) == 0;
    assert 0 * C(g, k) == 0;
  }

  lemma {:induction false} MulAssoc(f: Poly, g: Poly, h: Poly, k: nat)
    ensures C(Mul(Mul(f, g), h), k) == C(Mul(f, Mul(g, h)), k)
    decreases |f|
  {
    if f == [] {
    } else {
      var t := Mul(f[1..], g);
      MulAddLeft(Scale(f[0], g), Shift(t), h, k);
      MulScaleLeft(f[0], g, h, k);
      MulShiftLeft(t, h, k);
      CMul(f, Mul(g, h), k);
      if k > 0 { MulAssoc(f[1..], g, h, k - 1); }
    }
  }

  lemma {:induction false} MulConstant(f: Poly, a: int, k: nat)
    ensures C(Mul(f, [a]), k) == a * C(f, k)
    decreases |f|
  {
    CMul(f, [a], k);
    if f == [] {
      assert a * 0 == 0;
    } else if k > 0 {
      MulConstant(f[1..], a, k - 1);
      assert f[0] * 0 == 0;
    } else {
      assert f[0] * a == a * f[0];
    }
  }

  lemma {:induction false} MulShiftRight(f: Poly, g: Poly, k: nat)
    ensures C(Mul(f, Shift(g)), k) == Below(Mul(f, g), k)
    decreases |f|
  {
    CMul(f, Shift(g), k);
    CShift(g, k);
    assert C(f, 0) * 0 == 0;
    if k > 0 {
      CMul(f, g, k - 1);
      if f != [] { MulShiftRight(Tail(f), g, k - 1); }
    }
  }

  lemma {:induction false} MulComm(f: Poly, g: Poly, k: nat)
    ensures C(Mul(f, g), k) == C(Mul(g, f), k)
    decreases |f|
  {
    CMul(f, g, k);
    if f == [] {
      MulNothing(g, k);
      assert 0 * C(g, k) == 0;
    } else {
      // f = f[0] + x * f[1..]
      var one, rest := [f[0]], Shift(f[1..]);
      forall j: nat ensures C(f, j) == C(Add(one, rest), j) { CAdd(one, rest, j); CShift(f[1..], j); }
      MulOfSame(g, f, Add(one, rest), k);
      MulAddRight(g, one, rest, k);
      MulConstant(g, f[0], k);
      MulShiftRight(g, f[1..], k);
      if k > 0 { MulComm(f[1..], g, k - 1); }
    }
  }

  lemma {:induction false} MulNothing(g: Poly, k: nat)
    ensures C(Mul(g, []), k) == 0
    decreases |g|
  {
    CMul(g, [], k);
    assert C(g, 0) * 0 == 0;
    if g != [] && k > 0 { MulNothing(g[1..], k - 1); }
  }

  lemma {:induction false} MulMonomial(a: int, n: nat, g: Poly, k: nat)
    ensures C(Mul(ShiftBy([a], n), g), k) == if k < n then 0 else a * C(g, k - n)
    decreases n
  {
    if n == 0 {
      CMul([a], g, k);
      assert Tail([a]) == [];
    } else {
      MulShiftLeft(ShiftBy([a], n - 1), g, k);
      if k > 0 { MulMonomial(a, n - 1, g, k - 1); }
    }
  }

  // The powers add up.
  lemma {:induction false} PowerSum(f: Poly, m: nat, n: nat)
    ensures Same(Mul(Power(f, m), Power(f, n)), Power(f, m + n))
    decreases m
  {
    var g := Power(f, n);
    if m == 0 {
      MulOne(g);
    } else {
      var t := Power(f, m - 1);
      PowerSum(f, m - 1, n);
      var u := Power(f, m - 1 + n);
      assert Power(f, m + n) == Mul(f, u);
      MulTwice(f, t, g, u);
    }
  }

  lemma MulOne(g: Poly)
    ensures Same(Mul([1], g), g)
  {
    forall k: nat ensures C(Mul([1], g), k) == C(g, k) {
      CMul([1], g, k);
      assert Tail([1]) == [] && 1 * C(g, k) == C(g, k);
    }
  }

  lemma MulTwice(f: Poly, t: Poly, g: Poly, u: Poly)
    requires Same(Mul(t, g), u)
    ensures Same(Mul(Mul(f, t), g), Mul(f, u))
  {
    forall k: nat ensures C(Mul(Mul(f, t), g), k) == C(Mul(f, u), k) {
      MulAssoc(f, t, g, k);
      MulOfSame(f, Mul(t, g), u, k);
    }
  }
}
