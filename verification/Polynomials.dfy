// polynomial_reduce_mod, polynomial_multiply_mod and polynomial_exp_mod
// (ecdsa/numbertheory.py:47-120): arithmetic modulo a monic polynomial with
// coefficients modulo p, and square-and-multiply in it.
module Polynomials {
  import opened KconfigExpr
  import opened Modular
  import opened PolynomialRing

  // Equal coefficients modulo p
  ghost predicate SameMod(f: Poly, g: Poly, p: int) {
    forall k: nat :: Cong(C(f, k), C(g, k), p)
  }

  // The difference is a multiple of the modulus polynomial: f = g + q m.
  ghost predicate CongruentBy(f: Poly, g: Poly, q: Poly, m: Poly, p: int) {
    SameMod(f, Add(g, Mul(q, m)), p)
  }

  ghost predicate Congruent(f: Poly, g: Poly, m: Poly, p: int) {
    exists q :: CongruentBy(f, g, q, m, p)
  }

  // ---------- congruence of polynomials ----------

  lemma CongruentRefl(f: Poly, m: Poly, p: int)
    ensures Congruent(f, f, m, p)
  {
    forall k: nat ensures Cong(C(f, k), C(Add(f, Mul([], m)), k), p) {
      CAdd(f, [], k);
      CongRefl(C(f, k), p);
    }
    assert CongruentBy(f, f, [], m, p);
  }

  lemma CongruentTrans(f: Poly, g: Poly, h: Poly, m: Poly, p: int)
    requires Congruent(f, g, m, p) && Congruent(g, h, m, p)
    ensures Congruent(f, h, m, p)
  {
    var q :| CongruentBy(f, g, q, m, p);
    var r :| CongruentBy(g, h, r, m, p);
    forall k: nat ensures Cong(C(f, k), C(Add(h, Mul(Add(q, r), m)), k), p) {
      CAdd(g, Mul(q, m), k);
      CAdd(h, Mul(r, m), k);
      CAdd(h, Mul(Add(q, r), m), k);
      MulAddLeft(q, r, m, k);
      ChainAt(C(f, k), C(g, k), C(Mul(q, m), k), C(h, k), C(Mul(r, m), k), C(Add(g, Mul(q, m)), k), C(Add(h, Mul(r, m)), k), p);
    }
    assert CongruentBy(f, h, Add(q, r), m, p);
  }

  lemma ChainAt(f: int, g: int, qm: int, h: int, rm: int, gq: int, hr: int, p: int)
    requires gq == g + qm && hr == h + rm && Cong(f, gq, p) && Cong(g, hr, p)
    ensures Cong(f, h + (qm + rm), p)
  {
    CongRefl(qm, p);
    CongAdd(g, hr, qm, qm, p);
    CongTrans(f, g + qm, hr + qm, p);
  }

  lemma {:induction false} MulSameModAt(f: Poly, h: Poly, g: Poly, p: int, k: nat)
    requires SameMod(f, h, p)
    ensures Cong(C(Mul(f, g), k), C(Mul(h, g), k), p)
    decreases |f| + |h|
  {
    CMul(f, g, k);
    CMul(h, g, k);
    assert Cong(C(f, 0), C(h, 0), p);
    CongRefl(C(g, k), p);
    CongMul(C(f, 0), C(h, 0), C(g, k), C(g, k), p);
    TailsSame(f, h, p);
    if k > 0 && (f != [] || h != []) { MulSameModAt(Tail(f), Tail(h), g, p, k - 1); } else { CongRefl(0, p); }
    CongAdd(C(f, 0) * C(g, k), C(h, 0) * C(g, k), Below(Mul(Tail(f), g), k), Below(Mul(Tail(h), g), k), p);
  }

  lemma TailsSame(f: Poly, h: Poly, p: int)
    requires SameMod(f, h, p)
    ensures SameMod(Tail(f), Tail(h), p)
  {
    forall k: nat ensures Cong(C(Tail(f), k), C(Tail(h), k), p) {
      assert Cong(C(f, k + 1), C(h, k + 1), p);
    }
  }

  // Multiplying congruent polynomials by the same one.
  lemma CongruentTimes(f: Poly, h: Poly, g: Poly, m: Poly, p: int)
    requires Congruent(f, h, m, p)
    ensures Congruent(Mul(f, g), Mul(h, g), m, p)
  {
    var q :| CongruentBy(f, h, q, m, p);
    forall k: nat ensures Cong(C(Mul(f, g), k), C(Add(Mul(h, g), Mul(Mul(q, g), m)), k), p) {
      MulSameModAt(f, Add(h, Mul(q, m)), g, p, k);
      MulAddLeft(h, Mul(q, m), g, k);
      CAdd(Mul(h, g), Mul(Mul(q, g), m), k);
      MultipleTimes(q, m, g, k);
    }
    assert CongruentBy(Mul(f, g), Mul(h, g), Mul(q, g), m, p);
  }

  // (q m) g = (q g) m
  lemma MultipleTimes(q: Poly, m: Poly, g: Poly, k: nat)
    ensures C(Mul(Mul(q, m), g), k) == C(Mul(Mul(q, g), m), k)
  {
    MulAssoc(q, m, g, k);
    forall j: nat ensures C(Mul(m, g), j) == C(Mul(g, m), j) { MulComm(m, g, j); }
    MulOfSame(q, Mul(m, g), Mul(g, m), k);
    MulAssoc(q, g, m, k);
  }

  lemma SameIsCongruent(f: Poly, g: Poly, m: Poly, p: int)
    requires SameMod(f, g, p)
    ensures Congruent(f, g, m, p)
  {
    forall k: nat ensures Cong(C(f, k), C(Add(g, Mul([], m)), k), p) {
      CAdd(g, [], k);
    }
    assert CongruentBy(f, g, [], m, p);
  }

  lemma SameToMod(f: Poly, g: Poly, p: int)
    requires Same(f, g)
    ensures SameMod(f, g, p)
  {
    forall k: nat ensures Cong(C(f, k), C(g, k), p) { CongRefl(C(f, k), p); }
  }

  lemma CongruentMul(f: Poly, f': Poly, g: Poly, g': Poly, m: Poly, p: int)
    requires Congruent(f, f', m, p) && Congruent(g, g', m, p)
    ensures Congruent(Mul(f, g), Mul(f', g'), m, p)
  {
    CongruentTimes(f, f', g, m, p);
    Commuted(f', g, m, p);
    CongruentTimes(g, g', f', m, p);
    Commuted(g', f', m, p);
    CongruentTrans(Mul(f, g), Mul(f', g), Mul(g, f'), m, p);
    CongruentTrans(Mul(f, g), Mul(g, f'), Mul(g', f'), m, p);
    CongruentTrans(Mul(f, g), Mul(g', f'), Mul(f', g'), m, p);
  }

  lemma Commuted(f: Poly, g: Poly, m: Poly, p: int)
    ensures Congruent(Mul(f, g), Mul(g, f), m, p)
  {
    forall k: nat ensures C(Mul(f, g), k) == C(Mul(g, f), k) { MulComm(f, g, k); }
    SameToMod(Mul(f, g), Mul(g, f), p);
    SameIsCongruent(Mul(f, g), Mul(g, f), m, p);
  }

  // ---------- polynomial_reduce_mod ----------

  // Every coefficient is one of 0 to p - 1.
  predicate InRange(f: Poly, p: int) {
    forall k | 0 <= k < |f| :: 0 <= f[k] < p
  }

  predicate Monic(m: Poly) {
    |m| > 1 && m[|m| - 1] == 1
  }

  // One round (lines 62-65): the highest coefficient goes, with as much of the
  // modulus.
  method ReduceOnce(start: Poly, m: Poly, p: int) returns (poly: Poly)
    requires p >= 1 && Monic(m) && |start| >= |m|
    ensures |poly| == |start| - 1 && Congruent(start, poly, m, p)
    ensures InRange(start, p) ==> InRange(poly, p)
  {
    poly := start;
    var L := |start|;
    var c := start[L - 1];
    if c != 0 {
      for i := 2 to |m| + 1
        invariant |poly| == L && poly[L - 1] == c
        invariant forall k | 0 <= k <= L - i :: poly[k] == start[k]
        invariant forall k | L - i < k < L - 1 :: poly[k] == (start[k] - c * m[k - (L - |m|)]) % p
      {
        poly := poly[L - i := (poly[L - i] - poly[L - 1] * m[|m| - i]) % p];
      }
    } else {
      ZeroLead(start, m, p);
    }
    poly := poly[..L - 1];
    Reduced(start, poly, m, c, p);
    StaysInRange(start, poly, m, c, p);
  }

  lemma ZeroLead(start: Poly, m: Poly, p: int)
    requires p >= 1 && Monic(m) && |start| >= |m| && start[|start| - 1] == 0
    ensures forall k | |start| - |m| <= k < |start| - 1 :: Cong(start[k], start[k] + 0 * m[k - (|start| - |m|)], p)
  {
    forall k | |start| - |m| <= k < |start| - 1 ensures Cong(start[k], start[k] + 0 * m[k - (|start| - |m|)], p) {
      CongRefl(start[k], p);
    }
  }

  lemma Reduced(start: Poly, poly: Poly, m: Poly, c: int, p: int)
    requires p >= 1 && Monic(m) && |start| >= |m| && c == start[|start| - 1] && |poly| == |start| - 1
    requires forall k | 0 <= k < |start| - |m| :: poly[k] == start[k]
    requires forall k | |start| - |m| <= k < |start| - 1 ::
      (c == 0 && poly[k] == start[k]) || poly[k] == (start[k] - c * m[k - (|start| - |m|)]) % p
    ensures Congruent(start, poly, m, p)
  {
    var d := |start| - |m|;
    var q := ShiftBy([c], d);
    forall k: nat ensures Cong(C(start, k), C(Add(poly, Mul(q, m)), k), p) {
      MulMonomial(c, d, m, k);
      CAdd(poly, Mul(q, m), k);
      if d <= k < |start| - 1 {
        RoundKeeps(start[k], poly[k], c, m[k - d], p);
      } else if k < d {
        CongRefl(C(start, k), p);
      } else if k == |start| - 1 {
        assert c * 1 == c;
        CongRefl(c, p);
      } else {
        assert c * 0 == 0;
        CongRefl(0, p);
      }
    }
    assert CongruentBy(start, poly, q, m, p);
  }

  lemma StaysInRange(start: Poly, poly: Poly, m: Poly, c: int, p: int)
    requires p >= 1 && Monic(m) && |start| >= |m| && |poly| == |start| - 1
    requires forall k | 0 <= k < |start| - |m| :: poly[k] == start[k]
    requires forall k | |start| - |m| <= k < |start| - 1 ::
      (c == 0 && poly[k] == start[k]) || poly[k] == (start[k] - c * m[k - (|start| - |m|)]) % p
    ensures InRange(start, p) ==> InRange(poly, p)
  {
  }

  lemma RoundKeeps(s: int, t: int, c: int, a: int, p: int)
    requires p >= 1 && ((c == 0 && t == s) || t == (s - c * a) % p)
    ensures Cong(s, t + c * a, p)
  {
    if c == 0 && t == s {
      assert c * a == 0;
      CongRefl(s, p);
    } else {
      CongMod(s - c * a, p);
      CongRefl(c * a, p);
      CongAdd(s - c * a, t, c * a, c * a, p);
    }
  }

  // None where an assertion about the modulus fails.
  method ReduceMod(start: Poly, m: Poly, p: int) returns (r: Option<Poly>)
    requires p >= 1
    ensures r.None? <==> !Monic(m)
    ensures r.Some? ==> Congruent(start, r.value, m, p)
    ensures r.Some? ==> |r.value| == if |start| < |m| then |start| else |m| - 1
    ensures r.Some? && InRange(start, p) ==> InRange(r.value, p)
  {
    if |m| <= 1 || m[|m| - 1] != 1 { return None; }
    var poly := start;
    CongruentRefl(start, m, p);
    while |poly| >= |m|
      invariant Congruent(start, poly, m, p)
      invariant |poly| >= (if |start| < |m| then |start| else |m| - 1) && |poly| <= |start|
      invariant InRange(start, p) ==> InRange(poly, p)
    {
      var next := ReduceOnce(poly, m, p);
      CongruentTrans(start, poly, next, m, p);
      poly := next;
    }
    r := Some(poly);
  }

  // ---------- polynomial_multiply_mod ----------

  lemma {:induction false} MulSnoc(f: Poly, a: int, g: Poly, k: nat)
    ensures C(Mul(f + [a], g), k) == C(Mul(f, g), k) + (if k < |f| then 0 else a * C(g, k - |f|))
    decreases |f|
  {
    hide Mul;
    if f == [] {
      assert f + [a] == [a];
      MulNothing(g);
      OneTerm(a, g, k);
    } else {
      TailSnoc(f, a, g, k);
      CMul(f, g, k);
      if k > 0 { MulSnoc(f[1..], a, g, k - 1); }
    }
  }

  lemma MulNothing(g: Poly)
    ensures Mul([], g) == []
  {
  }

  lemma OneTerm(a: int, g: Poly, k: nat)
    ensures C(Mul([a], g), k) == a * C(g, k)
  {
    CMul([a], g, k);
    assert Tail([a]) == [];
  }

  lemma TailSnoc(f: Poly, a: int, g: Poly, k: nat)
    requires f != []
    ensures C(Mul(f + [a], g), k) == C(f, 0) * C(g, k) + Below(Mul(f[1..] + [a], g), k)
  {
    CMul(f + [a], g, k);
    assert Tail(f + [a]) == f[1..] + [a];
  }

  lemma {:induction false} MulDegree(f: Poly, g: Poly, k: nat)
    requires k + 1 >= |f| + |g|
    ensures C(Mul(f, g), k) == 0
    decreases |f|
  {
    CMul(f, g, k);
    if f != [] {
      assert f[0] * 0 == 0;
      if k > 0 { MulDegree(f[1..], g, k - 1); }
    } else {
      assert 0 * C(g, k) == 0;
    }
  }

  // The cross terms of one row (lines 88-90)
  ghost predicate RowAt(prod: Poly, f: Poly, a: int, g: Poly, j: nat, p: int, k: nat) {
    Cong(C(prod, k), C(Mul(f, g), k) + (if |f| <= k < |f| + j then a * C(g, k - |f|) else 0), p)
  }

  method AddRow(start: Poly, f: Poly, a: int, g: Poly, p: int) returns (prod: Poly)
    requires p >= 1 && |f| + |g| <= |start| && SameMod(start, Mul(f, g), p)
    ensures |prod| == |start| && SameMod(prod, Mul(f + [a], g), p)
    ensures InRange(start, p) ==> InRange(prod, p)
  {
    prod := start;
    for j := 0 to |g|
      invariant |prod| == |start| && (InRange(start, p) ==> InRange(prod, p))
      invariant forall k: nat :: RowAt(prod, f, a, g, j, p, k)
    {
      ghost var was := prod;
      prod := prod[|f| + j := (prod[|f| + j] + a * g[j]) % p];
      ghost var next := j + 1;
      forall k: nat ensures RowAt(prod, f, a, g, next, p, k) {
        assert RowAt(was, f, a, g, j, p, k);
        if k == |f| + j {
          TermAdded(was[k], C(Mul(f, g), k), a * g[j], p);
        }
      }
    }
    forall k: nat ensures Cong(C(prod, k), C(Mul(f + [a], g), k), p) {
      assert RowAt(prod, f, a, g, |g|, p, k);
      MulSnoc(f, a, g, k);
      if k >= |f| + |g| { assert a * 0 == 0; }
    }
  }

  lemma TermAdded(x: int, y: int, t: int, p: int)
    requires p >= 1 && Cong(x, y + 0, p)
    ensures Cong((x + t) % p, y + t, p)
  {
    CongRefl(t, p);
    CongAdd(x, y, t, t, p);
    CongMod(x + t, p);
    CongTrans((x + t) % p, x + t, y + t, p);
  }

  // Lines 84-90
  method Product(f: Poly, g: Poly, p: int) returns (prod: Poly)
    requires p >= 1
    ensures SameMod(prod, Mul(f, g), p)
    ensures |prod| == if |f| + |g| == 0 then 0 else |f| + |g| - 1
    ensures InRange(prod, p)
  {
    prod := seq(if |f| + |g| == 0 then 0 else |f| + |g| - 1, k => 0);
    forall k: nat ensures Cong(C(prod, k), C(Mul([], g), k), p) { CongRefl(0, p); }
    assert f[..0] == [];
    for i := 0 to |f|
      invariant |prod| == (if |f| + |g| == 0 then 0 else |f| + |g| - 1) && InRange(prod, p)
      invariant SameMod(prod, Mul(f[..i], g), p)
    {
      assert f[..i + 1] == f[..i] + [f[i]];
      prod := AddRow(prod, f[..i], f[i], g, p);
    }
    assert f[..|f|] == f;
  }

  method MultiplyMod(f: Poly, g: Poly, m: Poly, p: int) returns (r: Option<Poly>)
    requires p >= 1
    ensures r.None? <==> !Monic(m)
    ensures r.Some? ==> Congruent(Mul(f, g), r.value, m, p) && |r.value| < |m| && InRange(r.value, p)
  {
    var prod := Product(f, g, p);
    r := ReduceMod(prod, m, p);
    if r.Some? {
      SameModSym(prod, Mul(f, g), p);
      SameIsCongruent(Mul(f, g), prod, m, p);
      CongruentTrans(Mul(f, g), prod, r.value, m, p);
    }
  }

  lemma SameModSym(f: Poly, g: Poly, p: int)
    requires SameMod(f, g, p)
    ensures SameMod(g, f, p)
  {
    forall k: nat ensures Cong(C(g, k), C(f, k), p) { CongSym(C(f, k), C(g, k), p); }
  }

  // ---------- polynomial_exp_mod ----------

  // Square-and-multiply gives what multiplying e times would, up to a multiple
  // of the modulus, and is as short as a remainder.
  method ExpMod(base: Poly, e: nat, m: Poly, p: int) returns (r: Option<Poly>)
    requires p >= 1
    ensures r.None? <==> e >= p || (e >= 2 && !Monic(m))
    ensures r.Some? ==> Congruent(Power(base, e), r.value, m, p)
    ensures r.Some? && |m| > 1 && |base| < |m| ==> |r.value| < |m|
    ensures r.Some? && p >= 2 && (e != 1 || InRange(base, p)) ==> InRange(r.value, p)
    ensures r.Some? && p == 1 ==> r.value == [1]
  {
    hide Congruent, Mul, Power;
    if e >= p { return None; }
    FirstPowers(base, m, p);
    if e == 0 { return Some([1]); }
    var G, k := base, e;
    var s := if k % 2 == 1 then G else [1];
    ghost var w, a := 1, e % 2;
    while k > 1
      invariant k >= 1 && w >= 1 && a == e - (k / 2) * (2 * w) >= 0
      invariant Congruent(Power(base, w), G, m, p) && Congruent(Power(base, a), s, m, p)
      invariant k < e ==> Monic(m)
      invariant k <= e && (|m| > 1 && |base| < |m| ==> |s| < |m|)
      invariant (k == 1 && e >= 2 ==> InRange(s, p)) && (e == 1 ==> s == base)
    {
      HalfStep(k, w, e);
      k := k / 2;
      var square := MultiplyMod(G, G, m, p);
      if square.None? { return None; }
      NextPower(base, w, w, G, G, square.value, m, p);
      G := square.value;
      w := w + w;
      if k % 2 == 1 {
        var t := MultiplyMod(G, s, m, p);
        if t.None? { return None; }
        NextPower(base, w, a, G, s, t.value, m, p);
        s := t.value;
        a := a + w;
        assert a >= 0;
      }
    }
    r := Some(s);
  }

  lemma FirstPowers(base: Poly, m: Poly, p: int)
    ensures Congruent(Power(base, 1), base, m, p) && Congruent(Power(base, 0), [1], m, p)
  {
    assert Power(base, 1) == Mul(base, Power(base, 0)) == Mul(base, [1]);
    forall k: nat ensures C(Mul(base, [1]), k) == C(base, k) { MulConstant(base, 1, k); }
    SameToMod(Power(base, 1), base, p);
    SameIsCongruent(Power(base, 1), base, m, p);
    CongruentRefl([1], m, p);
  }

  // The exponent covered so far, with k halved and w doubled.
  lemma HalfStep(k: nat, w: nat, e: nat)
    requires k >= 1
    ensures e - (k / 2) * (2 * w) + (if k / 2 % 2 == 1 then w + w else 0) == e - (k / 2 / 2) * (2 * (w + w))
  {
    var h := k / 2;
    assert h == 2 * (h / 2) + h % 2;
    assert h * (2 * w) == (h / 2) * (2 * (w + w)) + (h % 2) * (2 * w);
  }

  lemma NextPower(base: Poly, i: nat, j: nat, f: Poly, g: Poly, r: Poly, m: Poly, p: int)
    requires Congruent(Power(base, i), f, m, p) && Congruent(Power(base, j), g, m, p)
    requires Congruent(Mul(f, g), r, m, p)
    ensures Congruent(Power(base, i + j), r, m, p)
  {
    PowerSum(base, i, j);
    var both := Mul(Power(base, i), Power(base, j));
    SameToMod(both, Power(base, i + j), p);
    SameModSym(both, Power(base, i + j), p);
    SameIsCongruent(Power(base, i + j), both, m, p);
    CongruentMul(Power(base, i), f, Power(base, j), g, m, p);
    CongruentTrans(Power(base, i + j), both, Mul(f, g), m, p);
    CongruentTrans(Power(base, i + j), Mul(f, g), r, m, p);
  }
}
