// gcd2, inverse_mod (ecdsa/numbertheory.py:185-210).
module NumberTheory {
  import opened KconfigExpr
  import opened Modular

  // ---------- gcd2 ----------

  // b % a and b // a as Python has them: the remainder has the sign of a.
  function Mod(b: int, a: int): int
    requires a != 0
  {
    if a > 0 then b % a else -(-b % -a)
  }

  function Div(b: int, a: int): int
    requires a != 0
  {
    if a > 0 then b / a else -b / -a
  }

  function Gcd(a: int, b: int): int
    decreases if a < 0 then -a else a
  {
    if a == 0 then b else Gcd(Mod(b, a), a)
  }

  method Gcd2(a: int, b: int) returns (g: int)
    ensures g == Gcd(a, b)
  {
    var x, y := a, b;
    while x != 0
      invariant Gcd(x, y) == Gcd(a, b)
      decreases if x < 0 then -x else x
    {
      x, y := Mod(y, x), x;
    }
    g := y;
  }

  // The result is a common divisor that every common divisor divides; it is
  // positive exactly if a is, and b for a = 0.
  lemma {:induction false} GcdIsGreatest(a: int, b: int)
    ensures Divides(Gcd(a, b), a) && Divides(Gcd(a, b), b)
    ensures forall d | Divides(d, a) && Divides(d, b) :: Divides(d, Gcd(a, b))
    ensures if a != 0 then a > 0 <==> Gcd(a, b) > 0 else Gcd(a, b) == b
    decreases if a < 0 then -a else a
  {
    if a == 0 {
      DividesBy(b, 0, 0);
      DividesBy(b, b, 1);
    } else {
      GcdIsGreatest(Mod(b, a), a);
      forall d | Divides(d, a) ensures Divides(d, Mod(b, a)) <==> Divides(d, b) { SameDivisors(d, a, b); }
    }
  }

  // One round keeps the common divisors.
  lemma SameDivisors(d: int, a: int, b: int)
    requires a != 0 && Divides(d, a)
    ensures Divides(d, Mod(b, a)) <==> Divides(d, b)
  {
    var q, r := Div(b, a), Mod(b, a);
    DivMod(a, b);
    if Divides(d, r) { DividesCombination(d, a, r, q, 1); }
    if Divides(d, b) {
      DividesCombination(d, b, a, 1, -q);
      assert 1 * b + -q * a == r;
    }
  }

  lemma DivMod(a: int, b: int)
    requires a != 0
    ensures Div(b, a) * a + 1 * Mod(b, a) == b
  {
    if a < 0 { assert -b == (-b / -a) * -a + -b % -a; }
  }

  lemma GcdNonzero(a: nat, b: nat)
    requires b > 0
    ensures Gcd(a, b) >= 1
  {
    GcdIsGreatest(a, b);
    var k := Quotient(Gcd(a, b), b);
  }

  // ---------- inverse_mod ----------

  ghost predicate IsInverse(a: int, m: int, x: int) {
    && Cong(a * x, 1, m)
    && 1 <= x && (m > 1 ==> x < m) && (m == 1 ==> x == 1)
  }

  // The inverse in [1, m - 1], or None for the failing assertion.
  ghost function Inverse(a: int, m: int): (r: Option<int>)
    ensures r.Some? ==> IsInverse(a, m, r.value)
    ensures r.None? ==> forall x :: !IsInverse(a, m, x)
  {
    if exists x :: IsInverse(a, m, x) then var x :| IsInverse(a, m, x); Some(x) else None
  }

  lemma InverseUnique(a: int, m: int, x: int, y: int)
    requires m >= 1 && IsInverse(a, m, x) && IsInverse(a, m, y)
    ensures x == y
  {
    // x = x(ay) = (ax)y = y
    var j, k := Quotient(m, a * x - 1), Quotient(m, a * y - 1);
    InverseProducts(a, m, x, y, j, k);
    CongBy(x, y, m, y * j - x * k);
    if m > 1 { CongCanonical(x, y, m); }
  }

  lemma InverseProducts(a: int, m: int, x: int, y: int, j: int, k: int)
    requires a * x - 1 == j * m && a * y - 1 == k * m
    ensures x - y == (y * j - x * k) * m
  {
    calc {
      (y * j - x * k) * m;
      y * (j * m) - x * (k * m);
      y * (a * x - 1) - x * (a * y - 1);
      x - y;
    }
  }

  lemma InverseIs(a: int, m: int, x: int)
    requires m >= 1 && IsInverse(a, m, x)
    ensures Inverse(a, m) == Some(x)
  {
    InverseUnique(a, m, x, Inverse(a, m).value);
  }

  // Any solution of ax = 1, reduced, is the inverse.
  lemma SolutionGivesInverse(a: int, m: int, x: int)
    requires m >= 1 && Cong(a * x, 1, m)
    ensures Inverse(a, m).Some? && Cong(Inverse(a, m).value, x, m)
  {
    var y := if m == 1 then 1 else x % m;
    CongMod(x, m);
    if m == 1 { CongBy(1, x, 1, 1 - x); }
    assert Cong(y, x, m);
    CongRefl(a, m);
    CongMul(a, a, y, x, m);
    CongTrans(a * y, a * x, 1, m);
    if m > 1 && y == 0 {
      CongSym(a * y, 1, m);
      CongZero(1, m);
    }
    assert IsInverse(a, m, y);
    InverseIs(a, m, y);
  }

  // There is an inverse exactly when the arguments are coprime.
  lemma CommonDivisorBlocksInverse(a: int, m: int, x: int, d: int)
    requires d >= 1 && Divides(d, a) && Divides(d, m) && Cong(a * x, 1, m)
    ensures d == 1
  {
    var k := Quotient(m, a * x - 1);
    DividesCombination(d, a, m, x, -k);
    assert x * a + -k * m == 1;
    DivisorOfOne(d);
  }

  // Ferguson and Schneier's loop. The cofactors of c and d are kept with
  // opposite signs, and |uc| d + |ud| c stays m, which bounds the last ud.
  method InverseMod(a: int, m: int) returns (r: Option<int>)
    requires m >= 1
    ensures r == Inverse(a, m)
    ensures r.Some? <==> Gcd(a % m, m) == 1
  {
    var b := if a < 0 || m <= a then a % m else a;
    ReducedFirst(a, m, b);
    var c: nat, d: nat := b, m;
    var uc, vc, ud, vd := 1, 0, 0, 1;
    while c != 0
      invariant 0 <= c < d
      invariant Gcd(c, d) == Gcd(b, m)
      invariant uc * b + vc * m == c && ud * b + vd * m == d
      invariant Cofactors(uc, ud, c, d, m)
      invariant m == 1 ==> c == 0 && ud == 0
      decreases c
    {
      var q := d / c;
      CofactorStep(uc, ud, c, d, m);
      BezoutStep(uc, vc, c, ud, vd, d, q, b, m);
      c, d := d % c, c;
      uc, vc, ud, vd := ud - q * uc, vd - q * vc, uc, vc;
    }
    assert d == Gcd(b, m);
    if d != 1 {
      NotCoprime(a, b, m);
      return None;
    }
    LastCofactor(uc, ud, vd, b, m);
    r := Some(if ud > 0 then ud else ud + m);
    InverseFound(a, b, m, ud, vd, r.value);
  }

  lemma ReducedFirst(a: int, m: int, b: int)
    requires m >= 1 && b == if a < 0 || m <= a then a % m else a
    ensures b == a % m && Cong(b, a, m)
  {
    CongMod(a, m);
  }

  predicate Cofactors(uc: int, ud: int, c: int, d: int, m: int) {
    || (uc >= 0 && ud <= 0 && -ud <= uc && uc * d - ud * c == m)
    || (uc <= 0 && ud >= 0 && ud <= -uc && ud * c - uc * d == m)
  }

  lemma CofactorStep(uc: int, ud: int, c: int, d: int, m: int)
    requires 0 < c < d && Cofactors(uc, ud, c, d, m)
    ensures Cofactors(ud - d / c * uc, uc, d % c, c, m)
  {
    var q, r := d / c, d % c;
    QuotientAtLeastOne(d, c);
    SameDeterminant(uc, ud, c, q, r);
    StepSize(uc, q);
  }

  lemma QuotientAtLeastOne(d: int, c: int)
    requires 0 < c < d
    ensures d == (d / c) * c + d % c && d / c >= 1
  {
  }

  lemma SameDeterminant(uc: int, ud: int, c: int, q: int, r: int)
    ensures (ud - q * uc) * c - uc * r == ud * c - uc * (q * c + r)
  {
    assert (ud - q * uc) * c == ud * c - q * uc * c;
    assert uc * (q * c + r) == uc * (q * c) + uc * r && uc * (q * c) == q * uc * c;
  }

  lemma StepSize(uc: int, q: int)
    requires q >= 1
    ensures if uc >= 0 then q * uc >= uc else q * uc <= uc
  {
    if uc >= 0 { MulMono(1, uc, q, uc); } else { MulMono(1, -uc, q, -uc); }
  }

  lemma BezoutStep(uc: int, vc: int, c: int, ud: int, vd: int, d: int, q: int, b: int, m: int)
    requires c > 0 && q == d / c && uc * b + vc * m == c && ud * b + vd * m == d
    ensures (ud - q * uc) * b + (vd - q * vc) * m == d % c
  {
    assert d % c == d - q * c;
    assert (ud - q * uc) * b + (vd - q * vc) * m == (ud * b + vd * m) - q * (uc * b + vc * m);
  }

  lemma LastCofactor(uc: int, ud: int, vd: int, b: int, m: int)
    requires m >= 1 && ud * b + vd * m == 1 && Cofactors(uc, ud, 0, 1, m)
    ensures -m <= ud <= m && (m > 1 ==> ud != 0 && ud != m && ud != -m)
  {
    if ud == 0 {
      DividesBy(m, 1, vd);
      DivisorOfOne(m);
    } else if ud == m {
      assert (b + vd) * m == 1;
      DividesBy(m, 1, b + vd);
      DivisorOfOne(m);
    } else if ud == -m {
      assert (vd - b) * m == 1;
      DividesBy(m, 1, vd - b);
      DivisorOfOne(m);
    }
  }

  lemma NotCoprime(a: int, b: nat, m: nat)
    requires m >= 1 && Cong(b, a, m) && Gcd(b, m) != 1
    ensures Inverse(a, m) == None
  {
    var g := Gcd(b, m);
    GcdIsGreatest(b, m);
    GcdNonzero(b, m);
    DividesCongruent(g, a, b, m);
    forall x ensures !IsInverse(a, m, x) {
      if IsInverse(a, m, x) { CommonDivisorBlocksInverse(a, m, x, g); }
    }
  }

  lemma DividesCongruent(g: int, a: int, b: int, m: int)
    requires Divides(g, b) && Divides(g, m) && Cong(b, a, m)
    ensures Divides(g, a)
  {
    var k := Quotient(m, b - a);
    DividesCombination(g, b, m, 1, -k);
    assert 1 * b + -k * m == a;
  }

  lemma InverseFound(a: int, b: int, m: int, ud: int, vd: int, x: int)
    requires m >= 1 && Cong(b, a, m) && ud * b + vd * m == 1
    requires x == if ud > 0 then ud else ud + m
    requires -m <= ud <= m && (m > 1 ==> ud != 0 && ud != m && ud != -m)
    requires m == 1 ==> ud == 0
    ensures Inverse(a, m) == Some(x)
  {
    var j := if ud > 0 then 0 else 1;
    assert x == ud + j * m;
    CongSym(b, a, m);
    CongBy(x, ud, m, j);
    CongMul(a, b, x, ud, m);
    CongBy(b * ud, 1, m, -vd);
    CongTrans(a * x, b * ud, 1, m);
    InverseIs(a, m, x);
  }

  // ---------- where inverses exist ----------

  lemma {:induction false} Bezout(a: nat, b: nat) returns (x: int, y: int)
    ensures x * a + y * b == Gcd(a, b)
    decreases a
  {
    if a == 0 {
      x, y := 0, 1;
    } else {
      var u, v := Bezout(b % a, a);
      x, y := v - u * (b / a), u;
      assert b % a == b - b / a * a;
      assert u * (b % a) == u * b - u * (b / a) * a;
    }
  }

  lemma InverseIffCoprime(a: int, m: int)
    requires m >= 1
    ensures Inverse(a, m).Some? <==> Gcd(a % m, m) == 1
  {
    var b := a % m;
    CongMod(a, m);
    if Gcd(b, m) == 1 {
      var x, y := Bezout(b, m);
      assert b * x - 1 == -y * m;
      CongBy(b * x, 1, m, -y);
      CongRefl(x, m);
      CongMul(a, b, x, x, m);
      CongTrans(a * x, b * x, 1, m);
      SolutionGivesInverse(a, m, x);
    } else {
      NotCoprime(a, b, m);
    }
  }

  // Modulo a prime everything but 0 has an inverse.
  lemma PrimeInverse(a: int, p: int)
    requires IsPrime(p)
    ensures Inverse(a, p).Some? <==> !Divides(p, a)
  {
    var b := a % p;
    var g := Gcd(b, p);
    GcdIsGreatest(b, p);
    GcdNonzero(b, p);
    InverseIffCoprime(a, p);
    DividesIffMod(p, a);
    DivisorAtMost(g, p);
    if b == 0 {
      DividesBy(p, b, 0);
      DividesBy(p, p, 1);
      assert Divides(p, g);
      DivisorAtMost(p, g);
    } else if g == p {
      DivisorAtMost(p, b);
    }
  }

  lemma PrimeDividesProduct(p: int, a: int, b: int)
    requires IsPrime(p) && Divides(p, a * b)
    ensures Divides(p, a) || Divides(p, b)
  {
    PrimeInverse(a, p);
    if !Divides(p, a) {
      var x := Inverse(a, p).value;
      var j, k := Quotient(p, a * x - 1), Quotient(p, a * b);
      ProductCancelled(a, b, x, p, j, k);
      DividesBy(p, b, x * k - j * b);
    }
  }

  // b = x(ab) - (ax - 1)b
  lemma ProductCancelled(a: int, b: int, x: int, p: int, j: int, k: int)
    requires a * x - 1 == j * p && a * b == k * p
    ensures b == (x * k - j * b) * p
  {
    calc {
      (x * k - j * b) * p;
      x * (k * p) - b * (j * p);
      x * (a * b) - b * (a * x - 1);
      b;
    }
  }
}
