// Divisibility and congruence, as far as the modular arithmetic needs them.
module Modular {

  ghost predicate Divides(d: int, n: int) {
    exists k: int :: n == Times(k, d)
  }

  // A named product, for the quantifier above to be triggered by.
  function Times(k: int, d: int): int { k * d }

  // n is a prime number.
  ghost predicate IsPrime(n: int) {
    n >= 2 && NoDivisorBelow(n, n)
  }

  ghost predicate NoDivisorBelow(n: int, b: int) {
    forall d | 2 <= d < b :: !Divides(d, n)
  }

  ghost predicate Cong(a: int, b: int, m: int) {
    Divides(m, a - b)
  }

  lemma DividesBy(d: int, n: int, k: int)
    requires n == k * d
    ensures Divides(d, n)
  {
    assert n == Times(k, d);
  }

  ghost function Quotient(d: int, n: int): (k: int)
    requires Divides(d, n)
    ensures n == k * d
  {
    var k: int :| n == Times(k, d); k
  }

  lemma DividesIffMod(d: int, n: int)
    requires d > 0
    ensures Divides(d, n) <==> n % d == 0
  {
    if n % d == 0 { DividesBy(d, n, n / d); }
    if Divides(d, n) {
      var k := Quotient(d, n);
      MultipleMod(k, d);
    }
  }

  lemma MultipleMod(k: int, d: int)
    requires d > 0
    ensures (k * d) % d == 0
  {
    var r := (k * d) % d;
    var q := (k * d) / d;
    assert k * d == q * d + r;
    Between(k - q, d, r);
  }

  lemma MultipleSize(k: int, d: int)
    requires d > 0
    ensures k >= 1 ==> k * d >= d && k * d >= k
    ensures k <= 0 ==> k * d <= 0
    ensures k <= -1 ==> k * d <= -d
  {
  }

  lemma MulMono(a: int, b: int, c: int, d: int)
    requires 0 <= a <= c && 0 <= b <= d
    ensures 0 <= a * b <= c * d
  {
    assert c * d - a * b == (c - a) * d + a * (d - b);
  }

  // A multiple of d inside [0, d) is 0.
  lemma Between(k: int, d: int, r: int)
    requires d > 0 && 0 <= r < d && r == k * d
    ensures r == 0 && k == 0
  {
    MultipleSize(k, d);
  }

  lemma DividesTrans(a: int, b: int, c: int)
    requires Divides(a, b) && Divides(b, c)
    ensures Divides(a, c)
  {
    var j, k := Quotient(a, b), Quotient(b, c);
    assert c == (k * j) * a;
    DividesBy(a, c, k * j);
  }

  // A divisor divides every combination.
  lemma DividesCombination(d: int, x: int, y: int, u: int, v: int)
    requires Divides(d, x) && Divides(d, y)
    ensures Divides(d, u * x + v * y)
  {
    var j, k := Quotient(d, x), Quotient(d, y);
    assert u * x == (u * j) * d && v * y == (v * k) * d;
    DividesBy(d, u * x + v * y, u * j + v * k);
  }

  lemma DivisorOfOne(d: int)
    requires d >= 1 && Divides(d, 1)
    ensures d == 1
  {
    var k := Quotient(d, 1);
    MultipleSize(k, d);
  }

  lemma DivisorAtMost(d: int, n: int)
    requires Divides(d, n) && n >= 1
    ensures d <= n
  {
    var k := Quotient(d, n);
    if d > n { MultipleSize(k, d); }
  }

  // ---------- congruence is an equivalence kept by sums and products ----------

  lemma CongBy(a: int, b: int, m: int, k: int)
    requires a - b == k * m
    ensures Cong(a, b, m)
  {
    DividesBy(m, a - b, k);
  }

  lemma CongRefl(a: int, m: int)
    ensures Cong(a, a, m)
  {
    CongBy(a, a, m, 0);
  }

  lemma CongSym(a: int, b: int, m: int)
    requires Cong(a, b, m)
    ensures Cong(b, a, m)
  {
    var k := Quotient(m, a - b);
    CongBy(b, a, m, -k);
  }

  lemma CongTrans(a: int, b: int, c: int, m: int)
    requires Cong(a, b, m) && Cong(b, c, m)
    ensures Cong(a, c, m)
  {
    var j, k := Quotient(m, a - b), Quotient(m, b - c);
    CongBy(a, c, m, j + k);
  }

  lemma CongAdd(a: int, b: int, x: int, y: int, m: int)
    requires Cong(a, b, m) && Cong(x, y, m)
    ensures Cong(a + x, b + y, m)
  {
    var j, k := Quotient(m, a - b), Quotient(m, x - y);
    CongBy(a + x, b + y, m, j + k);
  }

  lemma CongSub(a: int, b: int, x: int, y: int, m: int)
    requires Cong(a, b, m) && Cong(x, y, m)
    ensures Cong(a - x, b - y, m)
  {
    var j, k := Quotient(m, a - b), Quotient(m, x - y);
    CongBy(a - x, b - y, m, j - k);
  }

  lemma CongMul(a: int, b: int, x: int, y: int, m: int)
    requires Cong(a, b, m) && Cong(x, y, m)
    ensures Cong(a * x, b * y, m)
  {
    var j, k := Quotient(m, a - b), Quotient(m, x - y);
    assert a * x - b * y == (a - b) * x + b * (x - y);
    assert (a - b) * x == (j * x) * m && b * (x - y) == (b * k) * m;
    CongBy(a * x, b * y, m, j * x + b * k);
  }

  lemma CongMod(a: int, m: int)
    requires m > 0
    ensures Cong(a % m, a, m) && Cong(a, a % m, m)
  {
    CongBy(a, a % m, m, a / m);
    CongSym(a, a % m, m);
  }

  // Congruent numbers are the same number once reduced.
  lemma CongIffSameMod(a: int, b: int, m: int)
    requires m > 0
    ensures Cong(a, b, m) <==> a % m == b % m
  {
    CongMod(a, m);
    CongMod(b, m);
    if Cong(a, b, m) {
      CongTrans(a % m, a, b, m);
      CongTrans(a % m, b, b % m, m);
      var k := Quotient(m, a % m - b % m);
      if a % m >= b % m { Between(k, m, a % m - b % m); } else { Between(-k, m, b % m - a % m); }
    }
    if a % m == b % m { CongTrans(a, a % m, b, m); }
  }

  lemma CongZero(a: int, m: int)
    requires m > 0
    ensures Cong(a, 0, m) <==> a % m == 0
    ensures Cong(a, 0, m) <==> Divides(m, a)
  {
    assert a - 0 == a;
    DividesIffMod(m, a);
  }

  lemma CongCanonical(a: int, b: int, m: int)
    requires Cong(a, b, m) && 0 <= a < m && 0 <= b < m
    ensures a == b
  {
    var k := Quotient(m, a - b);
    if a >= b { Between(k, m, a - b); } else { CongSym(a, b, m); Between(-k, m, b - a); }
  }
}
