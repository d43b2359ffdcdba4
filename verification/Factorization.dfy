// factorization (ecdsa/numbertheory.py:244-291): trial division by a table of
// small primes, then by every odd number.
module Factorization {
  import opened Modular

  // (base, exponent)
  datatype Factor = Factor(base: int, count: nat)

  function Pow(b: int, e: nat): int {
    if e == 0 then 1 else b * Pow(b, e - 1)
  }

  function Product(fs: seq<Factor>): int {
    if fs == [] then 1 else Product(fs[..|fs| - 1]) * Pow(fs[|fs| - 1].base, fs[|fs| - 1].count)
  }

  // The table holds exactly the primes up to its last entry, in order, and
  // that entry is odd.
  ghost predicate CompleteTable(small: seq<int>) {
    && |small| >= 2 && small[0] == 2
    && (forall i, j | 0 <= i < j < |small| :: small[i] < small[j])
    && (forall k | 0 <= k < |small| :: IsPrime(small[k]))
    && (forall n | IsPrime(n) && n <= small[|small| - 1] :: n in small)
  }

  // Bases strictly increasing and below limit; each is prime, unless the
  // probabilistic test is wrong about the last one.
  ghost predicate Factors(fs: seq<Factor>, limit: int, test: int -> bool) {
    && (forall i | 0 <= i < |fs| :: 2 <= fs[i].base < limit && fs[i].count >= 1)
    && (forall i | 0 <= i < |fs| :: IsPrime(fs[i].base) || (i == |fs| - 1 && test(fs[i].base)))
    && (forall i, j | 0 <= i < j < |fs| :: fs[i].base < fs[j].base)
  }

  // ---------- divisors ----------

  lemma SmallestDivisorIsPrime(n: int, d: int)
    requires d >= 2 && Divides(d, n) && NoDivisorBelow(n, d)
    ensures IsPrime(d)
  {
    forall t | 2 <= t < d ensures !Divides(t, d) {
      if Divides(t, d) { DividesTrans(t, d, n); }
    }
  }

  // Numbers that are not prime need not be tried.
  lemma CompositeNeedNotBeTried(n: int, b: int)
    requires b >= 2 && NoDivisorBelow(n, b) && !IsPrime(b)
    ensures !Divides(b, n)
  {
    var t :| 2 <= t < b && Divides(t, b);
    if Divides(b, n) { DividesTrans(t, b, n); }
  }

  lemma {:induction false} SkipComposites(n: int, b: int, c: int)
    requires 2 <= b <= c && NoDivisorBelow(n, b) && forall t | b <= t < c :: !IsPrime(t)
    ensures NoDivisorBelow(n, c)
    decreases c - b
  {
    if b < c {
      CompositeNeedNotBeTried(n, b);
      SkipComposites(n, b + 1, c);
    }
  }

  // No divisor below d, and none possible from d on: what is left is prime.
  lemma RestIsPrime(n: int, d: int)
    requires d >= 2 && n > 1 && NoDivisorBelow(n, d) && n < d * d
    ensures IsPrime(n)
  {
    forall t | 2 <= t < n ensures !Divides(t, n) {
      if Divides(t, n) {
        var k := Quotient(t, n);
        Cofactor(n, k, t);
        MulMono(d, d, k, t);
      }
    }
  }

  lemma Cofactor(n: int, k: int, t: int)
    requires n == k * t && 2 <= t < n
    ensures 2 <= k < n && Divides(k, n)
  {
    MultipleSize(k, t);
    DividesBy(k, n, t);
    MulMono(k, 2, k, t);
  }

  lemma QuotientKeepsNoDivisor(n: int, m: int, c: int, b: int)
    requires n == c * m && NoDivisorBelow(n, b)
    ensures NoDivisorBelow(m, b)
  {
    forall t | 2 <= t < b ensures !Divides(t, m) {
      if Divides(t, m) {
        DividesBy(m, n, c);
        DividesTrans(t, m, n);
      }
    }
  }

  // n = d^count * m, and d divides m no more.
  ghost predicate DividedOut(n: int, d: int, m: int, count: nat) {
    n == Pow(d, count) * m && count >= 1 && m >= 1 && m <= n && !Divides(d, m)
  }

  lemma PowPositive(d: int, e: nat)
    requires d >= 1
    ensures Pow(d, e) >= 1
  {
  }

  lemma DivideOutMore(n: int, d: int, m: int, count: nat)
    requires n == Pow(d, count) * m && d >= 2 && m % d == 0 && m >= 1
    ensures n == Pow(d, count + 1) * (m / d) && 1 <= m / d < m
  {
    var q := m / d;
    assert m == d * q;
    PowMore(d, count, q);
    HalfAtMost(m, d);
  }

  lemma PowMore(d: int, count: nat, q: int)
    ensures Pow(d, count) * (d * q) == Pow(d, count + 1) * q
  {
    var w := Pow(d, count);
    assert Pow(d, count + 1) == d * w;
    assert w * (d * q) == d * w * q;
  }

  lemma HalfAtMost(m: int, d: int)
    requires m >= 1 && d >= 2 && m % d == 0
    ensures 1 <= m / d < m
  {
    var q := m / d;
    assert m == d * q;
    MultipleSize(q, d);
    MulMono(2, q, d, q);
  }

  lemma DivideOutDone(n: int, d: int, m: int, count: nat)
    requires n == Pow(d, count) * m && d >= 2 && m % d != 0 && m >= 1 && count >= 1
    ensures DividedOut(n, d, m, count)
  {
    DividesIffMod(d, m);
    PowPositive(d, count);
    MultipleSize(Pow(d, count), m);
    assert Pow(d, count) * m >= m;
  }

  // n = d^count * m so far.
  ghost predicate Partly(n: int, d: int, m: int, count: nat) {
    n == Pow(d, count) * m && d >= 2 && m >= 1
  }

  // Dividing by d once more, and stopping or not.
  lemma DivideOutStep(n: int, d: int, m: int, count: nat)
    requires Partly(n, d, m, count) && m % d == 0
    ensures d <= m && m / d < m && Partly(n, d, m / d, count + 1)
    ensures (m / d) % d != 0 ==> DividedOut(n, d, m / d, count + 1)
  {
    DivideOutMore(n, d, m, count);
    var q := m / d;
    MulMono(d, 1, d, q);
    if q % d != 0 { DivideOutDone(n, d, q, count + 1); }
  }

  lemma TooSmallToDivide(m: int, d: int)
    requires 1 <= m < d
    ensures m % d != 0
  {
  }

  // Lines 259-265
  method DivideOutSmall(n: int, d: int) returns (m: int, count: nat)
    requires d >= 2 && n >= 1 && n % d == 0
    ensures DividedOut(n, d, m, count)
  {
    m, count := n, 1;
    var q, r := n / d, n % d;
    assert Partly(n, d, n, 0);
    DivideOutStep(n, d, n, 0);
    while d <= m
      invariant d <= m && m % d == 0 && q == m / d && count >= 1
      invariant Partly(n, d, m, count - 1)
      decreases m
    {
      DivideOutStep(n, d, m, count - 1);
      m := q;
      q, r := m / d, m % d;
      if r != 0 { break; }
      DivideOutStep(n, d, m, count);
      count := count + 1;
    }
  }

  // Lines 281-287
  method DivideOutLarge(n: int, d: int) returns (m: int, count: nat)
    requires d >= 2 && n >= 1 && n % d == 0
    ensures DividedOut(n, d, m, count)
  {
    assert Partly(n, d, n, 0);
    DivideOutStep(n, d, n, 0);
    m, count := n / d, 1;
    while d <= m
      invariant count >= 1 && Partly(n, d, m, count)
      invariant m % d != 0 ==> DividedOut(n, d, m, count)
      decreases m
    {
      var q, r := m / d, m % d;
      if r != 0 { return; }
      DivideOutStep(n, d, m, count);
      m := q;
      count := count + 1;
    }
    TooSmallToDivide(m, d);
  }

  // The state of the search: what has been found times what is left, primes only
  // so far, and no divisor of the rest below d.
  ghost predicate Searched(n0: int, fs: seq<Factor>, n: int, d: int, test: int -> bool) {
    && n >= 1 && d >= 2 && Product(fs) * n == n0 && Factors(fs, d, test) && NoDivisorBelow(n, d)
    && (forall i | 0 <= i < |fs| :: IsPrime(fs[i].base))
  }

  lemma Found(n0: int, fs: seq<Factor>, n: int, d: int, m: int, count: nat, test: int -> bool)
    requires Searched(n0, fs, n, d, test) && DividedOut(n, d, m, count)
    ensures Searched(n0, fs + [Factor(d, count)], m, d + 1, test)
  {
    DividedBy(n, d, m, count);
    SmallestDivisorIsPrime(n, d);
    QuotientKeepsNoDivisor(n, m, Pow(d, count), d);
    OneMoreFactor(fs, d, count, m, test);
    ProductSnoc(fs, Factor(d, count), m);
  }

  lemma OneMoreFactor(fs: seq<Factor>, d: int, count: nat, m: int, test: int -> bool)
    requires Factors(fs, d, test) && d >= 2 && count >= 1 && IsPrime(d)
    requires forall i | 0 <= i < |fs| :: IsPrime(fs[i].base)
    ensures var gs := fs + [Factor(d, count)];
      Factors(gs, d + 1, test) && forall i | 0 <= i < |gs| :: IsPrime(gs[i].base)
  {
  }

  lemma ProductSnoc(fs: seq<Factor>, f: Factor, m: int)
    ensures Product(fs + [f]) * m == Product(fs) * (Pow(f.base, f.count) * m)
  {
    var gs := fs + [f];
    assert gs[..|gs| - 1] == fs;
    Regroup(Product(fs), Pow(f.base, f.count), m);
  }

  lemma DividedBy(n: int, d: int, m: int, count: nat)
    requires n == Pow(d, count) * m && count >= 1
    ensures Divides(d, n)
  {
    PowMore(d, count - 1, m);
    Swap(d, Pow(d, count - 1), m);
    DividesBy(d, n, Pow(d, count - 1) * m);
  }

  lemma Regroup(x: int, y: int, z: int)
    ensures x * y * z == x * (y * z)
  {
  }

  lemma Swap(d: int, w: int, m: int)
    ensures w * (d * m) == w * m * d
  {
  }

  lemma NotFound(n0: int, fs: seq<Factor>, n: int, d: int, test: int -> bool)
    requires Searched(n0, fs, n, d, test) && n % d != 0
    ensures Searched(n0, fs, n, d + 1, test)
  {
    DividesIffMod(d, n);
  }

  lemma Skip(n0: int, fs: seq<Factor>, n: int, d: int, e: int, test: int -> bool)
    requires Searched(n0, fs, n, d, test) && d <= e && forall t | d <= t < e :: !IsPrime(t)
    ensures Searched(n0, fs, n, e, test)
  {
    SkipComposites(n, d, e);
  }

  // Nothing is left once n is below every number that could divide it.
  lemma NothingLeft(n: int, d: int)
    requires n >= 1 && n < d && NoDivisorBelow(n, d)
    ensures n == 1
  {
    if n >= 2 { DividesBy(n, n, 1); }
  }

  lemma Exhausted(n0: int, fs: seq<Factor>, n: int, d: int, test: int -> bool)
    requires Searched(n0, fs, n, d, test) && n < d
    ensures Product(fs) == n0 && Factors(fs, d, test)
  {
    NothingLeft(n, d);
  }

  lemma LastFactor(n0: int, fs: seq<Factor>, n: int, d: int, test: int -> bool)
    requires Searched(n0, fs, n, d, test) && d <= n && (IsPrime(n) || test(n))
    ensures var gs := fs + [Factor(n, 1)]; Product(gs) == n0 && Factors(gs, n + 1, test)
  {
    ProductSnoc(fs, Factor(n, 1), 1);
    assert Pow(n, 1) == n * Pow(n, 0) == n;
  }

  // For n >= 2 the product of the powers is n; the bases increase strictly and all
  // but perhaps the last are prime.
  method Factorize(n: int, small: seq<int>, test: int -> bool) returns (result: seq<Factor>, ghost limit: int)
    requires CompleteTable(small)
    ensures n < 2 ==> result == []
    ensures n >= 2 ==> Product(result) == n && Factors(result, limit, test)
  {
    result, limit := [], 2;
    if n < 2 { return; }
    var rest;
    result, rest := TrySmall(n, small, test);
    var last := small[|small| - 1];
    limit := last + 1;
    LastIsOdd(small);
    result, limit := TryRest(n, last, result, rest, test);
  }

  // Lines 268-289
  method TryRest(n0: int, last: int, found: seq<Factor>, rest: int, test: int -> bool) returns (result: seq<Factor>, ghost limit: int)
    requires last >= 3 && last % 2 == 1 && Searched(n0, found, rest, last + 1, test)
    ensures Product(result) == n0 && Factors(result, limit, test)
  {
    result, limit := found, last + 1;
    if rest > last {
      if test(rest) {
        LastFactor(n0, result, rest, last + 1, test);
        result := result + [Factor(rest, 1)];
        limit := rest + 1;
      } else {
        result, limit := TryOdd(n0, last, result, rest, test);
      }
    } else {
      Exhausted(n0, result, rest, last + 1, test);
    }
  }

  // Where the search stands before the k-th entry of the table.
  function Before(small: seq<int>, k: nat): int
    requires k <= |small|
  {
    if k == 0 then 2 else small[k - 1] + 1
  }

  // Lines 256-266
  method TrySmall(n0: int, small: seq<int>, test: int -> bool) returns (result: seq<Factor>, n: int)
    requires n0 >= 2 && CompleteTable(small)
    ensures Searched(n0, result, n, small[|small| - 1] + 1, test)
  {
    result, n := [], n0;
    assert Searched(n0, [], n0, 2, test);
    for k := 0 to |small|
      invariant Searched(n0, result, n, Before(small, k), test)
    {
      var d := small[k];
      SkipToEntry(n0, result, n, small, k, test);
      if d > n {
        SearchedAll(n0, result, n, small, k, test);
        return;
      }
      result, n := TryEntry(n0, result, n, d, test);
    }
  }

  method TryEntry(ghost n0: int, found: seq<Factor>, n: int, d: int, ghost test: int -> bool) returns (result: seq<Factor>, m: int)
    requires Searched(n0, found, n, d, test)
    ensures Searched(n0, result, m, d + 1, test)
  {
    if n % d == 0 {
      var count;
      m, count := DivideOutSmall(n, d);
      Found(n0, found, n, d, m, count, test);
      result := found + [Factor(d, count)];
    } else {
      NotFound(n0, found, n, d, test);
      result, m := found, n;
    }
  }

  lemma SkipToEntry(n0: int, fs: seq<Factor>, n: int, small: seq<int>, k: nat, test: int -> bool)
    requires CompleteTable(small) && k < |small| && Searched(n0, fs, n, Before(small, k), test)
    ensures Searched(n0, fs, n, small[k], test)
  {
    NextInTable(small, k);
    Skip(n0, fs, n, Before(small, k), small[k], test);
  }

  lemma SearchedAll(n0: int, fs: seq<Factor>, n: int, small: seq<int>, k: nat, test: int -> bool)
    requires CompleteTable(small) && k < |small| && Searched(n0, fs, n, small[k], test) && n < small[k]
    ensures Searched(n0, fs, n, small[|small| - 1] + 1, test)
  {
    NothingLeft(n, small[k]);
    assert k < |small| - 1 ==> small[k] < small[|small| - 1];
    OneIsSearched(n0, fs, small[k], small[|small| - 1] + 1, test);
  }

  lemma NextInTable(small: seq<int>, k: nat)
    requires CompleteTable(small) && k < |small|
    ensures small[k] >= Before(small, k)
    ensures forall t | Before(small, k) <= t < small[k] :: !IsPrime(t)
  {
    assert k < |small| - 1 ==> small[k] < small[|small| - 1];
    forall t | Before(small, k) <= t < small[k] ensures !IsPrime(t) {
      forall i | 0 <= i < |small| ensures small[i] != t {
        if i < k { assert small[i] <= small[k - 1]; } else { assert small[k] <= small[i]; }
      }
    }
  }

  lemma OneIsSearched(n0: int, fs: seq<Factor>, d: int, e: int, test: int -> bool)
    requires Searched(n0, fs, 1, d, test) && d <= e
    ensures Searched(n0, fs, 1, e, test)
  {
    forall t | 2 <= t < e ensures !Divides(t, 1) {
      if Divides(t, 1) { DivisorOfOne(t); }
    }
  }

  // Lines 275-289
  method TryOdd(n0: int, last: int, found: seq<Factor>, rest: int, test: int -> bool) returns (result: seq<Factor>, ghost limit: int)
    requires last >= 3 && last % 2 == 1 && Searched(n0, found, rest, last + 1, test)
    ensures Product(result) == n0 && Factors(result, limit, test)
  {
    result := found;
    var n, d := rest, last;
    while true
      invariant d >= 3 && d % 2 == 1
      invariant Searched(n0, result, n, d + 1, test)
      decreases n - d
    {
      NextOdd(n0, result, n, d, test);
      d := d + 2;
      var q, r := n / d, n % d;
      if q < d { break; }
      result, n := TryOne(n0, result, n, d, q, r, test);
    }
    limit := if n > 1 then n + 1 else d;
    Finish(n0, result, n, d, test);
    if n > 1 { result := result + [Factor(n, 1)]; }
  }

  lemma NextOdd(n0: int, fs: seq<Factor>, n: int, d: int, test: int -> bool)
    requires d >= 3 && d % 2 == 1 && Searched(n0, fs, n, d + 1, test)
    ensures Searched(n0, fs, n, d + 2, test) && (n / (d + 2) >= d + 2 ==> d + 2 <= n)
  {
    EvenIsCovered(n0, fs, n, d + 1, test);
    QuotientTooSmall(n, d + 2);
  }

  lemma Finish(n0: int, fs: seq<Factor>, n: int, d: int, test: int -> bool)
    requires Searched(n0, fs, n, d, test) && n / d < d
    ensures n > 1 ==> Product(fs + [Factor(n, 1)]) == n0 && Factors(fs + [Factor(n, 1)], n + 1, test)
    ensures n <= 1 ==> Product(fs) == n0 && Factors(fs, d, test)
  {
    if n > 1 {
      LastIsPrime(n, d);
      LastFactor(n0, fs, n, d, test);
    }
  }

  // One divisor (lines 280-288)
  method TryOne(ghost n0: int, found: seq<Factor>, n: int, d: int, q: int, r: int, ghost test: int -> bool) returns (result: seq<Factor>, m: int)
    requires Searched(n0, found, n, d, test) && q == n / d && r == n % d
    ensures Searched(n0, result, m, d + 1, test) && m <= n
  {
    if r == 0 {
      var count;
      m, count := DivideOutLarge(n, d);
      Found(n0, found, n, d, m, count, test);
      result := found + [Factor(d, count)];
    } else {
      NotFound(n0, found, n, d, test);
      result, m := found, n;
    }
  }

  lemma LastIsPrime(n: int, d: int)
    requires n > 1 && d >= 2 && NoDivisorBelow(n, d) && n / d < d
    ensures IsPrime(n) && d <= n
  {
    QuotientTooSmall(n, d);
    RestIsPrime(n, d);
    if n < d { NothingLeft(n, d); }
  }

  lemma LastIsOdd(small: seq<int>)
    requires CompleteTable(small)
    ensures var d := small[|small| - 1]; d >= 3 && d % 2 == 1
  {
    var d := small[|small| - 1];
    assert small[0] < d && IsPrime(d);
    DividesIffMod(2, d);
  }

  lemma EvenIsCovered(n0: int, fs: seq<Factor>, n: int, d: int, test: int -> bool)
    requires Searched(n0, fs, n, d, test) && d > 2 && d % 2 == 0
    ensures Searched(n0, fs, n, d + 1, test)
  {
    DividesIffMod(2, d);
    CompositeNeedNotBeTried(n, d);
  }

  lemma QuotientTooSmall(n: int, d: int)
    requires d >= 2 && n >= 1
    ensures n / d < d <==> n < d * d
    ensures n / d >= d ==> d <= n
  {
    var q, r := n / d, n % d;
    assert n == d * q + r;
    var e := d * q;
    if q < d {
      if q >= 0 { MulMono(d, q, d, d - 1); }
      Square(d);
    } else {
      MulMono(d, d, d, q);
      Square(d);
    }
  }

  lemma Square(d: int)
    requires d >= 1
    ensures d * (d - 1) == d * d - d && d * d >= d
  {
  }
}
