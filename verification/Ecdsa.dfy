// Private_key.sign and Public_key.verifies (ecdsa/ecdsa.py:93-151), and what becomes
// of the low-s form of a signature (ecdsa/util.py:203-216).
module Ecdsa {
  import opened KconfigExpr
  import opened Modular
  import opened NumberTheory
  import opened EllipticCurve
  import opened CurveGroup
  import opened ScalarMul
  import opened PointOrder
  import HalfOrder

  // A curve, its generator and the order of the generator.
  datatype Domain = Domain(c: Curve, G: Point, n: nat)

  ghost predicate ValidDomain(d: Domain) {
    && IsGroup(d.c) && IsPrime(d.n)
    && d.G.Affine? && Element(d.c, d.G) && Multiple(d.c, d.G, d.n) == Infinity
  }

  // The two RuntimeErrors, and the failure for k = 0: the assertion of
  // inverse_mod(0, n) comes before any arithmetic on the None that is the x of the
  // point at infinity.
  datatype SignResult = Signed(r: int, s: int) | UnluckyR | UnluckyS | NoCoordinate

  // ---------- the multiples of the generator ----------

  // Below the order no multiple but 0 is the point at infinity.
  lemma MultipleZeroIff(d: Domain, k: nat)
    requires ValidDomain(d)
    ensures Multiple(d.c, d.G, k) == Infinity <==> k % d.n == 0
  {
    DividesIffMod(d.n, k);
    if k % d.n == 0 {
      CongZero(k, d.n);
      SameMultiple(d.c, d.G, d.n, k, 0);
    } else {
      PrimeInverse(k, d.n);
      InvertedMultiple(d, k, Inverse(k, d.n).value);
      InfinityMultiple(d.c, Inverse(k, d.n).value);
    }
  }

  // A multiple with a multiplier that can be inverted leads back to the generator.
  lemma InvertedMultiple(d: Domain, k: nat, x: nat)
    requires ValidDomain(d) && Cong(k * x, 1, d.n)
    ensures Multiple(d.c, Multiple(d.c, d.G, k), x) == d.G
  {
    MultipleProduct(d.c, d.G, k, x);
    SameMultiple(d.c, d.G, d.n, k * x, 1);
    PlusZero(d.c, d.G);
    assert Multiple(d.c, d.G, 1) == Plus(d.c, Multiple(d.c, d.G, 0), d.G) == d.G;
  }

  lemma NegOfMultiple(d: Domain, j: nat, k: nat)
    requires ValidDomain(d) && Cong(j + k, 0, d.n)
    ensures Multiple(d.c, d.G, j) == Neg(d.c, Multiple(d.c, d.G, k))
  {
    var c := d.c;
    var J, K := Multiple(c, d.G, j), Multiple(c, d.G, k);
    MultipleElement(c, d.G, j);
    MultipleElement(c, d.G, k);
    NegIsInverse(c, K);
    MultipleSum(c, d.G, j, k);
    SameMultiple(c, d.G, d.n, j + k, 0);
    // J = J + (K - K) = (J + K) - K = -K
    assert AssociativeAt(c, J, K, Neg(c, K));
    PlusZero(c, J);
    PlusZero(c, Neg(c, K));
  }

  // Multiplying with a multiplier below the prime order never fails.
  lemma NeverBlocked(c: Curve, P: Point, n: nat, e: nat)
    requires IsGroup(c) && Element(c, P) && IsPrime(n) && Multiple(c, P, n) == Infinity && 1 <= e < n
    ensures !BlockedAbove(c, P, e, 0)
  {
    if n % 2 == 1 {
      NotBlocked(c, P, n, e);
    } else {
      DividesIffMod(2, n);
      assert n == 2 && e == 1;
      OneNeverBlocked(c, P);
    }
  }

  // ---------- signing ----------

  // s is the solution of s k = hash + secret r.
  ghost predicate Signature(n: nat, secret: nat, hash: int, k: int, r: int, s: int) {
    0 <= s < n && Cong(s * k, hash + secret * r, n)
  }

  method Sign(d: Domain, secret: nat, hash: int, randomK: int) returns (res: SignResult)
    requires ValidDomain(d)
    ensures res.NoCoordinate? <==> randomK % d.n == 0
    ensures randomK % d.n != 0 ==>
      var R := Multiple(d.c, d.G, randomK % d.n);
      && R.Affine?
      && (res.UnluckyR? <==> R.x == 0)
      && (res.UnluckyS? <==> R.x != 0 && (hash + secret * R.x) % d.n == 0)
      && (res.Signed? ==> res.r == R.x && res.s != 0 && Signature(d.n, secret, hash, randomK % d.n, res.r, res.s))
  {
    var n := d.n;
    var k := randomK % n;
    NormElement(d.c, d.G);
    if k != 0 { NeverBlocked(d.c, d.G, n, k); }
    MultipleZeroIff(d, k);
    SmallMod(k, n);
    var p1 := PointMul(d.c, d.G, n, k);
    if p1.value.Infinity? { return NoCoordinate; }
    NormIsElement(d.c, p1.value);
    var r := p1.value.x;
    if r == 0 { return UnluckyR; }
    PrimeInverse(k, n);
    DividesIffMod(n, k);
    var inv := InverseMod(k, n);
    var s := (inv.value * (hash + (secret * r) % n)) % n;
    SolvesForS(n, secret, hash, k, r, inv.value, s);
    if s == 0 { return UnluckyS; }
    res := Signed(r, s);
  }

  lemma SolvesForS(n: nat, secret: nat, hash: int, k: int, r: int, inv: int, s: int)
    requires n > 0 && Cong(k * inv, 1, n) && s == (inv * (hash + (secret * r) % n)) % n
    ensures Signature(n, secret, hash, k, r, s)
    ensures s == 0 <==> (hash + secret * r) % n == 0
  {
    var h, t := hash + secret * r, hash + (secret * r) % n;
    CongMod(secret * r, n);
    CongRefl(hash, n);
    CongAdd(hash, hash, (secret * r) % n, secret * r, n);
    QuotientSolves(n, h, t, k, inv, s);
    CongZero(h, n);
  }

  // s = h/k
  lemma QuotientSolves(n: nat, h: int, t: int, k: int, inv: int, s: int)
    requires n > 0 && Cong(k * inv, 1, n) && Cong(t, h, n) && s == (inv * t) % n
    ensures 0 <= s < n && Cong(s * k, h, n)
    ensures s == 0 <==> Cong(h, 0, n)
  {
    CongRefl(inv, n);
    CongMul(inv, inv, t, h, n);
    CongMod(inv * t, n);
    CongTrans(s, inv * t, inv * h, n);
    CongRefl(k, n);
    CongMul(s, inv * h, k, k, n);
    CongRefl(h, n);
    CongMul(k * inv, 1, h, h, n);
    assert inv * h * k == k * inv * h;
    CongTrans(s * k, k * inv * h, h, n);
    if s == 0 { ZeroWithUnit(n, h, k, s); }
    if Cong(h, 0, n) {
      CongTimes(inv, h, n);
      CongTrans(s, inv * h, 0, n);
      CongCanonical(s, 0, n);
    }
  }

  lemma ZeroWithUnit(n: nat, h: int, k: int, s: int)
    requires n > 0 && s == 0 && Cong(s * k, h, n)
    ensures Cong(h, 0, n)
  {
    assert s * k == 0;
    CongSym(0, h, n);
  }

  // ---------- verifying ----------

  // The multiplier the verifier recovers from a signature.
  ghost function Recovered(n: nat, secret: nat, hash: int, r: int, s: int): (k: int)
    requires n > 0
    ensures 0 <= k < n
  {
    var c := Inverse(s, n);
    if c.Some? then (c.value * (hash + secret * r)) % n else 0
  }

  // What a verification says about the public key secret * G: None is the
  // TypeError for the point at infinity.
  ghost function Accepts(d: Domain, secret: nat, hash: int, r: int, s: int): Option<bool>
    requires ValidDomain(d)
  {
    if r < 1 || r >= d.n || s < 1 || s >= d.n then Some(false) else
    var R := Multiple(d.c, d.G, Recovered(d.n, secret, hash, r, s));
    if R.Infinity? then None else Some(R.x % d.n == r)
  }

  // The public point may carry its order or not.
  method Verifies(d: Domain, Q: Point, qOrder: nat, ghost secret: nat, hash: int, r: int, s: int) returns (v: Option<bool>)
    requires ValidDomain(d) && Usable(d.c, Q) && Norm(d.c, Q) == Multiple(d.c, d.G, secret)
    requires qOrder == 0 || qOrder == d.n
    ensures v == Accepts(d, secret, hash, r, s)
  {
    var n, G := d.n, d.G;
    if r < 1 || r > n - 1 { return Some(false); }
    if s < 1 || s > n - 1 { return Some(false); }
    UnitBelow(n, s);
    var c := InverseMod(s, n);
    var u1 := (hash * c.value) % n;
    var u2 := (r * c.value) % n;
    MultiplierSplits(n, secret, hash, r, s, c.value, u1, u2);
    NormElement(d.c, G);
    var A := Times(d, G, n, u1);
    KeyOrder(d, Q, secret);
    var B := Times(d, Q, qOrder, u2);
    Combined(d, Q, secret, A, B, u1, u2, Recovered(n, secret, hash, r, s));
    var xy := PointAdd(d.c, A, B);
    if xy.value.Infinity? { return None; }
    v := Some(xy.value.x % n == r);
  }

  // Multiplication by u < n of a point whose order divides n cannot fail.
  method Times(d: Domain, P: Point, order: nat, u: nat) returns (R: Point)
    requires ValidDomain(d) && Usable(d.c, P) && (order == 0 || order == d.n) && u < d.n
    requires Multiple(d.c, Norm(d.c, P), d.n) == Infinity
    ensures Stands(d.c, P, R, u)
  {
    NormIsElement(d.c, P);
    SmallMod(u, d.n);
    if u > 0 { NeverBlocked(d.c, Norm(d.c, P), d.n, u); }
    var r := PointMul(d.c, P, order, u);
    R := r.value;
  }

  lemma UnitBelow(n: nat, s: int)
    requires IsPrime(n) && 1 <= s < n
    ensures Inverse(s, n).Some?
  {
    PrimeInverse(s, n);
    if Divides(n, s) { DivisorAtMost(n, s); }
  }

  lemma KeyOrder(d: Domain, Q: Point, secret: nat)
    requires ValidDomain(d) && Usable(d.c, Q) && Norm(d.c, Q) == Multiple(d.c, d.G, secret)
    ensures Multiple(d.c, Norm(d.c, Q), d.n) == Infinity
  {
    MultipleProduct(d.c, d.G, secret, d.n);
    MultipleProduct(d.c, d.G, d.n, secret);
    InfinityMultiple(d.c, secret);
    assert secret * d.n == d.n * secret;
  }

  // u1 + u2 secret is the recovered multiplier.
  lemma MultiplierSplits(n: nat, secret: nat, hash: int, r: int, s: int, c: int, u1: int, u2: int)
    requires n > 0 && Inverse(s, n) == Some(c) && u1 == (hash * c) % n && u2 == (r * c) % n
    ensures Cong(u1 + secret * u2, Recovered(n, secret, hash, r, s), n)
  {
    var t := c * (hash + secret * r);
    CongMod(hash * c, n);
    CongMod(r * c, n);
    CongRefl(secret, n);
    CongMul(secret, secret, u2, r * c, n);
    CongAdd(u1, hash * c, secret * u2, secret * (r * c), n);
    SplitProduct(c, hash, secret, r);
    CongMod(t, n);
    CongTrans(u1 + secret * u2, t, t % n, n);
  }

  lemma SplitProduct(c: int, hash: int, secret: int, r: int)
    ensures hash * c + secret * (r * c) == c * (hash + secret * r)
  {
  }

  lemma Combined(d: Domain, Q: Point, secret: nat, A: Point, B: Point, u1: nat, u2: nat, t: nat)
    requires ValidDomain(d) && Usable(d.c, Q) && Norm(d.c, Q) == Multiple(d.c, d.G, secret)
    requires Stands(d.c, d.G, A, u1) && Stands(d.c, Q, B, u2) && Cong(u1 + secret * u2, t, d.n)
    ensures var xy := Add(d.c, A, B);
      && xy.Some?
      && (xy.value.Infinity? <==> Multiple(d.c, d.G, t).Infinity?)
      && (xy.value.Affine? ==> xy.value.x == Multiple(d.c, d.G, t).x)
  {
    var v: nat := secret * u2;
    NormElement(d.c, d.G);
    MultipleProduct(d.c, d.G, secret, u2);
    MultipleSum(d.c, d.G, u1, v);
    SameMultiple(d.c, d.G, d.n, u1 + v, t);
    AddOfNorm(d.c, A, B);
    AddNeverFails(d.c, A, B);
    NormIsElement(d.c, Add(d.c, A, B).value);
  }

  // ---------- the theorem ----------

  // The verifier gets back the k of the signature.
  lemma RecoversK(n: nat, secret: nat, hash: int, k: int, r: int, s: int)
    requires IsPrime(n) && 1 <= s < n && Cong(s * k, hash + secret * r, n)
    ensures Cong(Recovered(n, secret, hash, r, s), k, n)
  {
    UnitBelow(n, s);
    var c := Inverse(s, n).value;
    var h := hash + secret * r;
    CancelUnit(n, h, k, s, c);
    CongMod(c * h, n);
    CongTrans((c * h) % n, c * h, k, n);
  }

  lemma CancelUnit(n: nat, h: int, k: int, s: int, c: int)
    requires Cong(s * c, 1, n) && Cong(s * k, h, n)
    ensures Cong(c * h, k, n)
  {
    CongRefl(c, n);
    CongSym(s * k, h, n);
    CongMul(c, c, h, s * k, n);
    CongRefl(k, n);
    CongMul(s * c, 1, k, k, n);
    Swapped(c, s, k);
    CongTrans(c * h, s * c * k, k, n);
  }

  lemma Swapped(c: int, s: int, k: int)
    ensures c * (s * k) == s * c * k
  {
  }

  // A signature verifies exactly when its r, which sign does not reduce, is
  // below n; otherwise it is rejected.
  lemma SignatureVerifies(d: Domain, secret: nat, hash: int, k: nat, r: int, s: int)
    requires ValidDomain(d) && 1 <= k < d.n && 1 <= s
    requires var R := Multiple(d.c, d.G, k); R.Affine? && r == R.x && r != 0
    requires Signature(d.n, secret, hash, k, r, s)
    ensures Accepts(d, secret, hash, r, s) == Some(r < d.n)
  {
    MultipleElement(d.c, d.G, k);
    RecoversK(d.n, secret, hash, k, r, s);
    SameMultiple(d.c, d.G, d.n, Recovered(d.n, secret, hash, r, s), k);
    if r < d.n { SmallMod(r, d.n); }
  }

  // ---------- nothing else is accepted ----------

  // k is the nonce of a signature (r, s) with this key and hash.
  ghost predicate Nonce(d: Domain, secret: nat, hash: int, r: int, s: int, k: nat)
    requires ValidDomain(d)
  {
    var R := Multiple(d.c, d.G, k);
    1 <= k < d.n && Signature(d.n, secret, hash, k, r, s) && R.Affine? && R.x % d.n == r
  }

  // A pair in range is accepted exactly if some nonce explains it, and the verifier
  // fails exactly if hash + secret r is a multiple of n.
  lemma AcceptedIff(d: Domain, secret: nat, hash: int, r: int, s: int)
    requires ValidDomain(d) && 1 <= r < d.n && 1 <= s < d.n
    ensures Accepts(d, secret, hash, r, s) == Some(true) <==> exists k :: Nonce(d, secret, hash, r, s, k)
    ensures Accepts(d, secret, hash, r, s) == None <==> (hash + secret * r) % d.n == 0
  {
    hide Multiple, ValidDomain, Accepts, Nonce;
    AcceptedByRecovered(d, secret, hash, r, s);
    if j :| Nonce(d, secret, hash, r, s, j) { NonceIsRecovered(d, secret, hash, r, s, j); }
  }

  lemma AcceptedByRecovered(d: Domain, secret: nat, hash: int, r: int, s: int)
    requires ValidDomain(d) && 1 <= r < d.n && 1 <= s < d.n
    ensures Accepts(d, secret, hash, r, s) == Some(true) <==>
      Nonce(d, secret, hash, r, s, Recovered(d.n, secret, hash, r, s))
    ensures Accepts(d, secret, hash, r, s) == None <==> (hash + secret * r) % d.n == 0
  {
    hide Recovered, Multiple, IsGroup, Element, IsPrime, Inverse, Cong;
    var k: nat := Recovered(d.n, secret, hash, r, s);
    RecoveredSolves(d.n, secret, hash, r, s, k);
    MultipleZeroIff(d, k);
    SmallMod(k, d.n);
  }

  lemma NonceIsRecovered(d: Domain, secret: nat, hash: int, r: int, s: int, j: nat)
    requires ValidDomain(d) && 1 <= r < d.n && 1 <= s < d.n && Nonce(d, secret, hash, r, s, j)
    ensures j == Recovered(d.n, secret, hash, r, s)
  {
    hide Recovered, Multiple;
    RecoversK(d.n, secret, hash, j, r, s);
    CongCanonical(Recovered(d.n, secret, hash, r, s), j, d.n);
  }

  // Nothing out of range is accepted.
  lemma OutOfRangeRejected(d: Domain, secret: nat, hash: int, r: int, s: int)
    requires ValidDomain(d) && !(1 <= r < d.n && 1 <= s < d.n)
    ensures Accepts(d, secret, hash, r, s) == Some(false)
  {
  }

  lemma RecoveredSolves(n: nat, secret: nat, hash: int, r: int, s: int, k: int)
    requires IsPrime(n) && 1 <= s < n && k == Recovered(n, secret, hash, r, s)
    ensures 0 <= k < n && Cong(s * k, hash + secret * r, n)
    ensures k == 0 <==> (hash + secret * r) % n == 0
  {
    UnitBelow(n, s);
    var inv := Inverse(s, n).value;
    var h := hash + secret * r;
    CongRefl(h, n);
    QuotientSolves(n, h, h, s, inv, k);
    Commutes(k, s);
    CongZero(h, n);
  }

  // n - s stands for -k, whose point has the same x.
  lemma NegatedVerifiesAlike(d: Domain, secret: nat, hash: int, k: nat, r: int, s: int)
    requires ValidDomain(d) && 1 <= k < d.n && 1 <= s
    requires var R := Multiple(d.c, d.G, k); R.Affine? && r == R.x && r != 0
    requires Signature(d.n, secret, hash, k, r, s)
    ensures Accepts(d, secret, hash, r, d.n - s) == Some(r < d.n)
  {
    var n := d.n;
    var j: nat := n - k;
    MinusTimesMinus(n, s, k, hash + secret * r);
    RecoversK(n, secret, hash, j, r, n - s);
    SameMultiple(d.c, d.G, n, Recovered(n, secret, hash, r, n - s), j);
    CongBy(j + k, 0, n, 1);
    NegOfMultiple(d, j, k);
    MultipleElement(d.c, d.G, k);
    if r < n { SmallMod(r, n); }
  }

  // So either choice of the encoding is accepted, the low one or not.
  lemma LowSVerifiesAlike(d: Domain, secret: nat, hash: int, k: nat, r: int, s: int)
    requires ValidDomain(d) && 1 <= k < d.n && 1 <= s && HalfOrder.LowS(d.n, s).Some?
    requires var R := Multiple(d.c, d.G, k); R.Affine? && r == R.x && r != 0
    requires Signature(d.n, secret, hash, k, r, s)
    ensures var low := HalfOrder.LowS(d.n, s).value;
      && 1 <= low < d.n
      && Accepts(d, secret, hash, r, low) == Some(r < d.n)
  {
    SignatureVerifies(d, secret, hash, k, r, s);
    NegatedVerifiesAlike(d, secret, hash, k, r, s);
  }

  // Whatever k is, a hash makes sign return s, and no other number.
  lemma EverySReached(d: Domain, secret: nat, k: nat, s: nat) returns (hash: nat)
    requires ValidDomain(d) && 1 <= k < d.n && 1 <= s < d.n && Multiple(d.c, d.G, k).Affine?
    ensures forall t :: Signature(d.n, secret, hash, k, Multiple(d.c, d.G, k).x, t) <==> t == s
  {
    var n := d.n;
    var r := Multiple(d.c, d.G, k).x;
    hash := (s * k - secret * r) % n;
    CongMod(s * k - secret * r, n);
    CongRefl(secret * r, n);
    CongAdd(hash, s * k - secret * r, secret * r, secret * r, n);
    CongSym(hash + secret * r, s * k, n);
    UnitBelow(n, k);
    forall t ensures Signature(n, secret, hash, k, r, t) <==> t == s {
      if Signature(n, secret, hash, k, r, t) {
        EqualWithUnit(n, hash + secret * r, s, t, k, Inverse(k, n).value);
      }
    }
  }

  lemma EqualWithUnit(n: nat, h: int, s: nat, t: nat, k: int, inv: int)
    requires Cong(k * inv, 1, n) && Cong(t * k, h, n) && Cong(s * k, h, n) && s < n && t < n
    ensures t == s
  {
    Commutes(k, t);
    Commutes(k, s);
    CancelUnit(n, h, t, k, inv);
    CancelUnit(n, h, s, k, inv);
    CongSym(inv * h, t, n);
    CongTrans(t, inv * h, s, n);
    CongCanonical(t, s, n);
  }

  lemma Commutes(x: int, y: int)
    ensures x * y == y * x
  {
  }

  lemma MinusTimesMinus(n: nat, s: int, k: int, h: int)
    requires Cong(s * k, h, n)
    ensures Cong((n - s) * (n - k), h, n)
  {
    assert (n - s) * (n - k) - s * k == (n - s - k) * n;
    CongBy((n - s) * (n - k), s * k, n, n - s - k);
    CongTrans((n - s) * (n - k), s * k, h, n);
  }

  // Sign, then verify: both the signature and its low-s form, if there is one, are
  // accepted whenever x(kG) is below n.
  method SignThenVerify(d: Domain, Q: Point, qOrder: nat, secret: nat, hash: int, randomK: int)
    returns (res: SignResult, plain: Option<bool>, low: Option<bool>)
    requires ValidDomain(d) && Usable(d.c, Q) && Norm(d.c, Q) == Multiple(d.c, d.G, secret)
    requires qOrder == 0 || qOrder == d.n
    ensures res.Signed? ==> plain == Some(res.r < d.n)
    ensures res.Signed? && HalfOrder.LowS(d.n, res.s).Some? ==> low == plain
  {
    res := Sign(d, secret, hash, randomK);
    plain, low := None, None;
    if res.Signed? {
      var k := randomK % d.n;
      plain := Verifies(d, Q, qOrder, secret, hash, res.r, res.s);
      SignatureVerifies(d, secret, hash, k, res.r, res.s);
      var lowS := HalfOrder.LowS(d.n, res.s);
      if lowS.Some? {
        low := Verifies(d, Q, qOrder, secret, hash, res.r, lowS.value);
        LowSVerifiesAlike(d, secret, hash, k, res.r, res.s);
      }
    }
  }
}
