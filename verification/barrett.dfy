/** Barrett reduction as the kernels compute it, on one 32-bit value.

    The quotient estimate is the high half of the 64-bit product n * mu
    (`vmull_u32` followed by `vshrn_n_u64(.., 32)`, or `(uint64_t)n * mu >> 32`
    in the scalar paths); the remainder n - q * p is formed in wrapping 32-bit
    arithmetic; one conditional subtract of p follows (or none, in the
    variants that skip it). The lemmas say for which constants the result is
    the true remainder. */
module Barrett {
  import opened Bits

  /** High 32 bits of the 64-bit product n * mu. */
  function Quotient(n: nat, mu: nat): nat
  {
    (n * mu) / TWO32
  }

  /** n - q * p with the product and the difference both wrapped to 32 bits. */
  function RawRemainder(n: nat, mu: nat, p: nat): (r: nat)
    ensures r < TWO32
  {
    (n - (Quotient(n, mu) * p) % TWO32) % TWO32
  }

  /** The branch-free correction `r - ((r >= p) & p)`, wrapped to 32 bits. */
  function CorrectOnce(r: nat, p: nat): (c: nat)
    ensures c < TWO32
  {
    (r - (if r >= p then p else 0)) % TWO32
  }

  /** Barrett remainder with one conditional subtract. */
  function Reduce(n: nat, mu: nat, p: nat): (r: nat)
    ensures r < TWO32
  {
    CorrectOnce(RawRemainder(n, mu, p), p)
  }

  /** mu is floor(2^32 / p). */
  ghost predicate FloorConstant(p: nat, mu: nat)
  {
    2 <= p && mu * p <= TWO32 < (mu + 1) * p
  }

  /** mu is ceil(2^32 / p), for a divisor small enough that 3p fits in 32 bits. */
  ghost predicate CeilConstant(p: nat, mu: nat)
  {
    2 <= p && 3 * p <= TWO32 && mu < TWO32 && TWO32 <= mu * p < TWO32 + p
  }

  lemma MulLe(a: nat, b: nat, c: nat)
    requires a <= b
    ensures a * c <= b * c
  {
  }

  lemma MulLt(a: nat, b: nat, c: nat)
    requires a < b && c > 0
    ensures a * c < b * c
  {
  }

  lemma CancelLe(a: nat, b: nat, c: nat)
    requires c > 0 && a * c <= b * c
    ensures a <= b
  {
    if a > b {
      MulLt(b, a, c);
    }
  }

  lemma CancelLt(a: nat, b: nat, c: nat)
    requires c > 0 && a * c < b * c
    ensures a < b
  {
    if a >= b {
      MulLe(b, a, c);
    }
  }

  lemma MulAssoc(a: nat, b: nat, c: nat)
    ensures a * b * c == a * (b * c) == (a * c) * b
  {
  }

  lemma MulDistrib(a: nat, b: nat, c: nat)
    ensures a * (b + c) == a * b + a * c && (b + c) * a == b * a + c * a
  {
  }

  /** The quotient as an integer: q * 2^32 <= n * mu < (q + 1) * 2^32. */
  lemma QuotientBounds(n: nat, mu: nat)
    ensures Quotient(n, mu) * TWO32 <= n * mu < (Quotient(n, mu) + 1) * TWO32
  {
  }

  /** If q * T <= n * mu and mu * p <= T + e with n < T and e >= 1,
      then q * p < n + e. */
  lemma EstimateAbove(n: nat, mu: nat, p: nat, q: nat, t: nat, e: nat)
    requires t > 0 && e >= 1 && n < t
    requires q * t <= n * mu && mu * p <= t + e
    ensures q * p < n + e
  {
    calc {
      q * p * t;
    == { MulAssoc(q, p, t); }
      q * t * p;
    <= { MulLe(q * t, n * mu, p); }
      n * mu * p;
    == { MulAssoc(n, mu, p); }
      n * (mu * p);
    <= { MulLe(mu * p, t + e, n); }
      n * (t + e);
    == { MulDistrib(n, t, e); }
      n * t + n * e;
    <  { MulLt(n, t, e); }
      n * t + t * e;
    == { MulDistrib(t, n, e); }
      (n + e) * t;
    }
    CancelLt(q * p, n + e, t);
  }

  /** If n * mu < (q + 1) * T and T <= mu * p + d, with n < T,
      then n < (q + 1) * p + d. */
  lemma EstimateBelow(n: nat, mu: nat, p: nat, q: nat, t: nat, d: nat)
    requires t > 0 && p > 0 && n < t
    requires n * mu < (q + 1) * t && t <= mu * p + d
    ensures n < (q + 1) * p + d
  {
    calc {
      n * t;
    <= { MulLe(t, mu * p + d, n); }
      n * (mu * p + d);
    == { MulDistrib(n, mu * p, d); }
      n * (mu * p) + n * d;
    <= { MulLe(n, t, d); }
      n * (mu * p) + t * d;
    == { MulAssoc(n, mu, p); }
      n * mu * p + t * d;
    <  { MulLt(n * mu, (q + 1) * t, p); }
      (q + 1) * t * p + t * d;
    == { MulAssoc(q + 1, t, p); }
      ((q + 1) * p + d) * t;
    }
    CancelLt(n, (q + 1) * p + d, t);
  }

  /** With q * p <= n < 2^32 the wrapped remainder is the plain difference. */
  lemma RawNoWrap(n: nat, mu: nat, p: nat)
    requires n < TWO32 && Quotient(n, mu) * p <= n
    ensures RawRemainder(n, mu, p) == n - Quotient(n, mu) * p
  {
  }

  /** With n < q * p < n + 2^32 the wrapped remainder is 2^32 + n - q * p. */
  lemma RawWraps(n: nat, mu: nat, p: nat)
    requires n < TWO32 && n < Quotient(n, mu) * p < n + TWO32
    ensures RawRemainder(n, mu, p) == TWO32 + n - Quotient(n, mu) * p
  {
    var qp := Quotient(n, mu) * p;
    if qp < TWO32 {
      assert qp % TWO32 == qp;
    } else {
      assert qp % TWO32 == qp - TWO32;
    }
  }

  /** For mu = floor(2^32 / p) the estimate is floor(n / p) or one less. */
  lemma FloorQuotient(n: nat, mu: nat, p: nat)
    requires n < TWO32 && FloorConstant(p, mu)
    ensures n / p - 1 <= Quotient(n, mu) <= n / p
  {
    var q := Quotient(n, mu);
    var k, m := DivParts(n, p);
    QuotientBounds(n, mu);
    EstimateAbove(n, mu, p, q, TWO32, 1);
    CancelLt(q, k + 1, p);
    EstimateBelow(n, mu, p, q, TWO32, p);
    assert k * p < (q + 2) * p;
    CancelLt(k, q + 2, p);
  }

  /** Barrett with mu = floor(2^32 / p) and one correction gives n mod p,
      and the intermediate n - q * p lies in [0, 2p) without wrapping. */
  lemma FloorExact(n: nat, mu: nat, p: nat)
    requires n < TWO32 && FloorConstant(p, mu)
    ensures Quotient(n, mu) == n / p || Quotient(n, mu) == n / p - 1
    ensures RawRemainder(n, mu, p) == n - Quotient(n, mu) * p < 2 * p
    ensures Reduce(n, mu, p) == n % p
  {
    FloorQuotient(n, mu, p);
    var q := Quotient(n, mu);
    var k, m := DivParts(n, p);
    if q == k {
      RawNoWrap(n, mu, p);
    } else {
      assert q * p == k * p - p;
      RawNoWrap(n, mu, p);
    }
  }

  /** For mu = ceil(2^32 / p) the estimate is floor(n / p) or one more,
      and it is exact when p divides n. */
  lemma CeilQuotient(n: nat, mu: nat, p: nat)
    requires n < TWO32 && CeilConstant(p, mu)
    ensures n / p <= Quotient(n, mu) <= n / p + 1
    ensures n % p == 0 ==> Quotient(n, mu) == n / p
  {
    var q := Quotient(n, mu);
    var k, m := DivParts(n, p);
    QuotientBounds(n, mu);
    EstimateBelow(n, mu, p, q, TWO32, 0);
    assert k * p < (q + 1) * p;
    CancelLt(k, q + 1, p);
    EstimateAbove(n, mu, p, q, TWO32, p);
    assert q * p < (k + 2) * p;
    CancelLt(q, k + 2, p);
    if n % p == 0 {
      CeilExactOnMultiple(k, mu, p);
      assert q * TWO32 < (k + 1) * TWO32;
      CancelLt(q, k + 1, TWO32);
    }
  }

  /** n = k * p below 2^32 and mu * p < 2^32 + p give n * mu < (k + 1) * 2^32. */
  lemma CeilExactOnMultiple(k: nat, mu: nat, p: nat)
    requires p >= 1 && k * p < TWO32 && mu * p < TWO32 + p
    ensures k * p * mu < (k + 1) * TWO32
  {
    calc {
      k * p * mu;
    == { MulAssoc(k, p, mu); }
      k * (mu * p);
    <= { MulLe(mu * p, TWO32 + p - 1, k); }
      k * (TWO32 + p - 1);
    == { MulDistrib(k, TWO32, p - 1); }
      k * TWO32 + k * (p - 1);
    <= { MulLe(p - 1, p, k); }
      k * TWO32 + k * p;
    <  (k + 1) * TWO32;
    }
  }

  /** Barrett with mu = ceil(2^32 / p) and one correction: a result below p
      is the true remainder, and the result is 0 exactly when p divides n.
      When the estimate overshoots, the result is the huge wrapped value
      2^32 + n mod p - 2p. */
  lemma CeilSound(n: nat, mu: nat, p: nat)
    requires n < TWO32 && CeilConstant(p, mu)
    ensures Reduce(n, mu, p) < p ==> Reduce(n, mu, p) == n % p
    ensures Reduce(n, mu, p) == 0 <==> n % p == 0
    ensures Reduce(n, mu, p) == n % p || Reduce(n, mu, p) == TWO32 + n % p - 2 * p
  {
    CeilQuotient(n, mu, p);
    var q := Quotient(n, mu);
    var k, m := DivParts(n, p);
    var raw := RawRemainder(n, mu, p);
    if q == k {
      RawNoWrap(n, mu, p);
      assert raw == m;
      CorrectCases(raw, p);
    } else {
      assert q * p == k * p + p by { MulDistrib(p, k, 1); }
      RawWraps(n, mu, p);
      assert raw == TWO32 + m - p;
      CorrectCases(raw, p);
      assert m != 0;
    }
  }

  /** The correction leaves a value below p alone and takes p off any other
      32-bit value. */
  lemma CorrectCases(r: nat, p: nat)
    requires r < TWO32
    ensures r < p ==> CorrectOnce(r, p) == r
    ensures p <= r ==> CorrectOnce(r, p) == r - p
  {
  }

  /** Without any correction, a constant at or above 2^32 / p whose excess
      e = mu * p - 2^32 leaves room (e + p <= 2^32) never yields a value
      below p other than the true remainder: an overshooting estimate makes
      n - q * p negative and the wrapped value lands above 2^32 - e. */
  lemma OverRawSound(n: nat, mu: nat, p: nat)
    requires n < TWO32 && 1 <= p && TWO32 <= mu * p && mu * p - TWO32 + p <= TWO32
    ensures RawRemainder(n, mu, p) < p ==> RawRemainder(n, mu, p) == n % p
  {
    var q := Quotient(n, mu);
    var e1 := OverQuotient(n, mu, p);
    var k, m := DivParts(n, p);
    var raw := RawRemainder(n, mu, p);
    if q > k {
      OverWraps(n, p, q, k, m, e1);
      RawWraps(n, mu, p);
      assert raw >= p;
    } else {
      RawNoWrap(n, mu, p);
      assert raw == m;
    }
  }

  /** An estimate q above k = floor(n / p) with q * p < n + e1: the product
      lies strictly between n and n + 2^32, and 2^32 + n - q * p >= 2^32 + 1 - e1. */
  lemma OverWraps(n: nat, p: nat, q: nat, k: nat, m: nat, e1: nat)
    requires n == k * p + m && m < p && k < q && q * p < n + e1 && e1 <= TWO32
    ensures n < q * p < n + TWO32
  {
    MulLe(k + 1, q, p);
    MulDistrib(p, k, 1);
  }

  /** With the corrective subtract, an excess that leaves room for two
      divisors (e + 2p <= 2^32) still never yields a value below p other
      than the true remainder: an overshooting estimate wraps to 2p or
      more, and one subtract of p leaves it at p or more. */
  lemma OverReduceSound(n: nat, mu: nat, p: nat)
    requires n < TWO32 && 1 <= p && TWO32 <= mu * p && mu * p - TWO32 + 2 * p <= TWO32
    ensures Reduce(n, mu, p) < p ==> Reduce(n, mu, p) == n % p
  {
    var q := Quotient(n, mu);
    var e1 := OverQuotient(n, mu, p);
    var k, m := DivParts(n, p);
    var raw := RawRemainder(n, mu, p);
    if q > k {
      OverWraps(n, p, q, k, m, e1);
      RawWraps(n, mu, p);
      assert raw >= 2 * p;
      CorrectCases(raw, p);
    } else {
      RawNoWrap(n, mu, p);
      assert raw == m;
      CorrectCases(raw, p);
    }
  }

  /** The over-estimate is floor(n / p) or more, and q * p stays below n + e1
      for a slack e1 with e1 + p <= 2^32 + 1. */
  lemma OverQuotient(n: nat, mu: nat, p: nat) returns (e1: nat)
    requires n < TWO32 && 1 <= p && TWO32 <= mu * p && mu * p - TWO32 + p <= TWO32
    ensures n / p <= Quotient(n, mu)
    ensures 1 <= e1 && e1 + p <= TWO32 + 1 && Quotient(n, mu) * p < n + e1
    ensures e1 == if mu * p == TWO32 then 1 else mu * p - TWO32
  {
    var q := Quotient(n, mu);
    var e := mu * p - TWO32;
    e1 := if e == 0 then 1 else e;
    QuotientBounds(n, mu);
    EstimateBelow(n, mu, p, q, TWO32, 0);
    FloorBelow(n, p, q);
    EstimateAbove(n, mu, p, q, TWO32, e1);
  }

  /** n below (q + 1) * p: n / p is at most q. */
  lemma FloorBelow(n: nat, p: nat, q: nat)
    requires p > 0 && n < (q + 1) * p
    ensures n / p <= q
  {
    var k, m := DivParts(n, p);
    CancelLt(k, q + 1, p);
  }

  /** An exact-division constant: if mu * d exceeds 2^s by e with
      e * n < 2^s, then (n * mu) >> s is exactly floor(n / d). */
  lemma ExactQuotient(n: nat, d: nat, mu: nat, s: nat)
    requires d >= 1 && mu * d >= Pow2(s) && (mu * d - Pow2(s)) * n < Pow2(s)
    ensures (n * mu) / Pow2(s) == n / d
  {
    var t := Pow2(s);
    var x := n * mu;
    var k, m := DivParts(n, d);
    ExactLower(n, d, mu, t, k);
    ExactUpper(n, d, mu, t, k);
    DivUnique(x, t, k, x - k * t);
  }

  lemma ExactLower(n: nat, d: nat, mu: nat, t: nat, k: nat)
    requires d >= 1 && t >= 1 && mu * d >= t && k * d <= n
    ensures k * t <= n * mu
  {
    calc {
      k * t * d;
    == { MulAssoc(k, t, d); }
      k * d * t;
    <= { MulLe(k * d, n, t); }
      n * t;
    <= { MulLe(t, mu * d, n); }
      n * (mu * d);
    == { MulAssoc(n, mu, d); }
      n * mu * d;
    }
    CancelLe(k * t, n * mu, d);
  }

  lemma ExactUpper(n: nat, d: nat, mu: nat, t: nat, k: nat)
    requires d >= 1 && t >= 1 && mu * d >= t && (mu * d - t) * n < t && n < (k + 1) * d
    ensures n * mu < (k + 1) * t
  {
    var e := mu * d - t;
    calc {
      n * mu * d;
    == { MulAssoc(n, mu, d); }
      n * (t + e);
    == { MulDistrib(n, t, e); }
      n * t + n * e;
    <  n * t + t;
    == (n + 1) * t;
    <= { MulLe(n + 1, (k + 1) * d, t); }
      (k + 1) * d * t;
    == { MulAssoc(k + 1, t, d); }
      (k + 1) * t * d;
    }
    CancelLt(n * mu, (k + 1) * t, d);
  }
}
