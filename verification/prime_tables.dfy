/** The trial-division tables: the sixteen primes 2..53 in two banks of
    eight, each with its Barrett constant floor(2^32 / p), and the register
    layouts the kernels load them in. */
module PrimeTables {
  import opened Bits
  import opened Barrett

  const SMALL_PRIMES: seq<nat> := [2, 3, 5, 7, 11, 13, 17, 19]
  const EXT_PRIMES: seq<nat> := [23, 29, 31, 37, 41, 43, 47, 53]
  const SMALL_MU: seq<nat> :=
    [2147483648, 1431655765, 858993459, 613566756, 390451572, 330382099, 252645135, 226050910]
  const EXT_MU: seq<nat> :=
    [186737708, 148102320, 138547332, 116080197, 104755299, 99882960, 91382282, 81037118]

  /** A list of divisors with the constant loaded next to each. */
  datatype ConstTable = ConstTable(p: seq<nat>, mu: seq<nat>)
  {
    ghost predicate Valid()
    {
      |p| == |mu| && forall i | 0 <= i < |p| :: p[i] < TWO32 && mu[i] < TWO32 && FloorConstant(p[i], mu[i])
    }
  }

  /** Both banks one after the other: small[0..8] then ext[0..8]
      (`PrimeConstants`, `PrimeVectors`). */
  const SEQUENTIAL: ConstTable := ConstTable(SMALL_PRIMES + EXT_PRIMES, SMALL_MU + EXT_MU)

  /** The banks interleaved pairwise, small[i] then ext[i] for i = 0..7
      (`InterleavedPrimeConstants`, and the order `divisible_mask_dual16`
      and `scalar_survive_barrett16` visit the primes in). */
  const INTERLEAVED: ConstTable := ConstTable(
    [2, 23, 3, 29, 5, 31, 7, 37, 11, 41, 13, 43, 17, 47, 19, 53],
    [2147483648, 186737708, 1431655765, 148102320, 858993459, 138547332, 613566756, 116080197,
     390451572, 104755299, 330382099, 99882960, 252645135, 91382282, 226050910, 81037118])

  /** p divides n and is not n itself: the kernels' composite test. */
  predicate ProperlyDivides(p: nat, n: nat)
  {
    p > 0 && n % p == 0 && n != p
  }

  ghost predicate IsPrime(n: nat)
  {
    n >= 2 && forall d :: 2 <= d < n ==> n % d != 0
  }

  /** Trial division by 2, 3, 5 and 7, which decides primality below 64. */
  predicate SmallSieve(n: nat)
  {
    (n == 2 || n % 2 != 0) && (n == 3 || n % 3 != 0) && (n == 5 || n % 5 != 0) && (n == 7 || n % 7 != 0)
  }

  /** A proper divisor of a number below 64 yields one below 8. */
  lemma SmallFactor(n: nat, d: nat) returns (s: nat)
    requires 2 <= d < n < 64 && n % d == 0
    ensures 2 <= s < 8 && s < n && n % s == 0
  {
    var c, _ := DivParts(n, d);
    if d < 8 {
      s := d;
    } else {
      MulMonotone(8, d, 8);
      CancelLt(c, 8, d);
      if c < 2 {
        MulMonotone(c, 1, d);
      }
      DivUnique(n, c, d, 0);
      s := c;
    }
  }

  lemma NotSieved(n: nat, s: nat)
    requires 2 <= s < 8 && s < n && n % s == 0
    ensures !SmallSieve(n)
  {
    if s == 4 {
      assert n % 4 == 0;
      EvenMultiples(n);
    } else if s == 6 {
      assert n % 6 == 0;
      EvenMultiples(n);
    } else if s == 2 {
      assert n % 2 == 0;
    } else if s == 3 {
      assert n % 3 == 0;
    } else if s == 5 {
      assert n % 5 == 0;
    } else {
      assert n % 7 == 0;
    }
  }

  /** Multiples of 4 and of 6 are even. */
  lemma EvenMultiples(n: nat)
    ensures n % 4 == 0 ==> n % 2 == 0
    ensures n % 6 == 0 ==> n % 2 == 0
  {
    if n % 4 == 0 {
      DivUnique(n, 2, 2 * (n / 4), 0);
    }
    if n % 6 == 0 {
      DivUnique(n, 2, 3 * (n / 6), 0);
    }
  }

  lemma SieveBelow64(n: nat)
    requires 2 <= n < 64
    ensures IsPrime(n) <==> SmallSieve(n)
  {
    if SmallSieve(n) {
      forall d | 2 <= d < n
        ensures n % d != 0
      {
        if n % d == 0 {
          var s := SmallFactor(n, d);
          NotSieved(n, s);
        }
      }
    }
  }

  lemma SieveTo53(n: nat)
    requires 2 <= n <= 53
    ensures SmallSieve(n) <==> n in [2, 3, 5, 7, 11, 13, 17, 19, 23, 29, 31, 37, 41, 43, 47, 53]
  {
  }

  lemma SequentialValues()
    ensures SEQUENTIAL.p == [2, 3, 5, 7, 11, 13, 17, 19, 23, 29, 31, 37, 41, 43, 47, 53]
    ensures SEQUENTIAL.mu == [2147483648, 1431655765, 858993459, 613566756, 390451572, 330382099,
                              252645135, 226050910, 186737708, 148102320, 138547332, 116080197,
                              104755299, 99882960, 91382282, 81037118]
  {
  }

  /** The table holds exactly the primes up to 53, in increasing order. */
  lemma TableIsPrimesTo53()
    ensures forall i, j | 0 <= i < j < |SEQUENTIAL.p| :: SEQUENTIAL.p[i] < SEQUENTIAL.p[j]
    ensures forall n: nat | n <= 53 :: IsPrime(n) <==> n in SEQUENTIAL.p
  {
    SequentialIncreasing();
    forall n: nat | n <= 53
      ensures IsPrime(n) <==> n in SEQUENTIAL.p
    {
      PrimeIffInTable(n);
    }
  }

  lemma PrimeIffInTable(n: nat)
    requires n <= 53
    ensures IsPrime(n) <==> n in SEQUENTIAL.p
  {
    SequentialValues();
    if n >= 2 {
      SieveBelow64(n);
      SieveTo53(n);
    }
  }

  lemma FloorConstantsAt(i: nat)
    requires i < 16
    ensures SEQUENTIAL.p[i] < TWO32 && SEQUENTIAL.mu[i] < TWO32
    ensures FloorConstant(SEQUENTIAL.p[i], SEQUENTIAL.mu[i])
  {
    SequentialValues();
  }

  /** Every constant is floor(2^32 / p) for its prime, in both layouts, and
      the interleaved layout holds the same sixteen primes, each once. */
  lemma TablesValid()
    ensures |SEQUENTIAL.p| == 16 && SEQUENTIAL.Valid()
    ensures |INTERLEAVED.p| == 16 && INTERLEAVED.Valid()
    ensures forall x :: x in INTERLEAVED.p <==> x in SEQUENTIAL.p
    ensures forall i, j | 0 <= i < j < |INTERLEAVED.p| :: INTERLEAVED.p[i] != INTERLEAVED.p[j]
  {
    SequentialValid();
    InterleavedValid();
    InterleavedPermutes();
  }

  lemma InterleavedPermutes()
    ensures forall x :: x in INTERLEAVED.p <==> x in SEQUENTIAL.p
    ensures forall i, j | 0 <= i < j < |INTERLEAVED.p| :: INTERLEAVED.p[i] != INTERLEAVED.p[j]
  {
    SequentialIncreasing();
    forall i, j | 0 <= i < j < 16
      ensures INTERLEAVED.p[i] != INTERLEAVED.p[j]
    {
      InterleavedIsSequentialAt(i);
      InterleavedIsSequentialAt(j);
    }
    forall x
      ensures x in INTERLEAVED.p <==> x in SEQUENTIAL.p
    {
      if x in INTERLEAVED.p {
        var j :| 0 <= j < 16 && INTERLEAVED.p[j] == x;
        InterleavedIsSequentialAt(j);
      }
      if x in SEQUENTIAL.p {
        var i :| 0 <= i < 16 && SEQUENTIAL.p[i] == x;
        var j := if i < 8 then 2 * i else 2 * (i - 8) + 1;
        InterleavedIsSequentialAt(j);
      }
    }
  }

  lemma SequentialValid()
    ensures |SEQUENTIAL.p| == 16 && SEQUENTIAL.Valid()
  {
    SequentialValues();
    forall i | 0 <= i < 16
      ensures SEQUENTIAL.p[i] < TWO32 && SEQUENTIAL.mu[i] < TWO32
      ensures FloorConstant(SEQUENTIAL.p[i], SEQUENTIAL.mu[i])
    {
      FloorConstantsAt(i);
    }
  }

  lemma InterleavedValid()
    ensures |INTERLEAVED.p| == 16 && INTERLEAVED.Valid()
  {
    forall j | 0 <= j < 16
      ensures INTERLEAVED.p[j] < TWO32 && INTERLEAVED.mu[j] < TWO32
      ensures FloorConstant(INTERLEAVED.p[j], INTERLEAVED.mu[j])
    {
      var i := if j % 2 == 0 then j / 2 else j / 2 + 8;
      InterleavedIsSequentialAt(j);
      FloorConstantsAt(i);
    }
  }

  /** Slot 2i of the interleaved layout holds small[i], slot 2i + 1 holds ext[i]. */
  lemma InterleavedIsSequentialAt(j: nat)
    requires j < 16
    ensures var i := if j % 2 == 0 then j / 2 else j / 2 + 8;
      INTERLEAVED.p[j] == SEQUENTIAL.p[i] && INTERLEAVED.mu[j] == SEQUENTIAL.mu[i]
  {
    SequentialValues();
    if j < 8 {
    } else {
    }
  }

  /** A positive multiple of p is at least p. */
  lemma DivisorAtMost(p: nat, v: nat)
    requires p > 0 && v > 0 && v % p == 0
    ensures p <= v
  {
    assert v == (v / p) * p;
    assert v / p >= 1;
    Barrett.MulLe(1, v / p, p);
  }

  lemma SequentialIncreasing()
    ensures forall i, j | 0 <= i < j < |SEQUENTIAL.p| :: SEQUENTIAL.p[i] < SEQUENTIAL.p[j]
  {
    SequentialValues();
  }
}
