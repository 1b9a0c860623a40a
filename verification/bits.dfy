/** Machine words as natural numbers.

    Every register lane, byte and word of the kernel is a `nat` below a power
    of two; wrap-around is written out with `%`. Bitwise operators are defined
    bit by bit, least significant bit first, so that their meaning can be
    stated one bit position at a time (`Bit`). */
module Bits {

  const TWO8: nat := 0x100
  const TWO16: nat := 0x1_0000
  const TWO32: nat := 0x1_0000_0000
  const TWO64: nat := 0x1_0000_0000_0000_0000

  /** The all-ones 32-bit lane: what a NEON comparison writes for "true". */
  const ALL_ONES: nat := 0xFFFF_FFFF

  function Pow2(k: nat): (r: nat)
    ensures r >= 1
  {
    if k == 0 then 1 else 2 * Pow2(k - 1)
  }

  /** Bit j of x (bit 0 is the least significant one). */
  function Bit(x: nat, j: nat): (b: nat)
    ensures b <= 1
  {
    if j == 0 then x % 2 else Bit(x / 2, j - 1)
  }

  /** Bitwise AND of the low `width` bits of a and b. */
  function BitAnd(a: nat, b: nat, width: nat): nat
  {
    if width == 0 then 0
    else (if a % 2 == 1 && b % 2 == 1 then 1 else 0) + 2 * BitAnd(a / 2, b / 2, width - 1)
  }

  /** Bitwise OR of the low `width` bits of a and b. */
  function BitOr(a: nat, b: nat, width: nat): nat
  {
    if width == 0 then 0
    else (if a % 2 == 1 || b % 2 == 1 then 1 else 0) + 2 * BitOr(a / 2, b / 2, width - 1)
  }

  /** Bitwise complement within `width` bits. */
  function BitNot(a: nat, width: nat): nat
    requires a < Pow2(width)
  {
    Pow2(width) - 1 - a
  }

  /** A comparison result lane: all ones or all zeros. */
  predicate IsMask(x: nat)
  {
    x == 0 || x == ALL_ONES
  }

  lemma {:induction false} Pow2Add(a: nat, b: nat)
    ensures Pow2(a + b) == Pow2(a) * Pow2(b)
  {
    if a > 0 {
      Pow2Add(a - 1, b);
    }
  }

  lemma Pow2Values()
    ensures Pow2(1) == 2 && Pow2(7) == 128 && Pow2(8) == TWO8
    ensures Pow2(16) == TWO16 && Pow2(32) == TWO32 && Pow2(64) == TWO64
  {
    assert Pow2(4) == 16;
    assert Pow2(8) == 256 by { Pow2Add(4, 4); }
    assert Pow2(7) == 128;
    Pow2Add(8, 8);
    Pow2Add(16, 16);
    Pow2Add(32, 32);
  }

  lemma {:induction false} Pow2Monotone(a: nat, b: nat)
    requires a <= b
    ensures Pow2(a) <= Pow2(b)
  {
    if a < b {
      Pow2Monotone(a, b - 1);
    }
  }

  lemma {:induction false} BitAndBound(a: nat, b: nat, width: nat)
    ensures BitAnd(a, b, width) < Pow2(width)
  {
    if width > 0 {
      BitAndBound(a / 2, b / 2, width - 1);
    }
  }

  lemma {:induction false} BitOrBound(a: nat, b: nat, width: nat)
    ensures BitOr(a, b, width) < Pow2(width)
  {
    if width > 0 {
      BitOrBound(a / 2, b / 2, width - 1);
    }
  }

  /** A value below 2^width has no bit set at or above `width`. */
  lemma {:induction false} BitAbove(x: nat, width: nat, j: nat)
    requires x < Pow2(width) && width <= j
    ensures Bit(x, j) == 0
  {
    if j > 0 {
      if width == 0 {
        BitAbove(x / 2, 0, j - 1);
      } else {
        BitAbove(x / 2, width - 1, j - 1);
      }
    }
  }

  /** low + 2 * rest, low a bit: halving drops the low bit. */
  lemma HalfOf(c: nat, low: nat, rest: nat)
    requires low <= 1 && c == low + 2 * rest
    ensures c / 2 == rest && c % 2 == low
  {
  }

  lemma {:induction false} BitOfAnd(a: nat, b: nat, width: nat, j: nat)
    requires j < width
    ensures Bit(BitAnd(a, b, width), j) == Bit(a, j) * Bit(b, j)
  {
    var c := BitAnd(a, b, width);
    var rest := BitAnd(a / 2, b / 2, width - 1);
    var low := if a % 2 == 1 && b % 2 == 1 then 1 else 0;
    assert c == low + 2 * rest;
    HalfOf(c, low, rest);
    if j > 0 {
      assert Bit(c, j) == Bit(rest, j - 1);
      assert Bit(a, j) == Bit(a / 2, j - 1) && Bit(b, j) == Bit(b / 2, j - 1);
      BitOfAnd(a / 2, b / 2, width - 1, j - 1);
    }
  }

  lemma {:induction false} BitOfOr(a: nat, b: nat, width: nat, j: nat)
    requires j < width
    ensures Bit(BitOr(a, b, width), j) == (if Bit(a, j) == 1 || Bit(b, j) == 1 then 1 else 0)
  {
    var c := BitOr(a, b, width);
    var rest := BitOr(a / 2, b / 2, width - 1);
    var low := if a % 2 == 1 || b % 2 == 1 then 1 else 0;
    assert c == low + 2 * rest;
    HalfOf(c, low, rest);
    if j > 0 {
      assert Bit(c, j) == Bit(rest, j - 1);
      assert Bit(a, j) == Bit(a / 2, j - 1) && Bit(b, j) == Bit(b / 2, j - 1);
      BitOfOr(a / 2, b / 2, width - 1, j - 1);
    }
  }

  /** Two values below 2^width that agree on every bit are equal. */
  lemma {:induction false} BitsEqual(x: nat, y: nat, width: nat)
    requires x < Pow2(width) && y < Pow2(width)
    requires forall j | 0 <= j < width :: Bit(x, j) == Bit(y, j)
    ensures x == y
  {
    if width > 0 {
      forall j | 0 <= j < width - 1
        ensures Bit(x / 2, j) == Bit(y / 2, j)
      {
        assert Bit(x, j + 1) == Bit(x / 2, j);
        assert Bit(y, j + 1) == Bit(y / 2, j);
      }
      BitsEqual(x / 2, y / 2, width - 1);
      assert Bit(x, 0) == Bit(y, 0);
    }
  }

  lemma {:induction false} BitOfPow2(k: nat, j: nat)
    ensures Bit(Pow2(k), j) == (if j == k then 1 else 0)
  {
    if k > 0 && j > 0 {
      BitOfPow2(k - 1, j - 1);
    } else if k > 0 {
      assert Pow2(k) % 2 == 0;
    } else if j > 0 {
      assert Pow2(k) / 2 == 0;
      BitAbove(0, 0, j - 1);
    }
  }

  /** Bits of lo + hi * 2^k: the low k bits come from lo, the rest from hi. */
  lemma {:induction false} BitOfConcat(lo: nat, hi: nat, k: nat, j: nat)
    requires lo < Pow2(k)
    ensures Bit(lo + hi * Pow2(k), j) == (if j < k then Bit(lo, j) else Bit(hi, j - k))
  {
    if k == 0 {
      assert lo == 0;
    } else if j == 0 {
      assert (lo + hi * Pow2(k)) % 2 == lo % 2 by {
        assert hi * Pow2(k) == 2 * (hi * Pow2(k - 1));
      }
    } else {
      assert (lo + hi * Pow2(k)) / 2 == lo / 2 + hi * Pow2(k - 1) by {
        assert hi * Pow2(k) == 2 * (hi * Pow2(k - 1));
      }
      BitOfConcat(lo / 2, hi, k - 1, j - 1);
    }
  }

  /** Division by p: n == (n / p) * p + n % p, with the neighbours of n / p. */
  lemma DivParts(n: nat, p: nat) returns (k: nat, m: nat)
    requires p > 0
    ensures k == n / p && m == n % p
    ensures n == k * p + m && m < p
    ensures k * p <= n < (k + 1) * p
  {
    k, m := n / p, n % p;
  }

  lemma DivUnique(x: nat, d: nat, q: nat, r: nat)
    requires d > 0 && x == q * d + r && r < d
    ensures x / d == q && x % d == r
  {
    var q' := x / d;
    var r' := x % d;
    assert x == q' * d + r';
    if q' > q {
      assert q' * d >= (q + 1) * d by {
        MulMonotone(q + 1, q', d);
      }
      assert false;
    } else if q' < q {
      assert q * d >= (q' + 1) * d by {
        MulMonotone(q' + 1, q, d);
      }
      assert false;
    }
  }

  /** Whole bytes' worth of bits leave the position within a byte alone. */
  lemma EightAligned(byte: nat, j: nat)
    ensures (8 * byte + j) % 8 == j % 8
  {
    DivUnique(8 * byte + j, 8, byte + j / 8, j % 8);
  }

  lemma MulMonotone(a: nat, b: nat, c: nat)
    requires a <= b
    ensures a * c <= b * c
  {
  }

  /** Shifting right by k moves bit k + t to position t. */
  lemma {:induction false} BitOfShiftRight(x: nat, k: nat, t: nat)
    ensures Bit(ShiftRight(x, k), t) == Bit(x, k + t)
  {
    if k > 0 {
      BitOfShiftRight(x / 2, k - 1, t);
      assert Bit(x, k + t) == Bit(x / 2, k - 1 + t);
    }
  }

  /** A value below 2^w shifted right by k <= w is below 2^(w - k). */
  lemma {:induction false} ShiftBelow(x: nat, w: nat, k: nat)
    requires x < Pow2(w) && k <= w
    ensures ShiftRight(x, k) < Pow2(w - k)
  {
    if k > 0 {
      ShiftBelow(x / 2, w - 1, k - 1);
    }
  }

  /** On comparison masks AND and OR are the boolean connectives. */
  lemma {:induction false} OnesAlgebra(x: nat, width: nat)
    requires x < Pow2(width)
    ensures BitAnd(Pow2(width) - 1, x, width) == x && BitAnd(x, Pow2(width) - 1, width) == x
    ensures BitAnd(0, x, width) == 0 && BitAnd(x, 0, width) == 0
    ensures BitOr(Pow2(width) - 1, x, width) == Pow2(width) - 1
    ensures BitOr(x, Pow2(width) - 1, width) == Pow2(width) - 1
    ensures BitOr(0, x, width) == x && BitOr(x, 0, width) == x
  {
    if width > 0 {
      OnesAlgebra(x / 2, width - 1);
      assert (Pow2(width) - 1) / 2 == Pow2(width - 1) - 1;
      assert (Pow2(width) - 1) % 2 == 1;
    }
  }

  lemma MaskAlgebra32(x: nat)
    requires x < TWO32
    ensures BitAnd(ALL_ONES, x, 32) == x && BitAnd(x, ALL_ONES, 32) == x
    ensures BitAnd(0, x, 32) == 0 && BitAnd(x, 0, 32) == 0
    ensures BitOr(ALL_ONES, x, 32) == ALL_ONES && BitOr(x, ALL_ONES, 32) == ALL_ONES
    ensures BitOr(0, x, 32) == x && BitOr(x, 0, 32) == x
  {
    Pow2Values();
    OnesAlgebra(x, 32);
  }

  /** A bitwise OR is zero exactly when both operands are. */
  lemma {:induction false} OrZero(a: nat, b: nat, width: nat)
    requires a < Pow2(width) && b < Pow2(width)
    ensures BitOr(a, b, width) == 0 <==> a == 0 && b == 0
  {
    if width > 0 {
      OrZero(a / 2, b / 2, width - 1);
    }
  }

  /** The complement flips every bit below the width. */
  lemma {:induction false} BitOfNot(a: nat, width: nat, j: nat)
    requires a < Pow2(width) && j < width
    ensures Bit(BitNot(a, width), j) == 1 - Bit(a, j)
  {
    assert Pow2(width) == 2 * Pow2(width - 1);
    if j == 0 {
      assert (Pow2(width) - 1 - a) % 2 == 1 - a % 2;
    } else {
      assert (Pow2(width) - 1 - a) / 2 == Pow2(width - 1) - 1 - a / 2;
      BitOfNot(a / 2, width - 1, j - 1);
    }
  }

  /** `x >> k` */
  function ShiftRight(x: nat, k: nat): (r: nat)
    ensures r <= x
  {
    if k == 0 then x else ShiftRight(x / 2, k - 1)
  }

  /** `(x >> k) & 1` is bit k of x. */
  lemma ShiftAndOne(x: nat, k: nat, width: nat)
    requires width >= 1
    ensures BitAnd(ShiftRight(x, k), 1, width) == Bit(x, k)
  {
    BitOfShiftRight(x, k, 0);
    AndLowBit(ShiftRight(x, k), width);
  }

  lemma {:induction false} AndLowBit(x: nat, width: nat)
    requires width >= 1
    ensures BitAnd(x, 1, width) == x % 2
  {
    AndNothing(x / 2, width - 1);
  }

  lemma {:induction false} AndNothing(x: nat, width: nat)
    ensures BitAnd(x, 0, width) == 0
  {
    if width > 0 {
      AndNothing(x / 2, width - 1);
    }
  }
}
