/** The ARM NEON intrinsics the kernels use, lane by lane.

    A register is a fixed-length sequence of lanes; lane values are natural
    numbers below 2^width. Each intrinsic is written with the wrap-around or
    truncation the hardware performs: `vmulq_u32` and `vsubq_u32` wrap
    modulo 2^32, the `vmovn` narrowings keep the low half, comparisons write
    all ones or all zeros, `vpadd_u8` and `vaddv_u8` add modulo 2^8. */
module Neon {
  import opened Bits

  type U8 = x: nat | x < TWO8
  type U16 = x: nat | x < TWO16
  type U32 = x: nat | x < TWO32
  type U64 = x: nat | x < TWO64

  type U8x8 = s: seq<U8> | |s| == 8 witness [0, 0, 0, 0, 0, 0, 0, 0]
  type U16x4 = s: seq<U16> | |s| == 4 witness [0, 0, 0, 0]
  type U16x8 = s: seq<U16> | |s| == 8 witness [0, 0, 0, 0, 0, 0, 0, 0]
  type U32x2 = s: seq<U32> | |s| == 2 witness [0, 0]
  type U32x4 = s: seq<U32> | |s| == 4 witness [0, 0, 0, 0]
  type U64x2 = s: seq<U64> | |s| == 2 witness [0, 0]

  /** `vdupq_n_u32` */
  function VDup(x: U32): (r: U32x4)
    ensures forall i | 0 <= i < 4 :: r[i] == x
  {
    [x, x, x, x]
  }

  /** `vld1q_u64(ptr + k)` */
  function VLd2(ptr: seq<U64>, k: nat): (r: U64x2)
    requires k + 2 <= |ptr|
    ensures r[0] == ptr[k] && r[1] == ptr[k + 1]
  {
    ptr[k..k + 2]
  }

  /** `vget_low_u32` */
  function VGetLow(a: U32x4): (r: U32x2)
    ensures r[0] == a[0] && r[1] == a[1]
  {
    a[..2]
  }

  /** `vget_high_u32` */
  function VGetHigh(a: U32x4): (r: U32x2)
    ensures r[0] == a[2] && r[1] == a[3]
  {
    a[2..]
  }

  /** `vcombine_u32` */
  function VCombine(lo: U32x2, hi: U32x2): (r: U32x4)
    ensures r[0] == lo[0] && r[1] == lo[1] && r[2] == hi[0] && r[3] == hi[1]
  {
    lo + hi
  }

  /** A product of two 32-bit values fits in 64 bits. */
  lemma ProductFits(x: U32, y: U32)
    ensures x * y < TWO64
  {
    var m: nat := TWO32 - 1;
    MulMonotone(x, m, y);
    MulMonotone(y, m, m);
    assert m * m < TWO64;
  }

  /** `vmull_u32`: widening multiply. */
  function VMull(a: U32x2, b: U32x2): (r: U64x2)
    ensures r[0] == a[0] as nat * b[0] as nat && r[1] == a[1] as nat * b[1] as nat
  {
    ProductFits(a[0], b[0]);
    ProductFits(a[1], b[1]);
    [a[0] as nat * b[0] as nat, a[1] as nat * b[1] as nat]
  }

  /** `vshrn_n_u64(x, 32)`: shift right by 32 and narrow to 32 bits. */
  function VShrn32(x: U64x2): (r: U32x2)
  {
    [(x[0] / TWO32) % TWO32, (x[1] / TWO32) % TWO32]
  }

  /** `vmulq_u32`: lane-wise multiply, wrapping. */
  function VMulq(a: U32x4, b: U32x4): (r: U32x4)
    ensures forall i | 0 <= i < 4 :: r[i] == (a[i] * b[i]) % TWO32
  {
    seq(4, i requires 0 <= i < 4 => (a[i] * b[i]) % TWO32)
  }

  /** `vsubq_u32`: lane-wise subtract, wrapping. */
  function VSubq(a: U32x4, b: U32x4): (r: U32x4)
    ensures forall i | 0 <= i < 4 :: r[i] == (a[i] - b[i]) % TWO32
  {
    seq(4, i requires 0 <= i < 4 => (a[i] - b[i]) % TWO32)
  }

  function And32(x: U32, y: U32): U32
  {
    Pow2Values();
    BitAndBound(x, y, 32);
    BitAnd(x, y, 32)
  }

  function Or32(x: U32, y: U32): U32
  {
    Pow2Values();
    BitOrBound(x, y, 32);
    BitOr(x, y, 32)
  }

  /** `vandq_u32` */
  function VAndq(a: U32x4, b: U32x4): (r: U32x4)
    ensures forall i | 0 <= i < 4 :: r[i] == And32(a[i], b[i])
  {
    seq(4, i requires 0 <= i < 4 => And32(a[i], b[i]))
  }

  /** `vorrq_u32` */
  function VOrrq(a: U32x4, b: U32x4): (r: U32x4)
    ensures forall i | 0 <= i < 4 :: r[i] == Or32(a[i], b[i])
  {
    seq(4, i requires 0 <= i < 4 => Or32(a[i], b[i]))
  }

  /** `vmvnq_u32`: bitwise complement. */
  function VMvnq(a: U32x4): (r: U32x4)
    ensures forall i | 0 <= i < 4 :: r[i] == ALL_ONES - a[i]
  {
    seq(4, i requires 0 <= i < 4 => ALL_ONES - a[i])
  }

  /** `vceqq_u32` */
  function VCeqq(a: U32x4, b: U32x4): (r: U32x4)
    ensures forall i | 0 <= i < 4 :: r[i] == if a[i] == b[i] then ALL_ONES else 0
  {
    seq(4, i requires 0 <= i < 4 => if a[i] == b[i] then ALL_ONES else 0)
  }

  /** `vcgeq_u32` */
  function VCgeq(a: U32x4, b: U32x4): (r: U32x4)
    ensures forall i | 0 <= i < 4 :: r[i] == if a[i] >= b[i] then ALL_ONES else 0
  {
    seq(4, i requires 0 <= i < 4 => if a[i] >= b[i] then ALL_ONES else 0)
  }

  /** `vmaxvq_u32`: horizontal maximum. */
  function VMaxvq(a: U32x4): (m: U32)
    ensures forall i | 0 <= i < 4 :: a[i] <= m
    ensures exists i | 0 <= i < 4 :: a[i] == m
  {
    var m01 := if a[0] >= a[1] then a[0] else a[1];
    var m23 := if a[2] >= a[3] then a[2] else a[3];
    if m01 >= m23 then m01 else m23
  }

  /** `vshrq_n_u64(a, 32)` */
  function VShrq64(a: U64x2): (r: U64x2)
  {
    [a[0] / TWO32, a[1] / TWO32]
  }

  /** `vorrq_u64` */
  function VOrrq64(a: U64x2, b: U64x2): (r: U64x2)
  {
    Pow2Values();
    BitOrBound(a[0], b[0], 64);
    BitOrBound(a[1], b[1], 64);
    [BitOr(a[0], b[0], 64), BitOr(a[1], b[1], 64)]
  }

  /** `vmovn_u64`: keep the low 32 bits. */
  function VMovn64(a: U64x2): (r: U32x2)
  {
    [a[0] % TWO32, a[1] % TWO32]
  }

  /** `vmovn_u32`: keep the low 16 bits. */
  function VMovn32(a: U32x4): (r: U16x4)
    ensures forall i | 0 <= i < 4 :: r[i] == a[i] % TWO16
  {
    seq(4, i requires 0 <= i < 4 => a[i] % TWO16)
  }

  /** `vcombine_u16` */
  function VCombine16(lo: U16x4, hi: U16x4): (r: U16x8)
  {
    lo + hi
  }

  /** `vmovn_u16`: keep the low 8 bits. */
  function VMovn16(a: U16x8): (r: U8x8)
    ensures forall i | 0 <= i < 8 :: r[i] == a[i] % TWO8
  {
    seq(8, i requires 0 <= i < 8 => a[i] % TWO8)
  }

  /** `vshr_n_u8(a, 7)` */
  function VShr8By7(a: U8x8): (r: U8x8)
    ensures forall i | 0 <= i < 8 :: r[i] == a[i] / 128
  {
    seq(8, i requires 0 <= i < 8 => a[i] / 128)
  }

  function And8(x: U8, y: U8): U8
  {
    Pow2Values();
    BitAndBound(x, y, 8);
    BitAnd(x, y, 8)
  }

  /** `vand_u8` */
  function VAnd8(a: U8x8, b: U8x8): (r: U8x8)
    ensures forall i | 0 <= i < 8 :: r[i] == And8(a[i], b[i])
  {
    seq(8, i requires 0 <= i < 8 => And8(a[i], b[i]))
  }

  /** `vpadd_u8`: pairwise add of adjacent lanes, a's pairs then b's, wrapping. */
  function VPadd8(a: U8x8, b: U8x8): (r: U8x8)
    ensures forall i | 0 <= i < 4 :: r[i] == (a[2 * i] + a[2 * i + 1]) % TWO8 && r[i + 4] == (b[2 * i] + b[2 * i + 1]) % TWO8
  {
    seq(8, i requires 0 <= i < 8 =>
      if i < 4 then (a[2 * i] + a[2 * i + 1]) % TWO8 else (b[2 * (i - 4)] + b[2 * (i - 4) + 1]) % TWO8)
  }

  /** `vaddv_u8`: sum of all lanes, wrapping. */
  function VAddv8(a: U8x8): (r: U8)
  {
    (a[0] + a[1] + a[2] + a[3] + a[4] + a[5] + a[6] + a[7]) % TWO8
  }

  /** `vshrn_n_u64` after `vmull_u32` is the high half of the product. */
  lemma VShrn32OfProduct(a: U32x2, b: U32x2)
    ensures VShrn32(VMull(a, b))[0] == a[0] * b[0] / TWO32
    ensures VShrn32(VMull(a, b))[1] == a[1] * b[1] / TWO32
  {
    ProductFits(a[0], b[0]);
    ProductFits(a[1], b[1]);
  }

  /** The quotient estimate of the Barrett kernels: the high 32 bits of each
      lane's 64-bit product, assembled from the two halves. */
  function VMulHigh(n: U32x4, mu: U32x4): (q: U32x4)
    ensures forall i | 0 <= i < 4 :: q[i] == n[i] * mu[i] / TWO32
  {
    VShrn32OfProduct(VGetLow(n), VGetLow(mu));
    VShrn32OfProduct(VGetHigh(n), VGetHigh(mu));
    VCombine(VShrn32(VMull(VGetLow(n), VGetLow(mu))), VShrn32(VMull(VGetHigh(n), VGetHigh(mu))))
  }

  /** On comparison masks, AND and OR are conjunction and disjunction, and
      AND with an all-ones mask keeps a value. */
  lemma MaskLogic(x: U32, y: U32)
    ensures IsMask(x) && IsMask(y) ==> IsMask(And32(x, y)) && IsMask(Or32(x, y))
    ensures IsMask(x) ==> (And32(x, y) == if x == ALL_ONES then y else 0)
    ensures IsMask(y) ==> (And32(x, y) == if y == ALL_ONES then x else 0)
    ensures IsMask(x) && IsMask(y) ==> (Or32(x, y) == ALL_ONES <==> x == ALL_ONES || y == ALL_ONES)
  {
    MaskAlgebra32(x);
    MaskAlgebra32(y);
  }

  /** A 64-bit OR lane is zero exactly when both operands are. */
  lemma Or64Zero(a: U64x2, b: U64x2)
    ensures VOrrq64(a, b)[0] == 0 <==> a[0] == 0 && b[0] == 0
    ensures VOrrq64(a, b)[1] == 0 <==> a[1] == 0 && b[1] == 0
  {
    Pow2Values();
    OrZero(a[0], b[0], 64);
    OrZero(a[1], b[1], 64);
  }
}
