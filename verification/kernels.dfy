/** The register-level building blocks every kernel is made of: loading
    four 64-bit inputs into one 32-bit register, the lane-width check and
    enable mask, vector Barrett reduction, the per-prime composite test and
    the composite mask accumulated over a run of table slots. */
module Kernels {
  import opened Bits
  import opened Barrett
  import opened PrimeTables
  import opened Neon

  /** Two comparison-mask registers combined lane by lane. */
  lemma MaskLanes(a: U32x4, b: U32x4)
    requires forall i | 0 <= i < 4 :: IsMask(a[i]) && IsMask(b[i])
    ensures forall i | 0 <= i < 4 :: IsMask(VOrrq(a, b)[i]) && IsMask(VAndq(a, b)[i])
    ensures forall i | 0 <= i < 4 :: VOrrq(a, b)[i] == 0 <==> a[i] == 0 && b[i] == 0
    ensures forall i | 0 <= i < 4 :: VAndq(a, b)[i] == 0 <==> a[i] == 0 || b[i] == 0
  {
    forall i | 0 <= i < 4
      ensures IsMask(VOrrq(a, b)[i]) && IsMask(VAndq(a, b)[i])
      ensures VOrrq(a, b)[i] == 0 <==> a[i] == 0 && b[i] == 0
      ensures VAndq(a, b)[i] == 0 <==> a[i] == 0 || b[i] == 0
    {
      MaskLogic(a[i], b[i]);
    }
  }

  /** AND with a mask register keeps a lane or clears it. */
  lemma AndMaskLanes(a: U32x4, m: U32x4)
    requires forall i | 0 <= i < 4 :: IsMask(m[i])
    ensures forall i | 0 <= i < 4 :: VAndq(a, m)[i] == if m[i] == ALL_ONES then a[i] else 0
    ensures forall i | 0 <= i < 4 :: VAndq(m, a)[i] == if m[i] == ALL_ONES then a[i] else 0
  {
    forall i | 0 <= i < 4
      ensures VAndq(a, m)[i] == if m[i] == ALL_ONES then a[i] else 0
      ensures VAndq(m, a)[i] == if m[i] == ALL_ONES then a[i] else 0
    {
      MaskLogic(a[i], m[i]);
      MaskLogic(m[i], a[i]);
    }
  }

  /** `vcombine_u32(vmovn_u64(a), vmovn_u64(b))`: the low 32 bits of four
      64-bit lanes. */
  function NarrowPair(a: U64x2, b: U64x2): (n: U32x4)
    ensures n == [a[0] % TWO32, a[1] % TWO32, b[0] % TWO32, b[1] % TWO32]
  {
    VCombine(VMovn64(a), VMovn64(b))
  }

  /** The register loaded at element offset off: inputs off .. off + 3,
      truncated to 32 bits. */
  function LoadReg(ptr: seq<U64>, off: nat): (n: U32x4)
    requires off + 4 <= |ptr|
    ensures forall i | 0 <= i < 4 :: n[i] == ptr[off + i] % TWO32
  {
    NarrowPair(VLd2(ptr, off), VLd2(ptr, off + 2))
  }

  /** The per-lane enable: all ones where the high 32 bits of the input are
      zero, that is where the input fits in 32 bits. */
  function EnableReg(ptr: seq<U64>, off: nat): (en: U32x4)
    requires off + 4 <= |ptr|
    ensures forall i | 0 <= i < 4 :: en[i] == if ptr[off + i] < TWO32 then ALL_ONES else 0
  {
    var a := VLd2(ptr, off);
    var b := VLd2(ptr, off + 2);
    VCeqq(VCombine(VMovn64(VShrq64(a)), VMovn64(VShrq64(b))), VDup(0))
  }

  /** The OR of the high halves of the 2 * regs inputs from offset off. The
      kernels combine the shifted registers as a tree; OR is associative, so
      a left fold yields the same register. */
  function AnyHigh(ptr: seq<U64>, off: nat, regs: nat): (any: U64x2)
    requires off + 2 * regs <= |ptr|
    ensures any[0] == 0 && any[1] == 0 <==> forall j | off <= j < off + 2 * regs :: ptr[j] < TWO32
  {
    if regs == 0 then [0, 0]
    else
      var prev := AnyHigh(ptr, off, regs - 1);
      var h := VShrq64(VLd2(ptr, off + 2 * (regs - 1)));
      Or64Zero(prev, h);
      VOrrq64(prev, h)
  }

  /** `all32`: both lanes of the OR-reduction are zero, i.e. every input of
      the block fits in 32 bits. */
  function All32(ptr: seq<U64>, off: nat, regs: nat): (all32: bool)
    requires off + 2 * regs <= |ptr|
    ensures all32 <==> forall j | off <= j < off + 2 * regs :: ptr[j] < TWO32
  {
    var any := AnyHigh(ptr, off, regs);
    Pow2Values();
    OrZero(any[0], any[1], 64);
    BitOr(any[0], any[1], 64) == 0
  }

  /** Barrett reduction of one register, with the branch-free conditional
      subtract (`barrett_modq_u32_dual` and `_quad` apply this to each of
      their registers independently). */
  function BarrettReg(n: U32x4, mu: U32x4, p: U32x4): (r: U32x4)
    ensures forall i | 0 <= i < 4 :: r[i] == Reduce(n[i], mu[i], p[i])
  {
    var q := VMulHigh(n, mu);
    var r0 := VSubq(n, VMulq(q, p));
    var c := VCgeq(r0, p);
    var r := VSubq(r0, VAndq(c, p));
    BarrettRegLanes(n, mu, p, q, r0, c, r);
    r
  }

  lemma BarrettRegLanes(n: U32x4, mu: U32x4, p: U32x4, q: U32x4, r0: U32x4, c: U32x4, r: U32x4)
    requires q == VMulHigh(n, mu) && r0 == VSubq(n, VMulq(q, p))
    requires c == VCgeq(r0, p) && r == VSubq(r0, VAndq(c, p))
    ensures forall i | 0 <= i < 4 :: r[i] == Reduce(n[i], mu[i], p[i])
  {
    forall i | 0 <= i < 4
      ensures r[i] == Reduce(n[i], mu[i], p[i])
    {
      BarrettRegLane(n, mu, p, q, r0, c, r, i);
    }
  }

  lemma BarrettRegLane(n: U32x4, mu: U32x4, p: U32x4, q: U32x4, r0: U32x4, c: U32x4, r: U32x4, i: nat)
    requires q == VMulHigh(n, mu) && r0 == VSubq(n, VMulq(q, p))
    requires c == VCgeq(r0, p) && r == VSubq(r0, VAndq(c, p)) && i < 4
    ensures r[i] == Reduce(n[i], mu[i], p[i])
  {
    var m := VMulq(q, p)[i];
    var a := VAndq(c, p)[i];
    LaneSteps(n, mu, p, q, r0, c, r, i);
    MaskLogic(c[i], p[i]);
    BarrettLane(n[i], mu[i], p[i], q[i], m, r0[i], a, r[i]);
  }

  /** Lane i of each register step of `barrett_reduce`. */
  lemma LaneSteps(n: U32x4, mu: U32x4, p: U32x4, q: U32x4, r0: U32x4, c: U32x4, r: U32x4, i: nat)
    requires q == VMulHigh(n, mu) && r0 == VSubq(n, VMulq(q, p))
    requires c == VCgeq(r0, p) && r == VSubq(r0, VAndq(c, p)) && i < 4
    ensures q[i] == n[i] * mu[i] / TWO32 && VMulq(q, p)[i] == (q[i] * p[i]) % TWO32
    ensures r0[i] == (n[i] - VMulq(q, p)[i]) % TWO32
    ensures c[i] == (if r0[i] >= p[i] then ALL_ONES else 0) && VAndq(c, p)[i] == And32(c[i], p[i])
    ensures r[i] == (r0[i] - VAndq(c, p)[i]) % TWO32
  {
  }

  /** One lane of the register computation is the scalar `Reduce`. */
  lemma BarrettLane(n: nat, mu: nat, p: nat, q: nat, m: nat, r0: nat, a: nat, r: nat)
    requires q == n * mu / TWO32 && m == (q * p) % TWO32 && r0 == (n - m) % TWO32
    requires a == (if r0 >= p then p else 0) && r == (r0 - a) % TWO32
    ensures r == Reduce(n, mu, p)
  {
  }

  /** Barrett reduction without the correction step. */
  function BarrettRawReg(n: U32x4, mu: U32x4, p: U32x4): (r: U32x4)
    ensures forall i | 0 <= i < 4 :: r[i] == RawRemainder(n[i], mu[i], p[i])
  {
    VSubq(n, VMulq(VMulHigh(n, mu), p))
  }

  /** `vceqq(r, 0) & ~vceqq(n, p)`: lanes whose remainder is zero and which
      are not the prime itself. */
  function DivisorHits(n: U32x4, r: U32x4, p: U32x4): (d: U32x4)
    ensures forall i | 0 <= i < 4 :: d[i] == if r[i] == 0 && n[i] != p[i] then ALL_ONES else 0
  {
    var z := VCeqq(r, VDup(0));
    var e := VMvnq(VCeqq(n, p));
    AndMaskLanes(e, z);
    VAndq(z, e)
  }

  /** The composite test for table slot j on one register. */
  function PrimeHits(n: U32x4, t: ConstTable, j: nat): (d: U32x4)
    requires t.Valid() && j < |t.p|
    ensures forall i | 0 <= i < 4 :: d[i] == if ProperlyDivides(t.p[j], n[i]) then ALL_ONES else 0
  {
    var p := VDup(t.p[j]);
    var r := BarrettReg(n, VDup(t.mu[j]), p);
    FloorExactLanes(n, t.mu[j], t.p[j]);
    DivisorHits(n, r, p)
  }

  lemma FloorExactLanes(n: U32x4, mu: nat, p: nat)
    requires FloorConstant(p, mu)
    ensures forall i | 0 <= i < 4 :: Reduce(n[i], mu, p) == n[i] % p
  {
    forall i | 0 <= i < 4
      ensures Reduce(n[i], mu, p) == n[i] % p
    {
      FloorExact(n[i], mu, p);
    }
  }

  /** No slot of t in [lo, hi) properly divides x. */
  ghost predicate ClearIn(x: nat, t: ConstTable, lo: nat, hi: nat)
    requires hi <= |t.p|
  {
    forall j | lo <= j < hi :: !ProperlyDivides(t.p[j], x)
  }

  /** `m |= d` over the slots lo .. hi - 1 in order: a lane ends all ones
      exactly when some slot's prime properly divides it. */
  function DivisibleMask(n: U32x4, t: ConstTable, lo: nat, hi: nat): (m: U32x4)
    requires t.Valid() && lo <= hi <= |t.p|
    ensures forall i | 0 <= i < 4 :: IsMask(m[i]) && (m[i] == 0 <==> ClearIn(n[i], t, lo, hi))
    decreases hi - lo
  {
    if hi == lo then VDup(0)
    else
      var prev := DivisibleMask(n, t, lo, hi - 1);
      var d := PrimeHits(n, t, hi - 1);
      AccumulateLanes(n, t, lo, hi, prev, d);
      VOrrq(prev, d)
  }

  /** One `m |= d` step extends the cleared range by one slot. */
  lemma AccumulateLanes(n: U32x4, t: ConstTable, lo: nat, hi: nat, prev: U32x4, d: U32x4)
    requires lo < hi <= |t.p|
    requires forall i | 0 <= i < 4 :: IsMask(prev[i]) && (prev[i] == 0 <==> ClearIn(n[i], t, lo, hi - 1))
    requires forall i | 0 <= i < 4 :: IsMask(d[i]) && (d[i] == 0 <==> !ProperlyDivides(t.p[hi - 1], n[i]))
    ensures forall i | 0 <= i < 4 :: IsMask(VOrrq(prev, d)[i]) && (VOrrq(prev, d)[i] == 0 <==> ClearIn(n[i], t, lo, hi))
  {
    MaskLanes(prev, d);
  }

  /** The wheel kernels' variant: each slot's hits are ANDed with the wheel
      mask before they are accumulated. */
  function GatedMask(n: U32x4, w: U32x4, t: ConstTable, lo: nat, hi: nat): (m: U32x4)
    requires t.Valid() && lo <= hi <= |t.p|
    requires forall i | 0 <= i < 4 :: IsMask(w[i])
    ensures forall i | 0 <= i < 4 :: IsMask(m[i]) && (m[i] == 0 <==> w[i] == 0 || ClearIn(n[i], t, lo, hi))
    decreases hi - lo
  {
    if hi == lo then VDup(0)
    else
      var prev := GatedMask(n, w, t, lo, hi - 1);
      var d := PrimeHits(n, t, hi - 1);
      MaskLanes(d, w);
      var g := VAndq(d, w);
      GatedAccumulateLanes(n, w, t, lo, hi, prev, g);
      VOrrq(prev, g)
  }

  lemma GatedAccumulateLanes(n: U32x4, w: U32x4, t: ConstTable, lo: nat, hi: nat, prev: U32x4, g: U32x4)
    requires lo < hi <= |t.p|
    requires forall i | 0 <= i < 4 :: IsMask(prev[i]) && (prev[i] == 0 <==> w[i] == 0 || ClearIn(n[i], t, lo, hi - 1))
    requires forall i | 0 <= i < 4 :: IsMask(g[i]) && (g[i] == 0 <==> w[i] == 0 || !ProperlyDivides(t.p[hi - 1], n[i]))
    ensures forall i | 0 <= i < 4 ::
      IsMask(VOrrq(prev, g)[i]) && (VOrrq(prev, g)[i] == 0 <==> w[i] == 0 || ClearIn(n[i], t, lo, hi))
  {
    MaskLanes(prev, g);
  }

  /** `vceqq(m, 0)`: the survivor mask of a composite mask. */
  function Survivors(m: U32x4): (sv: U32x4)
    ensures forall i | 0 <= i < 4 :: sv[i] == if m[i] == 0 then ALL_ONES else 0
  {
    VCeqq(m, VDup(0))
  }

  /** `(a | b | c | d) == 0` on 32-bit values: all four are 0. */
  lemma OrAllZero(a: U32, b: U32, c: U32, d: U32)
    requires BitOr(BitOr(BitOr(a, b, 32), c, 32), d, 32) == 0
    ensures a == 0 && b == 0 && c == 0 && d == 0
  {
    Pow2Values();
    BitOrBound(a, b, 32);
    BitOrBound(BitOr(a, b, 32), c, 32);
    OrZero(BitOr(BitOr(a, b, 32), c, 32), d, 32);
    OrZero(BitOr(a, b, 32), c, 32);
    OrZero(a, b, 32);
  }
}
