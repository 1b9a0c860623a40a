/** `neon_optimized` (src/simd_optimized.cpp): a residue test modulo 30 in
    front of the trial divisions over the interleaved table from slot 6 on,
    a shifted movemask pack, and a bitmap stream whose scalar parts divide
    by 3 and 5 with exact multiply-and-shift constants.

    The residue test uses 2863311531, the constant for a division by 3 with
    a shift of 33, as if it were the one for 30 with a shift of 32: the
    remainder it forms is not n mod 30, so the test rejects 7 and lets
    through multiples of 3. Slot 6 of the interleaved table is not the
    fourth prime but the seventh: the slots skipped hold 2, 3 and 5 and also
    23, 29 and 31; behind this residue test that gap is latent, since the
    test already rejects the inputs it would let through. The scalar parts are exact, but the partial last byte
    keeps the prior bit of every input they skip. */
module Optimized {
  import opened Bits
  import opened Barrett
  import opened PrimeTables
  import opened Neon
  import opened Kernels
  import opened Reference
  import opened Pack
  import opened Bitmap
  import opened Lanes
  import opened Wheels
  import Wheel

  /** `mu3 = 0xAAAAAAAB`: ceil(2^33 / 3). */
  const MU3: nat := 0xAAAA_AAAB

  /** `mu5 = 0xCCCCCCCD`: ceil(2^34 / 5). */
  const MU5: nat := 0xCCCC_CCCD

  /** `q = (uint64_t(n) * mu) >> s; return n - q * d;` in 32-bit
      arithmetic. */
  function ShiftRemainder(n: U32, mu: nat, s: nat, d: nat): (r: nat)
    ensures r < TWO32
  {
    assert Pow2(s) >= 1;
    (n - ((n * mu) / Pow2(s) * d) % TWO32) % TWO32
  }

  /** A constant exceeding 2^s / d by less than 2^s / (d * 2^32) makes the
      shifted product the exact quotient, so the remainder is exact too. */
  lemma ExactRemainder(n: U32, d: nat, mu: nat, s: nat)
    requires d >= 1 && mu * d >= Pow2(s) && (mu * d - Pow2(s)) * TWO32 <= Pow2(s)
    ensures ShiftRemainder(n, mu, s, d) == n % d
  {
    var e := mu * d - Pow2(s);
    assert e * n < Pow2(s) by {
      if e > 0 {
        MulLt(n, TWO32, e);
      }
    }
    ExactQuotient(n, d, mu, s);
    RemainderOf(n, d, (n * mu) / Pow2(s));
  }

  /** With the exact quotient q, the wrapped n - q * d is n mod d. */
  lemma RemainderOf(n: U32, d: nat, q: nat)
    requires d >= 1 && q == n / d
    ensures (n - (q * d) % TWO32) % TWO32 == n % d
  {
    var k, m := DivParts(n, d);
    assert q * d <= n < TWO32;
  }

  lemma Pow2Shifts()
    ensures Pow2(33) == 2 * TWO32 && Pow2(34) == 4 * TWO32
  {
    Pow2Values();
    assert Pow2(33) == 2 * Pow2(32);
    assert Pow2(34) == 2 * Pow2(33);
  }

  /** `fast_mod3`: n mod 3 for every 32-bit n (MU3 * 3 = 2^33 + 1). */
  function FastMod3(n: U32): (r: nat)
    ensures r == n % 3
  {
    Pow2Shifts();
    ExactRemainder(n, 3, MU3, 33);
    ShiftRemainder(n, MU3, 33, 3)
  }

  /** `fast_mod5`: n mod 5 for every 32-bit n (MU5 * 5 = 2^34 + 1). */
  function FastMod5(n: U32): (r: nat)
    ensures r == n % 5
  {
    Pow2Shifts();
    ExactRemainder(n, 5, MU5, 34);
    ShiftRemainder(n, MU5, 34, 5)
  }

  /** What the vector kernel decides for one input: it passes the residue
      test and no prime of the interleaved slots 6..15 properly divides it. */
  ghost predicate KernelPasses(v: nat)
  {
    ThirdsHit(v) && ClearIn(v, INTERLEAVED, 6, 16)
  }

  /** The kernel's decision for every input of a run. */
  ghost function KernelFlags(numbers: seq<U64>): (f: seq<bool>)
    ensures |f| == |numbers|
    ensures forall j | 0 <= j < |numbers| :: f[j] == KernelPasses(numbers[j])
  {
    seq(|numbers|, j requires 0 <= j < |numbers| => KernelPasses(numbers[j]))
  }

  /** The slots the loop from 6 skips hold 2, 23, 3, 29, 5 and 31. */
  lemma SkippedSlots()
    ensures INTERLEAVED.p[..6] == [2, 23, 3, 29, 5, 31]
  {
    InterleavedIsSequentialAt(0);
    InterleavedIsSequentialAt(1);
    InterleavedIsSequentialAt(2);
    InterleavedIsSequentialAt(3);
    InterleavedIsSequentialAt(4);
    InterleavedIsSequentialAt(5);
    SequentialValues();
  }

  /** Where the kernel and the reference part: a survivor passes exactly
      when it passes the residue test, and an input that passes without
      surviving has a proper divisor among the skipped primes 2, 3, 5, 23,
      29 and 31. */
  lemma KernelErrors(v: nat)
    ensures Survives(v) ==> (KernelPasses(v) <==> ThirdsHit(v))
    ensures KernelPasses(v) && !Survives(v) ==> !ClearIn(v, INTERLEAVED, 0, 6)
  {
    SurvivesByTable(v);
    ClearSplit(v, INTERLEAVED, 0, 6, 16);
    if v < TWO32 {
      assert v % TWO32 == v;
    }
  }

  /** w is a mask register passing exactly the inputs at off that pass the
      residue test. */
  ghost predicate HitLanes(w: U32x4, ptr: seq<U64>, off: nat)
    requires off + 4 <= |ptr|
  {
    forall i | 0 <= i < 4 :: IsMask(w[i]) && (w[i] == 0 <==> !ThirdsHit(ptr[off + i]))
  }

  /** One wheel register of `filter16_u64_wheel_optimized`: `apply_wheel`
      and, when some input of the block has high bits set, the enable
      step. */
  method WheelPass(ptr: seq<U64>, off: nat, all32: bool) returns (w: U32x4)
    requires off + 4 <= |ptr|
    requires all32 ==> forall j | off <= j < off + 4 :: ptr[j] < TWO32
    ensures HitLanes(w, ptr, off)
  {
    var n := LoadReg(ptr, off);
    var m := ThirdsMask(n);
    HitLanesOf(ptr, off, n, m);
    w := Enable(m, ptr, off, all32);
  }

  lemma HitLanesOf(ptr: seq<U64>, off: nat, n: U32x4, m: U32x4)
    requires off + 4 <= |ptr| && n == LoadReg(ptr, off)
    requires forall i | 0 <= i < 4 :: m[i] == 0 <==> !ThirdsHit(n[i])
    ensures forall i | 0 <= i < 4 && ptr[off + i] < TWO32 :: m[i] == 0 <==> !ThirdsHit(ptr[off + i])
  {
    forall i | 0 <= i < 4 && ptr[off + i] < TWO32
      ensures m[i] == 0 <==> !ThirdsHit(ptr[off + i])
    {
      NarrowedHit(n[i], ptr[off + i]);
    }
  }

  /** `sv = vandq(wheel, vceqq(m, 0))`, m the composite mask of the
      interleaved slots 6..15 gated by the wheel (each slot's Barrett
      remainder from `barrett_modq_u32_quad_interleaved`): the register
      encodes the kernel's decisions for its four inputs. */
  method KernelSurvivors(ptr: seq<U64>, off: nat, w: U32x4) returns (sv: U32x4)
    requires off + 4 <= |ptr| && HitLanes(w, ptr, off)
    ensures Encodes(sv, KernelFlags(ptr), off)
  {
    var n := LoadReg(ptr, off);
    var m := InterleavedMask(n, w, 6);
    var s := Survivors(m);
    AndMaskLanes(s, w);
    KernelLanes(ptr, off, w, n, s);
    sv := VAndq(w, s);
  }

  lemma KernelLanes(ptr: seq<U64>, off: nat, w: U32x4, n: U32x4, s: U32x4)
    requires off + 4 <= |ptr| && HitLanes(w, ptr, off) && n == LoadReg(ptr, off)
    requires |INTERLEAVED.p| == 16
    requires forall i | 0 <= i < 4 :: s[i] == if w[i] == 0 || ClearIn(n[i], INTERLEAVED, 6, 16) then ALL_ONES else 0
    ensures forall i | 0 <= i < 4 ::
      (if w[i] == ALL_ONES then s[i] else 0) == if KernelPasses(ptr[off + i]) then ALL_ONES else 0
  {
    forall i | 0 <= i < 4
      ensures (if w[i] == ALL_ONES then s[i] else 0) == if KernelPasses(ptr[off + i]) then ALL_ONES else 0
    {
      KernelLane(ptr[off + i], n[i], w[i], s[i]);
    }
  }

  lemma KernelLane(v: nat, n: nat, w: nat, s: nat)
    requires |INTERLEAVED.p| == 16 && n == v % TWO32
    requires IsMask(w) && (w == 0 <==> !ThirdsHit(v))
    requires s == if w == 0 || ClearIn(n, INTERLEAVED, 6, 16) then ALL_ONES else 0
    ensures (if w == ALL_ONES then s else 0) == if KernelPasses(v) then ALL_ONES else 0
  {
    if v < TWO32 {
      assert n == v;
    }
  }

  /** The fast exit: when the OR of the four horizontal maxima is 0, no
      input of the block passes the residue test and 0 is what the full
      path would have packed. */
  lemma NoneHit(ptr: seq<U64>, at: nat, w1: U32x4, w2: U32x4, w3: U32x4, w4: U32x4)
    requires at + 16 <= |ptr|
    requires HitLanes(w1, ptr, at) && HitLanes(w2, ptr, at + 4)
    requires HitLanes(w3, ptr, at + 8) && HitLanes(w4, ptr, at + 12)
    requires BitOr(BitOr(BitOr(VMaxvq(w1), VMaxvq(w2), 32), VMaxvq(w3), 32), VMaxvq(w4), 32) == 0
    ensures PackBits(KeepFirsts(KernelFlags(ptr)[at .. at + 16])) == 0
  {
    OrAllZero(VMaxvq(w1), VMaxvq(w2), VMaxvq(w3), VMaxvq(w4));
    NoHit(w1, ptr, at);
    NoHit(w2, ptr, at + 4);
    NoHit(w3, ptr, at + 8);
    NoHit(w4, ptr, at + 12);
    var f := KeepFirsts(KernelFlags(ptr)[at .. at + 16]);
    assert forall j | 0 <= j < 16 :: f[j] ==> KernelPasses(ptr[at + j]);
    PackNone(f);
  }

  lemma NoHit(w: U32x4, ptr: seq<U64>, off: nat)
    requires off + 4 <= |ptr| && HitLanes(w, ptr, off) && VMaxvq(w) == 0
    ensures forall j | off <= j < off + 4 :: !KernelPasses(ptr[j])
  {
    forall j | off <= j < off + 4
      ensures !KernelPasses(ptr[j])
    {
      assert w[j - off] <= VMaxvq(w);
    }
  }

  /** `filter16_u64_wheel_optimized`: the kernel's decisions for the
      sixteen inputs at `at`, of which `bitpack16_from_u32_masks` keeps bit 0
      (input at) and bit 8 (input at + 8) only. */
  method Filter16(ptr: seq<U64>, at: nat) returns (x: U16)
    requires at + 16 <= |ptr|
    ensures x == PackBits(KeepFirsts(KernelFlags(ptr)[at .. at + 16]))
  {
    var all32 := All32(ptr, at, 8);
    var w1 := WheelPass(ptr, at, all32);
    var w2 := WheelPass(ptr, at + 4, all32);
    var w3 := WheelPass(ptr, at + 8, all32);
    var w4 := WheelPass(ptr, at + 12, all32);
    if BitOr(BitOr(BitOr(VMaxvq(w1), VMaxvq(w2), 32), VMaxvq(w3), 32), VMaxvq(w4), 32) == 0 {
      NoneHit(ptr, at, w1, w2, w3, w4);
      return 0;
    }
    var sv1 := KernelSurvivors(ptr, at, w1);
    var sv2 := KernelSurvivors(ptr, at + 4, w2);
    var sv3 := KernelSurvivors(ptr, at + 8, w3);
    var sv4 := KernelSurvivors(ptr, at + 12, w4);
    SixteenFlags(sv1, sv2, sv3, sv4, KernelFlags(ptr), at);
    x := Bitpack16Shifted(sv1, sv2, sv3, sv4);
  }

  /** The prime 7 survives, but the residue test wraps its remainder to
      2^32 - 113 and rejects it: sixteen copies of 7 pack to 0 where every
      reference flag is set. */
  lemma SevensRejected(ptr: seq<U64>)
    requires ptr == [7, 7, 7, 7, 7, 7, 7, 7, 7, 7, 7, 7, 7, 7, 7, 7]
    ensures Survives(7) && !KernelPasses(7)
    ensures forall j | 0 <= j < 16 :: SurvivorFlags(ptr)[j]
    ensures PackBits(KeepFirsts(KernelFlags(ptr)[0 .. 16])) == 0
  {
    TablePrimesSurvive();
    SequentialValues();
    assert SEQUENTIAL.p[3] == 7;
    ThirdsSmall(7);
    var f := KeepFirsts(KernelFlags(ptr)[0 .. 16]);
    assert forall j | 0 <= j < 16 :: !f[j];
    PackNone(f);
  }

  /** 1130254551 is a multiple of 3, yet its wrapped remainder is 11 and no
      prime of slots 6..15 divides it: the kernel passes it. */
  lemma MultipleOf3Passes()
    ensures KernelPasses(1130254551) && !Survives(1130254551)
  {
    ThirdsPasses3();
    SequentialValues();
    assert ProperlyDivides(SEQUENTIAL.p[1], 1130254551);
    InterleavedValid();
    var v := 1130254551;
    forall j | 6 <= j < 16
      ensures !ProperlyDivides(INTERLEAVED.p[j], v)
    {
      InterleavedIsSequentialAt(j);
      assert v % 7 != 0 && v % 11 != 0 && v % 13 != 0 && v % 17 != 0 && v % 19 != 0;
      assert v % 37 != 0 && v % 41 != 0 && v % 43 != 0 && v % 47 != 0 && v % 53 != 0;
    }
  }

  /** 4068916385 is a multiple of 5, yet its wrapped remainder is 23 and no
      prime of slots 6..15 divides it: the kernel passes it too. */
  lemma MultipleOf5Passes()
    ensures ThirdsHit(4068916385) && RawRemainder(4068916385, MU30_THIRDS, 30) == 23
    ensures KernelPasses(4068916385) && !Survives(4068916385)
  {
    assert Quotient(4068916385, MU30_THIRDS) == 2712610923;
    SequentialValues();
    assert ProperlyDivides(SEQUENTIAL.p[2], 4068916385);
    InterleavedValid();
    var v := 4068916385;
    forall j | 6 <= j < 16
      ensures !ProperlyDivides(INTERLEAVED.p[j], v)
    {
      InterleavedIsSequentialAt(j);
      assert v % 7 != 0 && v % 11 != 0 && v % 13 != 0 && v % 17 != 0 && v % 19 != 0;
      assert v % 37 != 0 && v % 41 != 0 && v % 43 != 0 && v % 47 != 0 && v % 53 != 0;
    }
  }

  /** 529 = 23 * 23 is a wheel candidate (coprime to 30) and no prime of
      slots 6..15 divides it, yet it is composite: behind a residue test
      that passes the wheel candidates, starting at slot 6 lets it through.
      The residue test as written rejects 529 itself, so as written the gap
      is latent: it shows once the residue test is repaired. */
  lemma Square23Uncovered()
    ensures Wheel.WheelCandidate(529) && ClearIn(529, INTERLEAVED, 6, 16) && !Survives(529)
    ensures !ThirdsHit(529) && !KernelPasses(529)
  {
    assert !ThirdsHit(529) by {
      assert Quotient(529, MU30_THIRDS) == 352;
      assert RawRemainder(529, MU30_THIRDS, 30) == TWO32 - 10031;
    }
    SequentialValues();
    assert ProperlyDivides(SEQUENTIAL.p[8], 529);
    InterleavedValid();
    forall j | 6 <= j < 16
      ensures !ProperlyDivides(INTERLEAVED.p[j], 529)
    {
      InterleavedIsSequentialAt(j);
    }
  }

  /** The vector kernel repaired: the residue test of `neon_wheel` (the
      floor constant for 30, the corrective subtract and the 2/3/5
      exemption), the trial divisions over every interleaved slot, and the
      movemask that reads bit 7 of each byte. It packs the reference
      outcomes of its sixteen inputs. */
  method CorrectedFilter16(ptr: seq<U64>, at: nat) returns (x: U16)
    requires at + 16 <= |ptr|
    ensures x == PackBits(SurvivorFlags(ptr)[at .. at + 16])
  {
    var all32 := All32(ptr, at, 8);
    var w1 := Wheel.WheelPass(ptr, at, all32);
    var w2 := Wheel.WheelPass(ptr, at + 4, all32);
    var w3 := Wheel.WheelPass(ptr, at + 8, all32);
    var w4 := Wheel.WheelPass(ptr, at + 12, all32);
    if BitOr(BitOr(BitOr(VMaxvq(w1), VMaxvq(w2), 32), VMaxvq(w3), 32), VMaxvq(w4), 32) == 0 {
      Wheel.NoneSurvive(ptr, at, w1, w2, w3, w4);
      return 0;
    }
    var sv1 := CorrectedSurvivors(ptr, at, w1);
    var sv2 := CorrectedSurvivors(ptr, at + 4, w2);
    var sv3 := CorrectedSurvivors(ptr, at + 8, w3);
    var sv4 := CorrectedSurvivors(ptr, at + 12, w4);
    SixteenFlags(sv1, sv2, sv3, sv4, SurvivorFlags(ptr), at);
    x := Bitpack16Masks(sv1, sv2, sv3, sv4);
  }

  /** The survivors of the repaired kernel: the wheel register ANDed with
      the composite mask over all sixteen interleaved slots. */
  method CorrectedSurvivors(ptr: seq<U64>, off: nat, w: U32x4) returns (sv: U32x4)
    requires off + 4 <= |ptr| && Wheel.WheelLanes(w, ptr, off)
    ensures Encodes(sv, SurvivorFlags(ptr), off)
  {
    var n := LoadReg(ptr, off);
    var m := InterleavedMask(n, w, 0);
    var s := Survivors(m);
    CorrectedLanes(ptr, off, w, n, m, s);
    sv := VAndq(w, s);
  }

  /** The composite mask over the interleaved slots lo..15, gated by the
      wheel register. */
  method InterleavedMask(n: U32x4, w: U32x4, lo: nat) returns (m: U32x4)
    requires lo <= 16 && forall i | 0 <= i < 4 :: IsMask(w[i])
    ensures |INTERLEAVED.p| == 16
    ensures forall i | 0 <= i < 4 :: IsMask(m[i]) && (m[i] == 0 <==> w[i] == 0 || ClearIn(n[i], INTERLEAVED, lo, 16))
  {
    InterleavedValid();
    m := GatedMask(n, w, INTERLEAVED, lo, 16);
  }

  lemma CorrectedLanes(ptr: seq<U64>, off: nat, w: U32x4, n: U32x4, m: U32x4, s: U32x4)
    requires off + 4 <= |ptr| && Wheel.WheelLanes(w, ptr, off) && n == LoadReg(ptr, off)
    requires |INTERLEAVED.p| == 16 && s == Survivors(m)
    requires forall i | 0 <= i < 4 :: IsMask(m[i]) && (m[i] == 0 <==> w[i] == 0 || ClearIn(n[i], INTERLEAVED, 0, 16))
    ensures Encodes(VAndq(w, s), SurvivorFlags(ptr), off)
  {
    AndMaskLanes(s, w);
    forall i | 0 <= i < 4
      ensures VAndq(w, s)[i] == if Survives(ptr[off + i]) then ALL_ONES else 0
    {
      CorrectedLane(ptr[off + i], n[i], w[i], s[i]);
    }
  }

  lemma CorrectedLane(v: nat, n: nat, w: nat, s: nat)
    requires |INTERLEAVED.p| == 16 && n == v % TWO32
    requires IsMask(w) && (w == 0 <==> !Wheel.WheelCandidate(v))
    requires s == if w == 0 || ClearIn(n, INTERLEAVED, 0, 16) then ALL_ONES else 0
    ensures (if w == ALL_ONES then s else 0) == if Survives(v) then ALL_ONES else 0
  {
    SurvivesByTable(v);
    SurvivesByWheel30(v);
  }

  /** One input of the scalar parts: the 32-bit check, the tests
      `(n & 1) == 0`, `fast_mod3(n) == 0` and `fast_mod5(n) == 0`, each
      exempting the prime itself, then the trial divisions from slot 3 on.
      The input is tried exactly when it is a wheel candidate, and the
      outcome is the reference outcome. */
  method ScalarLane(v: U64) returns (tried: bool, ok: bool)
    ensures tried <==> Wheel.WheelCandidate(v)
    ensures ok <==> Survives(v)
    ensures ok ==> tried
  {
    SurvivesByWheel30(v);
    if v > 0xFFFF_FFFF {
      return false, false;
    }
    var low := LowBit(v);
    var m3 := FastMod3(v);
    var m5 := FastMod5(v);
    SkipTest(v, low, m3, m5);
    if (low == 0 && v != 2) || (m3 == 0 && v != 3) || (m5 == 0 && v != 5) {
      return false, false;
    }
    tried := true;
    ok := TrialTail(v, 3);
  }

  lemma SkipTest(v: U32, low: nat, m3: nat, m5: nat)
    requires low == v % 2 && m3 == v % 3 && m5 == v % 5
    ensures (low == 0 && v != 2) || (m3 == 0 && v != 3) || (m5 == 0 && v != 5) <==> !Wheel.WheelCandidate(v)
  {
  }

  /** `n & 1` on a 32-bit input: its parity. */
  function LowBit(v: U32): (b: nat)
    ensures b == v % 2
  {
    Pow2Values();
    AndLowBit(v, 32);
    BitAnd(v, 1, 32)
  }

  /** The scalar block of eight: a fresh byte with bit k set when input
      base + k survives. */
  method ScalarByte(numbers: seq<U64>, base: nat) returns (x: U8)
    requires base + 8 <= |numbers|
    ensures x == PackBits(SurvivorFlags(numbers)[base .. base + 8])
  {
    ghost var f := SurvivorFlags(numbers);
    ghost var g: seq<bool> := [];
    x := 0;
    var bit := 0;
    while bit < 8
      invariant bit <= 8 && g == f[base .. base + bit] && x == PackBits(g)
    {
      SliceExtend(f, base, base + bit);
      x := ScalarStep(g, bit, numbers[base + bit], f[base + bit], x);
      g := g + [f[base + bit]];
      bit := bit + 1;
    }
  }

  /** One input of the scalar block: its outcome `on` joins the packed
      run g at bit |g|. */
  method ScalarStep(ghost g: seq<bool>, bit: nat, v: U64, ghost on: bool, x: U8) returns (y: U8)
    requires |g| == bit < 8 && x == PackBits(g) && on == Survives(v)
    ensures y == PackBits(g + [on])
  {
    var _, ok := ScalarLane(v);
    y := OrBit(x, g, bit, ok);
  }

  /** The flags of the final tail inputs base .. count over the prior byte:
      the outcome of a wheel candidate, and the prior bit for any other
      input. */
  ghost function TailBits(numbers: seq<U64>, base: nat, count: nat, prior: U8): (g: seq<bool>)
    requires base <= count <= |numbers|
    ensures |g| == count - base
    ensures forall j | 0 <= j < count - base ::
      g[j] == if Wheel.WheelCandidate(numbers[base + j]) then Survives(numbers[base + j]) else Bit(prior, j) == 1
  {
    seq(count - base, j requires 0 <= j < count - base =>
      if Wheel.WheelCandidate(numbers[base + j]) then Survives(numbers[base + j]) else Bit(prior, j) == 1)
  }

  /** The final tail: a tried input sets its bit of `mask` and, if it
      survives, of `last`; a skipped one sets neither; the byte becomes
      `(prior & ~mask) | (last & mask)`. */
  method FinalTail(numbers: seq<U64>, count: nat, base: nat, prior: U8) returns (b: U8)
    requires base < count <= |numbers| && count < base + 8
    ensures b == Blend(TailBits(numbers, base, count, prior), prior)
  {
    var last: U8 := 0;
    var mask: U8 := 0;
    var i := base;
    var bit := 0;
    forall j | 0 <= j < 8
      ensures Bit(0, j) == 0
    {
      BitAbove(0, 0, j);
    }
    while i < count
      invariant base <= i <= count && bit == i - base
      invariant forall j | 0 <= j < 8 ::
        Bit(mask, j) == if j < bit && Wheel.WheelCandidate(numbers[base + j]) then 1 else 0
      invariant forall j | 0 <= j < 8 :: Bit(last, j) == if j < bit && Survives(numbers[base + j]) then 1 else 0
    {
      var tried, ok := ScalarLane(numbers[i]);
      if tried {
        if ok {
          last := SetBit(last, bit, true);
        }
        mask := SetBit(mask, bit, true);
      }
      i := i + 1;
      bit := bit + 1;
    }
    MergeBlend(prior, TailBits(numbers, base, count, prior), last, mask);
    b := MergeByte(prior, mask, last);
  }

  /** The flag the stream writes for input j < count over the buffer
      bitmap: below V, count rounded down to a multiple of 16, the kernel's
      decision of every eighth input and nothing for the others; from V to
      E, count rounded down to a multiple of 8, the reference outcome; from
      E on the outcome of a wheel candidate and the prior bit of any other
      input. */
  ghost predicate StreamFlag(numbers: seq<U64>, count: nat, bitmap: seq<U8>, j: nat)
    requires j < count <= |numbers| && Bytes(count) <= |bitmap|
  {
    if j < count - count % 16 then j % 8 == 0 && KernelPasses(numbers[j])
    else if j < count - count % 8 || Wheel.WheelCandidate(numbers[j]) then Survives(numbers[j])
    else Bit(bitmap[j / 8], j % 8) == 1
  }

  ghost function StreamFlags(numbers: seq<U64>, count: nat, bitmap: seq<U8>): (g: seq<bool>)
    requires count <= |numbers| && Bytes(count) <= |bitmap|
    ensures |g| == count
    ensures forall j | 0 <= j < count :: g[j] == StreamFlag(numbers, count, bitmap, j)
  {
    seq(count, j requires 0 <= j < count => StreamFlag(numbers, count, bitmap, j))
  }

  /** `filter_stream_u64_wheel_optimized`: 32-input words, one 16-input
      word, one scalar byte of eight, then the final tail merged into the
      partial last byte. The first count bits of the bitmap are
      StreamFlags, the high bits of a partial last byte keep their prior
      contents, and later bytes are not written. */
  method BitmapStream(numbers: seq<U64>, count: nat, bitmap: seq<U8>) returns (bm: seq<U8>)
    requires count <= |numbers| && Bytes(count) <= |bitmap|
    ensures BitsDone(bm, bitmap, StreamFlags(numbers, count, bitmap), count)
  {
    ghost var g := StreamFlags(numbers, count, bitmap);
    var i, byte;
    bm, i, byte := VectorPart(numbers, count, bitmap);
    EightEnd(count);
    if i + 8 <= count {
      var x := ScalarByte(numbers, i);
      BlockSlice(numbers, count, bitmap, i, byte);
      bm := WriteByte(bm, bitmap, g, byte, x);
      i := i + 8;
      byte := byte + 1;
    }
    StartBits(bm, bitmap, g, byte);
    if i < count {
      TailSlice(numbers, count, bitmap, byte);
      var t := FinalTail(numbers, count, i, bm[byte]);
      bm := WriteTail(bm, bitmap, g, byte, t);
    }
  }

  /** The scalar block holds the reference outcomes, and it ends at count
      rounded down to a multiple of 8. */
  lemma BlockSlice(numbers: seq<U64>, count: nat, bitmap: seq<U8>, i: nat, byte: nat)
    requires count <= |numbers| && Bytes(count) <= |bitmap|
    requires i == count - count % 16 && i == 8 * byte && i + 8 <= count
    ensures byte < Bytes(count)
    ensures ByteOf(StreamFlags(numbers, count, bitmap), byte) == PackBits(SurvivorFlags(numbers)[i .. i + 8])
  {
    EightEnd(count);
    var g := StreamFlags(numbers, count, bitmap);
    assert g[i .. i + 8] == SurvivorFlags(numbers)[i .. i + 8];
  }

  /** The final tail's flags are the stream's flags from count rounded down
      to a multiple of 8. */
  lemma TailSlice(numbers: seq<U64>, count: nat, bitmap: seq<U8>, byte: nat)
    requires count <= |numbers| && Bytes(count) <= |bitmap|
    requires 8 * byte == count - count % 8 < count
    ensures byte < |bitmap|
    ensures StreamFlags(numbers, count, bitmap)[8 * byte .. count] == TailBits(numbers, 8 * byte, count, bitmap[byte])
  {
    EightEnd(count);
    var g := StreamFlags(numbers, count, bitmap)[8 * byte .. count];
    var t := TailBits(numbers, 8 * byte, count, bitmap[byte]);
    forall j | 0 <= j < count - 8 * byte
      ensures g[j] == t[j]
    {
      assert (8 * byte + j) / 8 == byte && (8 * byte + j) % 8 == j;
    }
  }

  /** The vector part of the stream: 32-input words while 32 inputs remain,
      then one 16-input word if 16 do. It ends at count rounded down to a
      multiple of 16, with every byte before it written. */
  method VectorPart(numbers: seq<U64>, count: nat, bitmap: seq<U8>) returns (bm: seq<U8>, i: nat, byte: nat)
    requires count <= |numbers| && Bytes(count) <= |bitmap|
    ensures i == count - count % 16 && i == 8 * byte
    ensures BytesDone(bm, bitmap, StreamFlags(numbers, count, bitmap), byte)
  {
    bm := bitmap;
    i := 0;
    byte := 0;
    ghost var h := 0;
    while i + 32 <= count
      invariant i <= count && i == 8 * byte && i == 16 * h
      invariant BytesDone(bm, bitmap, StreamFlags(numbers, count, bitmap), byte)
    {
      InVector(count, h, 2);
      bm := PutWords(numbers, count, bitmap, bm, byte, 4);
      i := i + 32;
      byte := byte + 4;
      h := h + 2;
    }
    if i + 16 <= count {
      InVector(count, h, 1);
      bm := PutWords(numbers, count, bitmap, bm, byte, 2);
      i := i + 16;
      byte := byte + 2;
      h := h + 1;
    }
    TailStart(count, h);
  }

  /** The next k bytes of the vector part, k = 4 for a 32-input word
      (`b0 | (uint32_t(b1) << 16)`) and k = 2 for a 16-input one, stored
      with `memcpy` after the bytes already written. */
  method PutWords(numbers: seq<U64>, count: nat, ghost bitmap: seq<U8>, bm: seq<U8>, byte: nat, k: nat)
    returns (r: seq<U8>)
    requires count <= |numbers| && Bytes(count) <= |bitmap| && (k == 2 || k == 4)
    requires 8 * byte + 8 * k <= count - count % 16
    requires BytesDone(bm, bitmap, StreamFlags(numbers, count, bitmap), byte)
    ensures BytesDone(r, bitmap, StreamFlags(numbers, count, bitmap), byte + k)
  {
    ghost var g := StreamFlags(numbers, count, bitmap);
    assert 8 * byte + 8 * k <= |g| && byte + k <= |bm|;
    var x: nat;
    if k == 4 {
      x := Word32(numbers, count, bitmap, 8 * byte, byte);
    } else {
      x := Word16(numbers, count, bitmap, 8 * byte, byte);
    }
    r := WriteWord(bm, bitmap, g, byte, k, x);
  }

  /** Two kernels at i inside the vector part: the stream flags of their
      32 inputs. */
  method Word32(numbers: seq<U64>, count: nat, ghost bitmap: seq<U8>, i: nat, ghost byte: nat) returns (word: U32)
    requires count <= |numbers| && Bytes(count) <= |bitmap|
    requires i == 8 * byte && i + 32 <= count - count % 16
    ensures word == PackBits(StreamFlags(numbers, count, bitmap)[i .. i + 32])
  {
    var b0 := Filter16(numbers, i);
    var b1 := Filter16(numbers, i + 16);
    word := Pack32(b0, b1);
    KeptSlice(numbers, count, bitmap, i, 16, byte);
    KeptSlice(numbers, count, bitmap, i + 16, 16, byte + 2);
    PackWord32(StreamFlags(numbers, count, bitmap), i, b0, b1, word);
  }

  /** The kernel at i inside the vector part: the stream flags of its 16
      inputs. */
  method Word16(numbers: seq<U64>, count: nat, ghost bitmap: seq<U8>, i: nat, ghost byte: nat) returns (b: U16)
    requires count <= |numbers| && Bytes(count) <= |bitmap|
    requires i == 8 * byte && i + 16 <= count - count % 16
    ensures b == PackBits(StreamFlags(numbers, count, bitmap)[i .. i + 16])
  {
    b := Filter16(numbers, i);
    KeptSlice(numbers, count, bitmap, i, 16, byte);
  }

  /** A run of n inputs from input 8 * byte, wholly inside the vector part,
      carries the flags the kernel keeps. */
  lemma KeptSlice(numbers: seq<U64>, count: nat, bitmap: seq<U8>, i: nat, n: nat, byte: nat)
    requires count <= |numbers| && Bytes(count) <= |bitmap|
    requires i == 8 * byte && i + n <= count - count % 16
    ensures StreamFlags(numbers, count, bitmap)[i .. i + n] == KeepFirsts(KernelFlags(numbers)[i .. i + n])
  {
    var g := StreamFlags(numbers, count, bitmap)[i .. i + n];
    var f := KernelFlags(numbers)[i .. i + n];
    var e := KeepFirsts(f);
    forall j | 0 <= j < n
      ensures g[j] == e[j]
    {
      assert g[j] == StreamFlags(numbers, count, bitmap)[i + j];
      assert e[j] == (j % 8 == 0 && f[j]);
      assert f[j] == KernelPasses(numbers[i + j]);
      KeptFlag(numbers, count, bitmap, i + j, j, byte);
    }
  }

  /** Input k = 8 * byte + j of the vector part: its stream flag is the
      kernel's decision when j is a multiple of 8, and clear otherwise. */
  lemma KeptFlag(numbers: seq<U64>, count: nat, bitmap: seq<U8>, k: nat, j: nat, byte: nat)
    requires count <= |numbers| && Bytes(count) <= |bitmap|
    requires k == 8 * byte + j && k < count - count % 16
    ensures StreamFlag(numbers, count, bitmap, k) == (j % 8 == 0 && KernelPasses(numbers[k]))
  {
    EightAligned(byte, j);
  }

  /** What a set bit of the finished bitmap says. From V (count rounded
      down to a multiple of 16) on, a set bit belongs to a surviving input
      unless it is the prior bit of an input the final tail skipped, and
      the bit of a wheel candidate or of an input of the scalar block is its
      reference outcome. Below V only every eighth bit can be set, and it is
      the kernel's decision. */
  lemma StreamSound(numbers: seq<U64>, count: nat, bitmap: seq<U8>, bm: seq<U8>, i: nat)
    requires count <= |numbers| && Bytes(count) <= |bitmap| && i < count
    requires BitsDone(bm, bitmap, StreamFlags(numbers, count, bitmap), count)
    ensures i / 8 < |bm| && i / 8 < |bitmap|
    ensures count - count % 16 <= i && BitAt(bm, i) == 1 ==>
      Survives(numbers[i]) || (count - count % 8 <= i && !Wheel.WheelCandidate(numbers[i]) && BitAt(bitmap, i) == 1)
    ensures count - count % 16 <= i && (i < count - count % 8 || Wheel.WheelCandidate(numbers[i])) ==>
      (BitAt(bm, i) == 1 <==> Survives(numbers[i]))
    ensures i < count - count % 16 ==> (BitAt(bm, i) == 1 <==> i % 8 == 0 && KernelPasses(numbers[i]))
  {
    ReadBits(bm, bitmap, StreamFlags(numbers, count, bitmap), i);
  }

  /** 4 is no survivor, yet over a prior byte 0xFF a one-input stream
      leaves its bit set: the tail skips 4, an even number, without setting
      its mask bit, so the merge keeps the prior bit. */
  lemma StaleTailBit(bm: seq<U8>)
    requires BitsDone(bm, [0xFF], StreamFlags([4], 1, [0xFF]), 1)
    ensures !Survives(4) && BitAt(bm, 0) == 1
  {
    SequentialValues();
    assert ProperlyDivides(SEQUENTIAL.p[0], 4);
    assert !Wheel.WheelCandidate(4);
    assert Bit(0xFF, 0) == 1;
    assert StreamFlags([4], 1, [0xFF])[0];
    ReadBits(bm, [0xFF], StreamFlags([4], 1, [0xFF]), 0);
  }
}
