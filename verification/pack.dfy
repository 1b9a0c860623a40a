/** Turning survivor masks into output: one byte per lane, one bit per
    lane, and the little-endian byte layout `memcpy` gives a packed word.

    A bitmap is described by the sequence of per-input flags it encodes:
    bit j of the bitmap is flag j, bit 0 of each byte first. */
module Pack {
  import opened Bits
  import opened Neon

  function BoolBit(b: bool): (x: nat)
    ensures x <= 1 && (x == 1 <==> b)
  {
    if b then 1 else 0
  }

  /** The flags packed least significant bit first. */
  function PackBits(f: seq<bool>): (x: nat)
    ensures x < Pow2(|f|)
  {
    if |f| == 0 then 0
    else
      var k := |f| - 1;
      var lo := PackBits(f[..k]);
      assert lo + Pow2(k) * BoolBit(f[k]) < Pow2(k + 1) by {
        assert Pow2(k + 1) == 2 * Pow2(k);
      }
      lo + Pow2(k) * BoolBit(f[k])
  }

  /** Bit j of a packed word is flag j; there are no bits above the flags. */
  lemma {:induction false} BitOfPackBits(f: seq<bool>, j: nat)
    ensures Bit(PackBits(f), j) == if j < |f| && f[j] then 1 else 0
  {
    if |f| == 0 {
      BitAbove(0, 0, j);
    } else {
      var k := |f| - 1;
      var lo := PackBits(f[..k]);
      var b := BoolBit(f[k]);
      assert PackBits(f) == lo + b * Pow2(k);
      BitOfConcat(lo, b, k, j);
      if j < k {
        BitOfPackBits(f[..k], j);
        assert f[..k][j] == f[j];
      } else if j > k {
        BitAbove(b, 1, j - k);
      }
    }
  }

  /** Packing a concatenation places the second part above the first. */
  lemma {:induction false} PackBitsAppend(a: seq<bool>, b: seq<bool>)
    ensures PackBits(a + b) == PackBits(a) + Pow2(|a|) * PackBits(b)
    decreases |b|
  {
    if |b| == 0 {
      assert a + b == a;
    } else {
      var k := |b| - 1;
      assert (a + b)[..|a| + k] == a + b[..k];
      assert (a + b)[|a| + k] == b[k];
      PackBitsAppend(a, b[..k]);
      Pow2Add(|a|, k);
      var x := BoolBit(b[k]);
      assert PackBits(a + b) == PackBits(a + b[..k]) + Pow2(|a| + k) * x;
      assert PackBits(b) == PackBits(b[..k]) + Pow2(k) * x;
      AppendStep(PackBits(a), PackBits(b[..k]), x, Pow2(|a|), Pow2(k));
    }
  }

  /** The arithmetic of one PackBitsAppend step. */
  lemma AppendStep(pa: nat, lo: nat, x: nat, p: nat, q: nat)
    ensures pa + p * lo + (p * q) * x == pa + p * (lo + q * x)
  {
    assert p * (lo + q * x) == p * lo + p * (q * x);
  }

  /** The flags of two survivor registers, lanes of the first one first. */
  function MaskFlags(sv1: U32x4, sv2: U32x4): (f: seq<bool>)
    ensures |f| == 8
    ensures forall j | 0 <= j < 4 :: f[j] == (sv1[j] == ALL_ONES) && f[j + 4] == (sv2[j] == ALL_ONES)
  {
    [sv1[0] == ALL_ONES, sv1[1] == ALL_ONES, sv1[2] == ALL_ONES, sv1[3] == ALL_ONES,
     sv2[0] == ALL_ONES, sv2[1] == ALL_ONES, sv2[2] == ALL_ONES, sv2[3] == ALL_ONES]
  }

  predicate MaskReg(sv: U32x4)
  {
    forall i | 0 <= i < 4 :: IsMask(sv[i])
  }

  /** `vmovn_u16(vcombine_u16(vmovn_u32(sv1), vmovn_u32(sv2)))`: a mask
      lane narrows to a 0xFF or 0x00 byte. */
  function NarrowMasks(sv1: U32x4, sv2: U32x4): (b: U8x8)
    requires MaskReg(sv1) && MaskReg(sv2)
    ensures forall j | 0 <= j < 8 :: b[j] == if MaskFlags(sv1, sv2)[j] then 0xFF else 0
  {
    VMovn16(VCombine16(VMovn32(sv1), VMovn32(sv2)))
  }

  /** `bytes_from_u32_mask`: one byte per lane, 1 for a survivor. */
  function BytesFromMask(sv1: U32x4, sv2: U32x4): (b: U8x8)
    requires MaskReg(sv1) && MaskReg(sv2)
    ensures forall j | 0 <= j < 8 :: b[j] == BoolBit(MaskFlags(sv1, sv2)[j])
  {
    VShr8By7(NarrowMasks(sv1, sv2))
  }

  const WEIGHTS: U8x8 := [1, 2, 4, 8, 16, 32, 64, 128]

  /** An 8-flag word as the sum of its weighted flags. */
  lemma PackBits8(f: seq<bool>)
    requires |f| == 8
    ensures PackBits(f) == BoolBit(f[0]) + 2 * BoolBit(f[1]) + 4 * BoolBit(f[2]) + 8 * BoolBit(f[3])
      + 16 * BoolBit(f[4]) + 32 * BoolBit(f[5]) + 64 * BoolBit(f[6]) + 128 * BoolBit(f[7])
  {
    assert f[..0] == [];
    PackPrefix(f, 0, 1);
    PackPrefix(f, 1, 2);
    PackPrefix(f, 2, 4);
    PackPrefix(f, 3, 8);
    PackPrefix(f, 4, 16);
    PackPrefix(f, 5, 32);
    PackPrefix(f, 6, 64);
    PackPrefix(f, 7, 128);
    assert f[..8] == f;
  }

  /** One more flag on a packed prefix: weight w is 2^k. */
  lemma PackPrefix(f: seq<bool>, k: nat, w: nat)
    requires k < |f| && w == Pow2(k)
    ensures PackBits(f[..k + 1]) == PackBits(f[..k]) + w * BoolBit(f[k])
  {
    assert f[..k + 1][..k] == f[..k];
  }

  /** A weight times a flag's bit: the weight if the flag is set, else 0. */
  lemma Weighted(w: nat, b: bool)
    ensures w * BoolBit(b) == if b then w else 0
  {
  }

  /** AND with an all-ones or all-zeros byte keeps or clears a weight. */
  lemma And8Masks(w: U8)
    ensures And8(0xFF, w) == w && And8(0, w) == 0
  {
    Pow2Values();
    OnesAlgebra(w, 8);
  }

  /** `bitpack_from_u32_mask`: AND each narrowed lane with its bit weight,
      then add the eight bytes. */
  function BitpackFromMask(sv1: U32x4, sv2: U32x4): (x: U8)
    requires MaskReg(sv1) && MaskReg(sv2)
    ensures x == PackBits(MaskFlags(sv1, sv2))
  {
    var b := NarrowMasks(sv1, sv2);
    var t := VAnd8(b, WEIGHTS);
    WeightedLanes(b, t, MaskFlags(sv1, sv2));
    WeightedSum(t, MaskFlags(sv1, sv2));
    VAddv8(t)
  }

  lemma WeightedLanes(b: U8x8, t: U8x8, f: seq<bool>)
    requires |f| == 8 && t == VAnd8(b, WEIGHTS)
    requires forall j | 0 <= j < 8 :: b[j] == if f[j] then 0xFF else 0
    ensures forall j | 0 <= j < 8 :: t[j] == if f[j] then WEIGHTS[j] else 0
  {
    forall j | 0 <= j < 8
      ensures t[j] == if f[j] then WEIGHTS[j] else 0
    {
      And8Masks(WEIGHTS[j]);
    }
  }

  /** The weighted flags add up to the packed word, without wrapping. */
  lemma WeightedSum(t: U8x8, f: seq<bool>)
    requires |f| == 8
    requires forall j | 0 <= j < 8 :: t[j] == if f[j] then WEIGHTS[j] else 0
    ensures VAddv8(t) == PackBits(f)
  {
    PackBits8(f);
    WeightedBits(t[0], t[1], t[2], t[3], t[4], t[5], t[6], t[7], f[0], f[1], f[2], f[3], f[4], f[5], f[6], f[7]);
  }

  lemma WeightedBits(t0: nat, t1: nat, t2: nat, t3: nat, t4: nat, t5: nat, t6: nat, t7: nat,
                     f0: bool, f1: bool, f2: bool, f3: bool, f4: bool, f5: bool, f6: bool, f7: bool)
    requires t0 == (if f0 then 1 else 0) && t1 == (if f1 then 2 else 0)
    requires t2 == (if f2 then 4 else 0) && t3 == (if f3 then 8 else 0)
    requires t4 == (if f4 then 16 else 0) && t5 == (if f5 then 32 else 0)
    requires t6 == (if f6 then 64 else 0) && t7 == (if f7 then 128 else 0)
    ensures (t0 + t1 + t2 + t3 + t4 + t5 + t6 + t7) % TWO8 == BoolBit(f0) + 2 * BoolBit(f1) + 4 * BoolBit(f2)
      + 8 * BoolBit(f3) + 16 * BoolBit(f4) + 32 * BoolBit(f5) + 64 * BoolBit(f6) + 128 * BoolBit(f7)
  {
  }

  /** OR of a value with a second one shifted above it is their sum. */
  lemma OrDisjoint(lo: nat, hi: nat, k: nat, width: nat)
    requires lo < Pow2(k) && lo + hi * Pow2(k) < Pow2(width)
    ensures BitOr(lo, hi * Pow2(k), width) == lo + hi * Pow2(k)
  {
    var x := BitOr(lo, hi * Pow2(k), width);
    var y := lo + hi * Pow2(k);
    BitOrBound(lo, hi * Pow2(k), width);
    forall j | 0 <= j < width
      ensures Bit(x, j) == Bit(y, j)
    {
      BitOfOr(lo, hi * Pow2(k), width, j);
      BitOfConcat(0, hi, k, j);
      BitOfConcat(lo, hi, k, j);
      if j < k {
        BitAbove(0, 0, j);
      } else {
        BitAbove(lo, k, j);
      }
    }
    BitsEqual(x, y, width);
  }

  /** The eight `mask |= (b[k] & 0x80) ? 1 << k : 0` steps of the MSB
      movemask, the first k of them. */
  function MoveMaskSteps(b: U8x8, k: nat): (mask: nat)
    requires k <= 8
    ensures mask < Pow2(k)
  {
    if k == 0 then 0
    else
      var prev := MoveMaskSteps(b, k - 1);
      var bit := if And8(b[k - 1], 0x80) != 0 then Pow2(k - 1) else 0;
      OrStep(prev, bit, k - 1);
      BitOr(prev, bit, 8)
  }

  lemma OrStep(prev: nat, bit: nat, k: nat)
    requires k < 8 && prev < Pow2(k) && (bit == 0 || bit == Pow2(k))
    ensures BitOr(prev, bit, 8) == prev + bit && prev + bit < Pow2(k + 1)
  {
    Pow2Values();
    Pow2Monotone(k + 1, 8);
    assert Pow2(k + 1) == 2 * Pow2(k);
    OrDisjoint(prev, if bit == 0 then 0 else 1, k, 8);
  }

  /** On narrowed masks the first k steps pack the first k flags. */
  lemma {:induction false} MoveMaskStepsPacks(sv1: U32x4, sv2: U32x4, k: nat)
    requires MaskReg(sv1) && MaskReg(sv2) && k <= 8
    ensures MoveMaskSteps(NarrowMasks(sv1, sv2), k) == PackBits(MaskFlags(sv1, sv2)[..k])
  {
    if k > 0 {
      var b := NarrowMasks(sv1, sv2);
      var f := MaskFlags(sv1, sv2);
      MoveMaskStepsPacks(sv1, sv2, k - 1);
      var prev := MoveMaskSteps(b, k - 1);
      var w := Pow2(k - 1);
      var bit := if And8(b[k - 1], 0x80) != 0 then w else 0;
      OrStep(prev, bit, k - 1);
      And8Masks(0x80);
      PackPrefix(f, k - 1, w);
      Weighted(w, f[k - 1]);
      assert bit == if f[k - 1] then w else 0;
    }
  }

  /** `movemask8_from_u32` as written in simd_wheel.cpp: the most
      significant bit of each narrowed lane, lane k to bit k. */
  function MoveMask8(sv1: U32x4, sv2: U32x4): (x: U8)
    requires MaskReg(sv1) && MaskReg(sv2)
    ensures x == PackBits(MaskFlags(sv1, sv2))
  {
    MoveMaskStepsPacks(sv1, sv2, 8);
    assert MaskFlags(sv1, sv2)[..8] == MaskFlags(sv1, sv2);
    Pow2Values();
    MoveMaskSteps(NarrowMasks(sv1, sv2), 8)
  }

  /** `movemask8_from_u32` as written in simd_ultra_fast.cpp,
      simd_wheel210.cpp, simd_wheel210_efficient.cpp and simd_optimized.cpp:
      the lanes are shifted down to 0/1 before being ANDed with the weights,
      and the three pairwise adds then sum the eight bytes. */
  function MoveMask8Shifted(sv1: U32x4, sv2: U32x4): (x: U8)
    requires MaskReg(sv1) && MaskReg(sv2)
    ensures x == PackBits(MaskFlags(sv1, sv2)[..1])
  {
    var b := NarrowMasks(sv1, sv2);
    var t := VAnd8(VShr8By7(b), WEIGHTS);
    ShiftedWeights(b, t, MaskFlags(sv1, sv2));
    var t1 := VPadd8(t, t);
    var t2 := VPadd8(t1, t1);
    var t3 := VPadd8(t2, t2);
    PairwiseFirstLane(t, t1, t2, t3);
    PackFirst(MaskFlags(sv1, sv2));
    t3[0]
  }

  /** The word of the first flag alone is that flag's bit. */
  lemma PackFirst(f: seq<bool>)
    requires |f| >= 1
    ensures PackBits(f[..1]) == BoolBit(f[0])
  {
    assert f[..1][..0] == [];
    assert Pow2(0) == 1;
  }

  /** When only lane 0 is non-zero, three rounds of `vpadd_u8(t, t)` leave
      it in lane 0. */
  lemma PairwiseFirstLane(t: U8x8, t1: U8x8, t2: U8x8, t3: U8x8)
    requires t1 == VPadd8(t, t) && t2 == VPadd8(t1, t1) && t3 == VPadd8(t2, t2)
    requires forall j | 1 <= j < 8 :: t[j] == 0
    ensures t3[0] == t[0]
  {
    PairwiseRound(t, t1);
    PairwiseRound(t1, t2);
    PairwiseRound(t2, t3);
  }

  /** One round of `vpadd_u8(t, t)`: lane i of the result is lanes 2i and
      2i + 1 of t added, so zero pairs give zero lanes. */
  lemma PairwiseRound(t: U8x8, r: U8x8)
    requires r == VPadd8(t, t)
    ensures t[1] == 0 ==> r[0] == t[0]
    ensures t[2] == 0 && t[3] == 0 ==> r[1] == 0
    ensures t[4] == 0 && t[5] == 0 && t[6] == 0 && t[7] == 0 ==> r[2] == 0 && r[3] == 0
  {
    assert r[0] == (t[0] + t[1]) % TWO8;
    assert r[1] == (t[2] + t[3]) % TWO8;
    assert r[2] == (t[4] + t[5]) % TWO8;
    assert r[3] == (t[6] + t[7]) % TWO8;
  }

  /** A 0/1 byte ANDed with weight 2^j survives only for j = 0. */
  lemma ShiftedWeights(b: U8x8, t: U8x8, f: seq<bool>)
    requires |f| == 8 && t == VAnd8(VShr8By7(b), WEIGHTS)
    requires forall j | 0 <= j < 8 :: b[j] == if f[j] then 0xFF else 0
    ensures t[0] == BoolBit(f[0])
    ensures forall j | 1 <= j < 8 :: t[j] == 0
  {
    forall j | 0 <= j < 8
      ensures t[j] == if j == 0 then BoolBit(f[0]) else 0
    {
      var s := VShr8By7(b)[j];
      assert s == BoolBit(f[j]);
      assert t[j] == And8(s, WEIGHTS[j]);
      WeightParity(j);
      And8Masks(WEIGHTS[j]);
      AndOne(WEIGHTS[j], 8);
    }
  }

  /** Only the first weight is odd. */
  lemma WeightParity(j: nat)
    requires j < 8
    ensures WEIGHTS[j] % 2 == if j == 0 then 1 else 0
  {
    if j == 0 {
    } else if j < 4 {
      assert WEIGHTS[j] == 2 || WEIGHTS[j] == 4 || WEIGHTS[j] == 8;
    } else {
      assert WEIGHTS[j] == 16 || WEIGHTS[j] == 32 || WEIGHTS[j] == 64 || WEIGHTS[j] == 128;
    }
  }

  lemma {:induction false} AndZero(x: nat, width: nat)
    ensures BitAnd(0, x, width) == 0
  {
    if width > 0 {
      AndZero(x / 2, width - 1);
    }
  }

  /** ANDing with 1 keeps the lowest bit. */
  lemma AndOne(x: nat, width: nat)
    requires width >= 1
    ensures BitAnd(1, x, width) == x % 2
  {
    AndZero(x / 2, width - 1);
  }

  /** The shifted movemask loses every lane but the first: on the pattern
      survivor, survivor, no, survivor, no, survivor, no, no it yields 0x01
      where the lanes encode 0x2b. */
  lemma MoveMask8ShiftedLosesLanes()
    ensures var sv1: U32x4 := [ALL_ONES, ALL_ONES, 0, ALL_ONES];
      var sv2: U32x4 := [0, ALL_ONES, 0, 0];
      MaskReg(sv1) && MaskReg(sv2) &&
      MoveMask8Shifted(sv1, sv2) == 0x01 && MoveMask8(sv1, sv2) == 0x2b
  {
    var sv1: U32x4 := [ALL_ONES, ALL_ONES, 0, ALL_ONES];
    var sv2: U32x4 := [0, ALL_ONES, 0, 0];
    var f := MaskFlags(sv1, sv2);
    assert f == [true, true, false, true, false, true, false, false];
    PackBits8(f);
    assert f[..1] == [true];
    assert f[..1][..0] == [];
    Pow2Values();
  }

  /** `bitpack16_from_u32_masks`: `lo | (hi << 8)` of two 8-bit words. */
  function Bitpack16(lo: U8, hi: U8): (x: U16)
    ensures x == lo + TWO8 * hi
  {
    Pow2Values();
    OrDisjoint(lo, hi, 8, 16);
    BitOr(lo, hi * TWO8, 16)
  }

  /** `b0 | (uint32_t(b1) << 16)` of two 16-bit words. */
  function Pack32(b0: U16, b1: U16): (x: U32)
    ensures x == b0 + TWO16 * b1
  {
    Pow2Values();
    OrDisjoint(b0, b1, 16, 32);
    BitOr(b0, b1 * TWO16, 32)
  }

  /** Two packed words side by side pack the concatenated flags. */
  lemma PackJoin(a: seq<bool>, b: seq<bool>, x: nat, y: nat, k: nat)
    requires |a| == k && x == PackBits(a) && y == PackBits(b)
    ensures PackBits(a + b) == x + Pow2(k) * y
  {
    PackBitsAppend(a, b);
  }

  /** A 32-bit word joined from the packed halves of a run of 32 flags. */
  lemma PackWord32(g: seq<bool>, i: nat, b0: nat, b1: nat, word: nat)
    requires i + 32 <= |g|
    requires b0 == PackBits(g[i .. i + 16]) && b1 == PackBits(g[i + 16 .. i + 32])
    requires word == b0 + TWO16 * b1
    ensures word == PackBits(g[i .. i + 32])
  {
    Pow2Values();
    PackJoin(g[i .. i + 16], g[i + 16 .. i + 32], b0, b1, 16);
    assert g[i .. i + 32] == g[i .. i + 16] + g[i + 16 .. i + 32];
  }

  /** The bytes `memcpy` writes for a k-byte little-endian word. */
  function LittleEndian(x: nat, k: nat): (bytes: seq<U8>)
    ensures |bytes| == k
    ensures forall m | 0 <= m < k :: bytes[m] == (x / Pow2(8 * m)) % TWO8
  {
    Pow2Values();
    seq(k, m requires 0 <= m < k => (x / Pow2(8 * m)) % TWO8)
  }

  /** Byte m of a packed word holds flags 8m .. 8m + 7. */
  lemma LittleEndianPacks(f: seq<bool>, k: nat, m: nat)
    requires |f| == 8 * k && m < k
    ensures LittleEndian(PackBits(f), k)[m] == PackBits(f[8 * m .. 8 * m + 8])
  {
    ShiftOut(f, 8 * m);
    LowByte(f[8 * m..]);
    assert f[8 * m..][..8] == f[8 * m .. 8 * m + 8];
  }

  /** Dividing a packed word by 2^s drops its first s flags. */
  lemma ShiftOut(f: seq<bool>, s: nat)
    requires s <= |f|
    ensures PackBits(f) / Pow2(s) == PackBits(f[s..])
  {
    var lo := f[..s];
    var hi := f[s..];
    var a := PackBits(lo);
    var b := PackBits(hi);
    PackJoin(lo, hi, a, b, s);
    assert lo + hi == f;
    SplitQuotient(PackBits(f), a, b, Pow2(s));
  }

  /** x = a + d * b with a below d: the quotient by d is b. */
  lemma SplitQuotient(x: nat, a: nat, b: nat, d: nat)
    requires d > 0 && a < d && x == a + d * b
    ensures x / d == b
  {
    DivUnique(x, d, b, a);
  }

  /** The low byte of a packed word holds its first eight flags. */
  lemma LowByte(g: seq<bool>)
    requires |g| >= 8
    ensures PackBits(g) % TWO8 == PackBits(g[..8])
  {
    assert g == g[..8] + g[8..];
    PackBitsAppend(g[..8], g[8..]);
    Pow2Values();
    DivUnique(PackBits(g), TWO8, PackBits(g[8..]), PackBits(g[..8]));
  }

  /** `memcpy(buf + at, bytes, |bytes|)` */
  function Store(buf: seq<U8>, at: nat, bytes: seq<U8>): (r: seq<U8>)
    requires at + |bytes| <= |buf|
    ensures |r| == |buf|
    ensures forall m | at <= m < at + |bytes| :: r[m] == bytes[m - at]
    ensures forall m | 0 <= m < |buf| && !(at <= m < at + |bytes|) :: r[m] == buf[m]
  {
    buf[..at] + bytes + buf[at + |bytes|..]
  }

  /** Only the first lane of each group of eight kept: what the shifted
      movemask reports. */
  function KeepFirsts(f: seq<bool>): (g: seq<bool>)
    ensures |g| == |f|
    ensures forall j | 0 <= j < |f| :: g[j] == (j % 8 == 0 && f[j])
  {
    seq(|f|, j requires 0 <= j < |f| => j % 8 == 0 && f[j])
  }

  /** Cleared flags pack to 0. */
  lemma {:induction false} PackNone(f: seq<bool>)
    requires forall j | 0 <= j < |f| :: !f[j]
    ensures PackBits(f) == 0
  {
    if |f| > 0 {
      PackNone(f[..|f| - 1]);
    }
  }

  /** Of eight flags with only the first one kept, the packed word is that
      flag's bit. */
  lemma KeepFirstsOfEight(f: seq<bool>)
    requires |f| == 8
    ensures PackBits(KeepFirsts(f)) == PackBits(f[..1])
  {
    var g := KeepFirsts(f);
    assert g == g[..1] + g[1..];
    assert g[..1] == f[..1];
    PackNone(g[1..]);
    PackBitsAppend(g[..1], g[1..]);
  }

  /** `bitpack16_from_u32_masks` built on the MSB movemask of
      simd_wheel.cpp: lanes 0-7 in the low byte, lanes 8-15 in the high one. */
  function Bitpack16Masks(sv1: U32x4, sv2: U32x4, sv3: U32x4, sv4: U32x4): (x: U16)
    requires MaskReg(sv1) && MaskReg(sv2) && MaskReg(sv3) && MaskReg(sv4)
    ensures x == PackBits(MaskFlags(sv1, sv2) + MaskFlags(sv3, sv4))
  {
    var lo := MoveMask8(sv1, sv2);
    var hi := MoveMask8(sv3, sv4);
    Pow2Values();
    PackJoin(MaskFlags(sv1, sv2), MaskFlags(sv3, sv4), lo, hi, 8);
    Bitpack16(lo, hi)
  }

  /** `bitpack16_from_u32_masks` built on the shifted movemask: only lanes 0
      and 8 reach the word. */
  function Bitpack16Shifted(sv1: U32x4, sv2: U32x4, sv3: U32x4, sv4: U32x4): (x: U16)
    requires MaskReg(sv1) && MaskReg(sv2) && MaskReg(sv3) && MaskReg(sv4)
    ensures x == PackBits(KeepFirsts(MaskFlags(sv1, sv2) + MaskFlags(sv3, sv4)))
  {
    ShiftedRegs(sv1, sv2, sv3, sv4);
    Bitpack16(MoveMask8Shifted(sv1, sv2), MoveMask8Shifted(sv3, sv4))
  }

  lemma ShiftedRegs(sv1: U32x4, sv2: U32x4, sv3: U32x4, sv4: U32x4)
    requires MaskReg(sv1) && MaskReg(sv2) && MaskReg(sv3) && MaskReg(sv4)
    ensures MoveMask8Shifted(sv1, sv2) + TWO8 * MoveMask8Shifted(sv3, sv4)
         == PackBits(KeepFirsts(MaskFlags(sv1, sv2) + MaskFlags(sv3, sv4)))
  {
    ShiftedJoin(MaskFlags(sv1, sv2), MaskFlags(sv3, sv4), MoveMask8Shifted(sv1, sv2), MoveMask8Shifted(sv3, sv4));
  }

  /** Two groups of eight with only their first flags kept pack to the two
      first flags, one byte apart. */
  lemma ShiftedJoin(a: seq<bool>, b: seq<bool>, lo: nat, hi: nat)
    requires |a| == 8 && |b| == 8
    requires lo == PackBits(a[..1]) && hi == PackBits(b[..1])
    ensures PackBits(KeepFirsts(a + b)) == lo + TWO8 * hi
  {
    KeepFirstsJoin(a, b);
    KeepFirstsOfEight(a);
    KeepFirstsOfEight(b);
    Pow2Values();
    PackJoin(KeepFirsts(a), KeepFirsts(b), lo, hi, 8);
  }

  lemma KeepFirstsJoin(a: seq<bool>, b: seq<bool>)
    requires |a| == 8
    ensures KeepFirsts(a + b) == KeepFirsts(a) + KeepFirsts(b)
  {
    var l := KeepFirsts(a + b);
    var r := KeepFirsts(a) + KeepFirsts(b);
    forall j | 0 <= j < |l|
      ensures l[j] == r[j]
    {
      if j >= 8 {
        assert (j - 8) % 8 == j % 8;
        assert (a + b)[j] == b[j - 8];
        assert r[j] == KeepFirsts(b)[j - 8];
      } else {
        assert (a + b)[j] == a[j];
        assert r[j] == KeepFirsts(a)[j];
      }
    }
  }

  /** The upper half of the repository's 16-lane test pattern: lanes 1, 3 and
      7 set, 0x8a, of which the shifted movemask keeps nothing. */
  lemma MoveMask8UpperPattern(sv3: U32x4, sv4: U32x4)
    requires sv3 == [0, ALL_ONES, 0, ALL_ONES] && sv4 == [0, 0, 0, ALL_ONES]
    ensures MaskReg(sv3) && MaskReg(sv4)
    ensures MoveMask8Shifted(sv3, sv4) == 0
    ensures MoveMask8(sv3, sv4) == 0x8a
  {
    var f := MaskFlags(sv3, sv4);
    assert !f[0] && f[1] && !f[2] && f[3] && !f[4] && !f[5] && !f[6] && f[7];
    PackBits8(f);
    PackFirst(f);
    assert BoolBit(f[1]) == 1 && BoolBit(f[3]) == 1 && BoolBit(f[7]) == 1;
    assert BoolBit(f[0]) == 0 && BoolBit(f[2]) == 0 && BoolBit(f[4]) == 0 && BoolBit(f[5]) == 0 && BoolBit(f[6]) == 0;
    assert PackBits(f) == 0x8a;
  }

  /** The 16-lane test pattern 0x8a2b comes out of the shifted pack as
      0x0001. */
  lemma Bitpack16ShiftedLosesLanes(sv1: U32x4, sv2: U32x4, sv3: U32x4, sv4: U32x4)
    requires sv1 == [ALL_ONES, ALL_ONES, 0, ALL_ONES] && sv2 == [0, ALL_ONES, 0, 0]
    requires sv3 == [0, ALL_ONES, 0, ALL_ONES] && sv4 == [0, 0, 0, ALL_ONES]
    ensures MaskReg(sv1) && MaskReg(sv2) && MaskReg(sv3) && MaskReg(sv4)
    ensures Bitpack16Shifted(sv1, sv2, sv3, sv4) == 0x0001
    ensures Bitpack16Masks(sv1, sv2, sv3, sv4) == 0x8a2b
  {
    MoveMask8ShiftedLosesLanes();
    MoveMask8UpperPattern(sv3, sv4);
    assert MoveMask8Shifted(sv1, sv2) == 1 && MoveMask8(sv1, sv2) == 0x2b;
    assert Bitpack16Shifted(sv1, sv2, sv3, sv4) == Bitpack16(MoveMask8Shifted(sv1, sv2), MoveMask8Shifted(sv3, sv4));
    assert Bitpack16Masks(sv1, sv2, sv3, sv4) == Bitpack16(MoveMask8(sv1, sv2), MoveMask8(sv3, sv4));
  }
}
