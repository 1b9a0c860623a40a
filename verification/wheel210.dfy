/** `neon_wheel210` (src/simd_wheel210.cpp): a residue test modulo 210 in
    front of the trial divisions from slot 4 (the prime 11) on, a shifted
    movemask pack, and a bitmap stream whose scalar part looks the residue
    up in a 210-entry table.

    The constant for 210 exceeds 2^32 / 210 by more than one unit, so the
    quotient estimate overshoots for some inputs. The vector kernel has no
    corrective subtract and rejects those inputs; the scalar part subtracts
    once and then indexes the table with the wrapped remainder, which lies
    far outside it. 2, 3, 5 and 7 are never let through, and the partial
    last byte keeps the prior bit of every input the scalar part skips.

    The kernel, its 16-input pack, the stream flags and the word stores have
    the same shape as those of `Optimized`, over a different decision
    predicate. They are kept as separate members, one per source function:
    sharing them would need a module parameterised over the predicate,
    which the two source files do not have either, and each copy is stated
    against its own file's decisions. */
module Wheel210 {
  import opened Bits
  import opened Barrett
  import opened PrimeTables
  import opened Neon
  import opened Kernels
  import opened Reference
  import opened Pack
  import opened Bitmap
  import opened Lanes
  import opened Wheels

  /** `MU210` as the source has it. */
  const MU210: U32 := 20456360

  /** floor(2^32 / 210), the constant of the corrected paths. */
  const MU210_FLOOR: U32 := 20452225

  /** MU210 * 210 exceeds 2^32 by 868304, about 4135 units of 210, yet
      leaves room for two divisors below 2^32; MU210_FLOOR is the floor
      constant. */
  lemma Constants210()
    ensures TWO32 <= MU210 * 210 && MU210 * 210 - TWO32 == 868304
    ensures MU210 * 210 - TWO32 + 2 * 210 <= TWO32
    ensures FloorConstant(210, MU210_FLOOR)
  {
  }

  /** Every listed residue is below 210 and coprime to 210. */
  lemma ResidueBound(x: nat)
    requires x in RESIDUES210
    ensures x < 210 && Coprime210(x)
  {
    var j :| 0 <= j < |RESIDUES210| && RESIDUES210[j] == x;
    Residue210At(j);
  }

  /** Listed exactly when below 210 and coprime to 210. */
  lemma Listed(x: nat)
    ensures x in RESIDUES210 <==> x < 210 && Coprime210(x)
  {
    if x in RESIDUES210 {
      ResidueBound(x);
    }
    if x < 210 {
      Residues210(x);
    }
  }

  lemma ResiduesFit()
    ensures forall k | 0 <= k < |RESIDUES210| :: RESIDUES210[k] < TWO32
  {
    forall k | 0 <= k < |RESIDUES210|
      ensures RESIDUES210[k] < TWO32
    {
      Residue210At(k);
    }
  }

  /** `WHEEL210_COPRIME` after the first k writes of `init_wheel210`: 1 at
      the first k listed residues, 0 everywhere else. */
  function Marked(k: nat): (t: seq<U8>)
    requires k <= |RESIDUES210|
    ensures |t| == 210
    ensures forall r | 0 <= r < 210 :: t[r] == if r in RESIDUES210[..k] then 1 else 0
  {
    if k == 0 then seq(210, _ => 0)
    else
      var prev := Marked(k - 1);
      Residue210At(k - 1);
      MarkStep(prev, k);
      prev[RESIDUES210[k - 1] := 1]
  }

  /** The k-th write of `init_wheel210` marks the k-th residue on top of the
      first k - 1. */
  lemma MarkStep(prev: seq<U8>, k: nat)
    requires 0 < k <= |RESIDUES210| && |prev| == 210 && RESIDUES210[k - 1] < 210
    requires forall r | 0 <= r < 210 :: prev[r] == if r in RESIDUES210[..k - 1] then 1 else 0
    ensures forall r | 0 <= r < 210 ::
      prev[RESIDUES210[k - 1] := 1][r] == if r in RESIDUES210[..k] then 1 else 0
  {
    assert RESIDUES210[..k] == RESIDUES210[..k - 1] + [RESIDUES210[k - 1]];
  }

  /** The lookup table once the static constructor has run over all 48
      residues. */
  const WHEEL210_COPRIME: seq<U8> := Marked(48)

  /** The table marks exactly the residues coprime to 210. */
  lemma CoprimeTable(r: nat)
    requires r < 210
    ensures |WHEEL210_COPRIME| == 210
    ensures WHEEL210_COPRIME[r] == if Coprime210(r) then 1 else 0
  {
    Residues210(r);
    assert RESIDUES210[..48] == RESIDUES210;
  }

  /** The inputs `wheel210_mask` lets through: they fit in 32 bits and the
      remainder modulo 210, formed without a corrective subtract, is one of
      the 48 residues, that is, below 210 and coprime to 210. */
  ghost predicate WheelHit(v: nat)
  {
    v < TWO32 && RawRemainder(v, MU210, 210) < 210 && Coprime210(RawRemainder(v, MU210, 210))
  }

  /** What the vector kernel decides for one input: a wheel hit that no
      table prime from 11 on properly divides. */
  ghost predicate KernelPasses(v: nat)
  {
    WheelHit(v) && ClearIn(v, SEQUENTIAL, 4, 16)
  }

  /** The kernel's decision for every input of a run. */
  ghost function KernelFlags(numbers: seq<U64>): (f: seq<bool>)
    ensures |f| == |numbers|
    ensures forall j | 0 <= j < |numbers| :: f[j] == KernelPasses(numbers[j])
  {
    seq(|numbers|, j requires 0 <= j < |numbers| => KernelPasses(numbers[j]))
  }

  /** An input passes the kernel exactly when it survives, is not 2, 3, 5
      or 7, and the quotient estimate does not overshoot. In particular
      every passing input survives. */
  lemma KernelExactly(v: nat)
    ensures KernelPasses(v) <==>
      (Survives(v) && v != 2 && v != 3 && v != 5 && v != 7 && RawRemainder(v, MU210, 210) == v % 210)
  {
    if v < TWO32 {
      Constants210();
      OverRawSound(v, MU210, 210);
      CoprimeModulo210(v);
      if v != 2 && v != 3 && v != 5 && v != 7 {
        SurvivesByWheel210(v);
      } else {
        assert Quotient(v, MU210) == 0;
      }
    }
  }

  /** `wheel210_mask`: the remainder modulo 210 without the corrective
      subtract, compared with the 48 residues (the source's four groups OR
      the comparisons in list order). */
  function Wheel210Mask(n: U32x4): (w: U32x4)
    ensures MaskReg(w)
    ensures forall i | 0 <= i < 4 :: w[i] == 0 <==> !WheelHit(n[i])
  {
    ResiduesFit();
    var r := BarrettRawReg(n, VDup(MU210), VDup(210));
    var w := ResidueMask(r, RESIDUES210);
    ListedLanes(r, w);
    w
  }

  lemma ListedLanes(r: U32x4, w: U32x4)
    requires forall i | 0 <= i < 4 :: w[i] == 0 <==> r[i] !in RESIDUES210
    ensures forall i | 0 <= i < 4 :: w[i] == 0 <==> !(r[i] < 210 && Coprime210(r[i]))
  {
    forall i | 0 <= i < 4
      ensures w[i] == 0 <==> !(r[i] < 210 && Coprime210(r[i]))
    {
      Listed(r[i]);
    }
  }

  /** w is a mask register passing exactly the wheel hits among the four
      inputs at off. */
  ghost predicate HitLanes(w: U32x4, ptr: seq<U64>, off: nat)
    requires off + 4 <= |ptr|
  {
    forall i | 0 <= i < 4 :: IsMask(w[i]) && (w[i] == 0 <==> !WheelHit(ptr[off + i]))
  }

  /** One wheel register of `filter16_u64_wheel210_bitmap`: the mask and,
      when some input of the block has high bits set, the enable step. */
  method WheelPass(ptr: seq<U64>, off: nat, all32: bool) returns (w: U32x4)
    requires off + 4 <= |ptr|
    requires all32 ==> forall j | off <= j < off + 4 :: ptr[j] < TWO32
    ensures HitLanes(w, ptr, off)
  {
    var n := LoadReg(ptr, off);
    var m := Wheel210Mask(n);
    HitLanesOf(ptr, off, n, m);
    w := Enable(m, ptr, off, all32);
  }

  lemma HitLanesOf(ptr: seq<U64>, off: nat, n: U32x4, m: U32x4)
    requires off + 4 <= |ptr| && n == LoadReg(ptr, off)
    requires forall i | 0 <= i < 4 :: m[i] == 0 <==> !WheelHit(n[i])
    ensures forall i | 0 <= i < 4 && ptr[off + i] < TWO32 :: m[i] == 0 <==> !WheelHit(ptr[off + i])
  {
    forall i | 0 <= i < 4 && ptr[off + i] < TWO32
      ensures m[i] == 0 <==> !WheelHit(ptr[off + i])
    {
      NarrowedWheelHit(n[i], ptr[off + i]);
    }
  }

  /** A 64-bit input that fits in 32 bits narrows to itself. */
  lemma NarrowedWheelHit(x: nat, v: nat)
    requires x == v % TWO32 && v < TWO32
    ensures WheelHit(x) == WheelHit(v)
  {
    assert x == v;
  }

  /** `sv = vandq(wheel, vceqq(m, 0))`, m the composite mask of the slots
      4..15 gated by the wheel: the register encodes the kernel's decisions
      for its four inputs. */
  method KernelSurvivors(ptr: seq<U64>, off: nat, w: U32x4) returns (sv: U32x4)
    requires off + 4 <= |ptr| && HitLanes(w, ptr, off)
    ensures Encodes(sv, KernelFlags(ptr), off)
  {
    SequentialValid();
    var n := LoadReg(ptr, off);
    var s := Survivors(GatedMask(n, w, SEQUENTIAL, 4, 16));
    AndMaskLanes(s, w);
    KernelLanes(ptr, off, w, n, s);
    sv := VAndq(w, s);
  }

  lemma KernelLanes(ptr: seq<U64>, off: nat, w: U32x4, n: U32x4, s: U32x4)
    requires off + 4 <= |ptr| && HitLanes(w, ptr, off) && n == LoadReg(ptr, off)
    requires forall i | 0 <= i < 4 :: s[i] == if w[i] == 0 || ClearIn(n[i], SEQUENTIAL, 4, 16) then ALL_ONES else 0
    ensures forall i | 0 <= i < 4 ::
      (if w[i] == ALL_ONES then s[i] else 0) == if KernelPasses(ptr[off + i]) then ALL_ONES else 0
  {
    forall i | 0 <= i < 4
      ensures (if w[i] == ALL_ONES then s[i] else 0) == if KernelPasses(ptr[off + i]) then ALL_ONES else 0
    {
      KernelLane(ptr[off + i], n[i], w[i], s[i]);
    }
  }

  lemma KernelLane(v: nat, n: nat, w: nat, s: nat)
    requires n == v % TWO32
    requires IsMask(w) && (w == 0 <==> !WheelHit(v))
    requires s == if w == 0 || ClearIn(n, SEQUENTIAL, 4, 16) then ALL_ONES else 0
    ensures (if w == ALL_ONES then s else 0) == if KernelPasses(v) then ALL_ONES else 0
  {
    if v < TWO32 {
      assert n == v;
    }
  }

  /** The early return: when the OR of the four horizontal maxima is 0, no
      input of the block is a wheel hit and 0 is what the full path would
      have packed. */
  lemma NoneHit(ptr: seq<U64>, at: nat, w1: U32x4, w2: U32x4, w3: U32x4, w4: U32x4)
    requires at + 16 <= |ptr|
    requires HitLanes(w1, ptr, at) && HitLanes(w2, ptr, at + 4)
    requires HitLanes(w3, ptr, at + 8) && HitLanes(w4, ptr, at + 12)
    requires BitOr(BitOr(BitOr(VMaxvq(w1), VMaxvq(w2), 32), VMaxvq(w3), 32), VMaxvq(w4), 32) == 0
    ensures PackBits(KeepFirsts(KernelFlags(ptr)[at .. at + 16])) == 0
  {
    OrAllZero(VMaxvq(w1), VMaxvq(w2), VMaxvq(w3), VMaxvq(w4));
    NoHit(w1, ptr, at);
    NoHit(w2, ptr, at + 4);
    NoHit(w3, ptr, at + 8);
    NoHit(w4, ptr, at + 12);
    var f := KeepFirsts(KernelFlags(ptr)[at .. at + 16]);
    assert forall j | 0 <= j < 16 :: f[j] ==> KernelPasses(ptr[at + j]);
    PackNone(f);
  }

  lemma NoHit(w: U32x4, ptr: seq<U64>, off: nat)
    requires off + 4 <= |ptr| && HitLanes(w, ptr, off) && VMaxvq(w) == 0
    ensures forall j | off <= j < off + 4 :: !KernelPasses(ptr[j])
  {
    forall j | off <= j < off + 4
      ensures !KernelPasses(ptr[j])
    {
      assert w[j - off] <= VMaxvq(w);
    }
  }

  /** `filter16_u64_wheel210_bitmap`: the kernel's decisions for the
      sixteen inputs at `at`, of which the shifted pack keeps bit 0 (input
      at) and bit 8 (input at + 8) only. Same shape as `Optimized.Filter16`,
      over this file's residue test and slots (see the module comment). */
  method Filter16(ptr: seq<U64>, at: nat) returns (x: U16)
    requires at + 16 <= |ptr|
    ensures x == PackBits(KeepFirsts(KernelFlags(ptr)[at .. at + 16]))
  {
    var all32 := All32(ptr, at, 8);
    var w1 := WheelPass(ptr, at, all32);
    var w2 := WheelPass(ptr, at + 4, all32);
    var w3 := WheelPass(ptr, at + 8, all32);
    var w4 := WheelPass(ptr, at + 12, all32);
    if BitOr(BitOr(BitOr(VMaxvq(w1), VMaxvq(w2), 32), VMaxvq(w3), 32), VMaxvq(w4), 32) == 0 {
      NoneHit(ptr, at, w1, w2, w3, w4);
      return 0;
    }
    var sv1 := KernelSurvivors(ptr, at, w1);
    var sv2 := KernelSurvivors(ptr, at + 4, w2);
    var sv3 := KernelSurvivors(ptr, at + 8, w3);
    var sv4 := KernelSurvivors(ptr, at + 12, w4);
    SixteenFlags(sv1, sv2, sv3, sv4, KernelFlags(ptr), at);
    x := Bitpack16Shifted(sv1, sv2, sv3, sv4);
  }

  /** What the scalar part does with one input: skip it (above 32 bits, or
      a residue the table does not mark), try it with the trial divisions,
      or read the table at an index outside its 210 entries. */
  datatype Lane = Skipped | Tried(survive: bool) | OutOfBounds(index: nat)

  /** The scalar remainder lands outside the table. */
  ghost predicate TailFault(v: nat)
  {
    v < TWO32 && Reduce(v, MU210, 210) >= 210
  }

  /** The scalar part reaches the trial divisions. */
  ghost predicate TailTried(v: nat)
  {
    v < TWO32 && Reduce(v, MU210, 210) < 210 && Coprime210(v)
  }

  /** The scalar part's decision: tried, and no table prime from 11 on
      properly divides the input. */
  ghost predicate TailPasses(v: nat)
  {
    TailTried(v) && ClearIn(v, SEQUENTIAL, 4, 16)
  }

  /** The scalar decision for every input of a run. */
  ghost function TailFlags(numbers: seq<U64>): (f: seq<bool>)
    ensures |f| == |numbers|
    ensures forall j | 0 <= j < |numbers| :: f[j] == TailPasses(numbers[j])
  {
    seq(|numbers|, j requires 0 <= j < |numbers| => TailPasses(numbers[j]))
  }

  /** The table index is out of range exactly when the single corrective
      subtract misses the true remainder. */
  lemma TailFaultExactly(v: nat)
    ensures TailFault(v) <==> v < TWO32 && Reduce(v, MU210, 210) != v % 210
  {
    if v < TWO32 {
      Constants210();
      OverReduceSound(v, MU210, 210);
    }
  }

  /** An input passes the scalar part exactly when it survives, is not 2,
      3, 5 or 7, and the remainder is the true one. */
  lemma TailExactly(v: nat)
    ensures TailPasses(v) <==>
      (Survives(v) && v != 2 && v != 3 && v != 5 && v != 7 && Reduce(v, MU210, 210) == v % 210)
  {
    if v < TWO32 {
      Constants210();
      OverReduceSound(v, MU210, 210);
      if v != 2 && v != 3 && v != 5 && v != 7 {
        SurvivesByWheel210(v);
      }
    }
  }

  /** One input of the scalar part: the 32-bit check, the remainder modulo
      210 with one corrective subtract, the table lookup, and the trial
      divisions from slot 4 on, each skipping a prime equal to the input. */
  method ScalarLane(v: U64) returns (lane: Lane)
    ensures lane.OutOfBounds? <==> TailFault(v)
    ensures lane.OutOfBounds? ==> lane.index == Reduce(v, MU210, 210)
    ensures lane.Tried? <==> TailTried(v)
    ensures lane.Tried? ==> (lane.survive <==> TailPasses(v))
  {
    if v > 0xFFFF_FFFF {
      return Skipped;
    }
    var r210 := Reduce(v, MU210, 210);
    if r210 >= |WHEEL210_COPRIME| {
      return OutOfBounds(r210);
    }
    Constants210();
    OverReduceSound(v, MU210, 210);
    CoprimeTable(r210);
    CoprimeModulo210(v);
    if WHEEL210_COPRIME[r210] == 0 {
      return Skipped;
    }
    var survive := TrialTail(v, 4);
    return Tried(survive);
  }

  /** The prime 5039 (209 modulo 210) survives, but the estimate of its
      quotient is 24 instead of 23: the kernel's remainder wraps to
      2^32 - 1 and rejects it, and the scalar part's remainder after one
      subtract is 2^32 - 211, an index far outside the table. */
  lemma Prime5039()
    ensures Survives(5039) && !KernelPasses(5039) && TailFault(5039)
    ensures RawRemainder(5039, MU210, 210) == TWO32 - 1
    ensures Reduce(5039, MU210, 210) == TWO32 - 211
  {
    assert Quotient(5039, MU210) == 24;
    assert RawRemainder(5039, MU210, 210) == TWO32 - 1;
    Clear5039();
    KernelExactly(5039);
  }

  lemma Clear5039()
    ensures Survives(5039)
  {
    SequentialValues();
    var v := 5039;
    forall j | 0 <= j < 16
      ensures !ProperlyDivides(SEQUENTIAL.p[j], v)
    {
      assert v % 2 != 0 && v % 3 != 0 && v % 5 != 0 && v % 7 != 0;
      assert v % 11 != 0 && v % 13 != 0 && v % 17 != 0 && v % 19 != 0;
      assert v % 23 != 0 && v % 29 != 0 && v % 31 != 0 && v % 37 != 0;
      assert v % 41 != 0 && v % 43 != 0 && v % 47 != 0 && v % 53 != 0;
    }
  }

  /** 2, 3, 5 and 7 survive, but neither the kernel nor the scalar part
      lets them through: their residues are not coprime to 210 and nothing
      exempts them. */
  lemma SmallPrimesRejected()
    ensures Survives(2) && Survives(3) && Survives(5) && Survives(7)
    ensures !KernelPasses(2) && !KernelPasses(3) && !KernelPasses(5) && !KernelPasses(7)
    ensures !TailPasses(2) && !TailPasses(3) && !TailPasses(5) && !TailPasses(7)
  {
    TablePrimesSurvive();
    SequentialValues();
    assert SEQUENTIAL.p[0] == 2 && SEQUENTIAL.p[1] == 3 && SEQUENTIAL.p[2] == 5 && SEQUENTIAL.p[3] == 7;
    KernelExactly(2);
    KernelExactly(3);
    KernelExactly(5);
    KernelExactly(7);
  }

  /** The scalar lane repaired: the floor constant for 210, whose single
      subtract always yields the true remainder and so an index inside the
      table, and the exemption of 2, 3, 5 and 7. It decides exactly the
      reference outcome. */
  method CorrectedLane(v: U64) returns (ok: bool)
    ensures ok <==> Survives(v)
  {
    if v > 0xFFFF_FFFF {
      return false;
    }
    if v == 2 || v == 3 || v == 5 || v == 7 {
      TablePrimesSurvive();
      SequentialValues();
      assert SEQUENTIAL.p[0] == 2 && SEQUENTIAL.p[1] == 3 && SEQUENTIAL.p[2] == 5 && SEQUENTIAL.p[3] == 7;
      return true;
    }
    Constants210();
    FloorExact(v, MU210_FLOOR, 210);
    var r210 := Reduce(v, MU210_FLOOR, 210);
    CoprimeTable(r210);
    CoprimeModulo210(v);
    SurvivesByWheel210(v);
    if WHEEL210_COPRIME[r210] == 0 {
      return false;
    }
    ok := TrialTail(v, 4);
  }

  /** The vector mask repaired: with the floor constant and the corrective
      subtract every lane is reduced exactly, so a lane passes precisely
      when it is coprime to 210. */
  function CorrectedMask(n: U32x4): (w: U32x4)
    ensures MaskReg(w)
    ensures forall i | 0 <= i < 4 :: w[i] == 0 <==> !Coprime210(n[i])
  {
    ResiduesFit();
    var r := BarrettReg(n, VDup(MU210_FLOOR), VDup(210));
    var w := ResidueMask(r, RESIDUES210);
    ListedLanes(r, w);
    CorrectedLanes(n, r, w);
    w
  }

  lemma CorrectedLanes(n: U32x4, r: U32x4, w: U32x4)
    requires forall i | 0 <= i < 4 :: r[i] == Reduce(n[i], MU210_FLOOR, 210)
    requires forall i | 0 <= i < 4 :: w[i] == 0 <==> !(r[i] < 210 && Coprime210(r[i]))
    ensures forall i | 0 <= i < 4 :: w[i] == 0 <==> !Coprime210(n[i])
  {
    Constants210();
    forall i | 0 <= i < 4
      ensures w[i] == 0 <==> !Coprime210(n[i])
    {
      FloorExact(n[i], MU210_FLOOR, 210);
      CoprimeModulo210(n[i]);
    }
  }

  /** The outcome of a scalar pass: a value, or the position of the input
      whose table index fell outside the table, with that index. Reading
      past the table is undefined behaviour in the source; the model stops
      there. */
  datatype Scan<T> = Done(value: T) | Fault(at: nat, index: nat)

  /** The scalar block of eight: a fresh byte with bit k set when input
      base + k passes the scalar part, so a skipped input leaves a 0. */
  method ScalarByte(numbers: seq<U64>, base: nat) returns (res: Scan<U8>)
    requires base + 8 <= |numbers|
    ensures res.Fault? ==> base <= res.at < base + 8 && TailFault(numbers[res.at])
    ensures res.Fault? ==> res.index == Reduce(numbers[res.at], MU210, 210)
    ensures res.Done? ==> forall j | base <= j < base + 8 :: !TailFault(numbers[j])
    ensures res.Done? ==> res.value == PackBits(TailFlags(numbers)[base .. base + 8])
  {
    var byte: U8 := 0;
    var bit := 0;
    assert TailFlags(numbers)[base .. base] == [];
    while bit < 8
      invariant bit <= 8 && byte == PackBits(TailFlags(numbers)[base .. base + bit])
      invariant forall j | base <= j < base + bit :: !TailFault(numbers[j])
    {
      var step := ByteStep(numbers, base, bit, byte);
      if step.Fault? {
        return step;
      }
      byte := step.value;
      bit := bit + 1;
    }
    return Done(byte);
  }

  /** One input of the scalar block: `byte |= 1 << bit` when it passes. */
  method ByteStep(numbers: seq<U64>, base: nat, bit: nat, byte: U8) returns (res: Scan<U8>)
    requires base + bit < |numbers| && bit < 8
    requires byte == PackBits(TailFlags(numbers)[base .. base + bit])
    ensures res.Fault? ==> res.at == base + bit && TailFault(numbers[res.at])
    ensures res.Fault? ==> res.index == Reduce(numbers[res.at], MU210, 210)
    ensures res.Done? ==> !TailFault(numbers[base + bit])
    ensures res.Done? ==> res.value == PackBits(TailFlags(numbers)[base .. base + bit + 1])
  {
    var lane := ScalarLane(numbers[base + bit]);
    if lane.OutOfBounds? {
      return Fault(base + bit, lane.index);
    }
    SliceExtend(TailFlags(numbers), base, base + bit);
    var x := OrBit(byte, TailFlags(numbers)[base .. base + bit], bit, lane == Tried(true));
    return Done(x);
  }

  /** The flags of the final tail inputs base .. count over the prior byte:
      a tried input's decision, and the prior bit for a skipped one. */
  ghost function TailBits(numbers: seq<U64>, base: nat, count: nat, prior: U8): (g: seq<bool>)
    requires base <= count <= |numbers|
    ensures |g| == count - base
    ensures forall j | 0 <= j < count - base ::
      g[j] == if TailTried(numbers[base + j]) then TailPasses(numbers[base + j]) else Bit(prior, j) == 1
  {
    seq(count - base, j requires 0 <= j < count - base =>
      if TailTried(numbers[base + j]) then TailPasses(numbers[base + j]) else Bit(prior, j) == 1)
  }

  /** The final tail: a tried input sets its bit of `mask` and, if it
      passes, of `last`; a skipped one sets neither; the byte becomes
      `(prior & ~mask) | (last & mask)`. */
  method FinalTail(numbers: seq<U64>, count: nat, base: nat, prior: U8) returns (res: Scan<U8>)
    requires base < count <= |numbers| && count < base + 8
    ensures res.Fault? ==> base <= res.at < count && TailFault(numbers[res.at])
    ensures res.Fault? ==> res.index == Reduce(numbers[res.at], MU210, 210)
    ensures res.Done? ==> forall j | base <= j < count :: !TailFault(numbers[j])
    ensures res.Done? ==> res.value == Blend(TailBits(numbers, base, count, prior), prior)
  {
    var last: U8 := 0;
    var mask: U8 := 0;
    var i := base;
    var bit := 0;
    forall j | 0 <= j < 8
      ensures Bit(0, j) == 0
    {
      BitAbove(0, 0, j);
    }
    while i < count
      invariant base <= i <= count && bit == i - base
      invariant forall j | 0 <= j < 8 :: Bit(mask, j) == if j < bit && TailTried(numbers[base + j]) then 1 else 0
      invariant forall j | 0 <= j < 8 :: Bit(last, j) == if j < bit && TailPasses(numbers[base + j]) then 1 else 0
      invariant forall j | base <= j < i :: !TailFault(numbers[j])
    {
      var lane := ScalarLane(numbers[i]);
      if lane.OutOfBounds? {
        return Fault(i, lane.index);
      }
      if lane.Tried? {
        if lane.survive {
          last := SetBit(last, bit, true);
        }
        mask := SetBit(mask, bit, true);
      }
      i := i + 1;
      bit := bit + 1;
    }
    MergeBlend(prior, TailBits(numbers, base, count, prior), last, mask);
    return Done(MergeByte(prior, mask, last));
  }

  /** The flag the stream writes for input j < count over the buffer
      bitmap: below V, count rounded down to a multiple of 16, the kernel's
      decision of every eighth input and nothing for the others; from V to
      E, count rounded down to a multiple of 8, the scalar decision; from E
      on the scalar decision of a tried input and the prior bit of a
      skipped one. */
  ghost predicate StreamFlag(numbers: seq<U64>, count: nat, bitmap: seq<U8>, j: nat)
    requires j < count <= |numbers| && Bytes(count) <= |bitmap|
  {
    if j < count - count % 16 then j % 8 == 0 && KernelPasses(numbers[j])
    else if j < count - count % 8 || TailTried(numbers[j]) then TailPasses(numbers[j])
    else Bit(bitmap[j / 8], j % 8) == 1
  }

  ghost function StreamFlags(numbers: seq<U64>, count: nat, bitmap: seq<U8>): (g: seq<bool>)
    requires count <= |numbers| && Bytes(count) <= |bitmap|
    ensures |g| == count
    ensures forall j | 0 <= j < count :: g[j] == StreamFlag(numbers, count, bitmap, j)
  {
    seq(count, j requires 0 <= j < count => StreamFlag(numbers, count, bitmap, j))
  }

  /** `filter_stream_u64_wheel210_bitmap`: 32-input words, one 16-input
      word, one scalar byte of eight, then the final tail merged into the
      partial last byte. Unless some scalar input indexes the table out of
      range, the first count bits of the bitmap are StreamFlags, the high
      bits of a partial last byte keep their prior contents, and later
      bytes are not written. */
  method BitmapStream(numbers: seq<U64>, count: nat, bitmap: seq<U8>) returns (res: Scan<seq<U8>>)
    requires count <= |numbers| && Bytes(count) <= |bitmap|
    ensures res.Fault? ==> count - count % 16 <= res.at < count && TailFault(numbers[res.at])
    ensures res.Fault? ==> res.index == Reduce(numbers[res.at], MU210, 210)
    ensures res.Done? ==> forall j | count - count % 16 <= j < count :: !TailFault(numbers[j])
    ensures res.Done? ==> BitsDone(res.value, bitmap, StreamFlags(numbers, count, bitmap), count)
  {
    ghost var g := StreamFlags(numbers, count, bitmap);
    var bm, i, byte := VectorPart(numbers, count, bitmap);
    EightEnd(count);
    if i + 8 <= count {
      var r := ScalarByte(numbers, i);
      if r.Fault? {
        return Fault(r.at, r.index);
      }
      BlockSlice(numbers, count, bitmap, i, byte);
      bm := WriteByte(bm, bitmap, g, byte, r.value);
      i := i + 8;
      byte := byte + 1;
    }
    StartBits(bm, bitmap, g, byte);
    if i < count {
      TailSlice(numbers, count, bitmap, byte);
      var t := FinalTail(numbers, count, i, bm[byte]);
      if t.Fault? {
        return Fault(t.at, t.index);
      }
      bm := WriteTail(bm, bitmap, g, byte, t.value);
    }
    return Done(bm);
  }

  /** The scalar block holds the scalar decisions, and it ends at count
      rounded down to a multiple of 8. */
  lemma BlockSlice(numbers: seq<U64>, count: nat, bitmap: seq<U8>, i: nat, byte: nat)
    requires count <= |numbers| && Bytes(count) <= |bitmap|
    requires i == count - count % 16 && i == 8 * byte && i + 8 <= count
    ensures byte < Bytes(count)
    ensures ByteOf(StreamFlags(numbers, count, bitmap), byte) == PackBits(TailFlags(numbers)[i .. i + 8])
  {
    EightEnd(count);
    var g := StreamFlags(numbers, count, bitmap);
    assert g[i .. i + 8] == TailFlags(numbers)[i .. i + 8];
  }

  /** The final tail's flags are the stream's flags from count rounded down
      to a multiple of 8. */
  lemma TailSlice(numbers: seq<U64>, count: nat, bitmap: seq<U8>, byte: nat)
    requires count <= |numbers| && Bytes(count) <= |bitmap|
    requires 8 * byte == count - count % 8 < count
    ensures byte < |bitmap|
    ensures StreamFlags(numbers, count, bitmap)[8 * byte .. count] == TailBits(numbers, 8 * byte, count, bitmap[byte])
  {
    EightEnd(count);
    var g := StreamFlags(numbers, count, bitmap)[8 * byte .. count];
    var t := TailBits(numbers, 8 * byte, count, bitmap[byte]);
    forall j | 0 <= j < count - 8 * byte
      ensures g[j] == t[j]
    {
      assert (8 * byte + j) / 8 == byte && (8 * byte + j) % 8 == j;
    }
  }

  /** The vector part of the stream: 32-input words while 32 inputs remain,
      then one 16-input word if 16 do. It ends at count rounded down to a
      multiple of 16, with every byte before it written. */
  method VectorPart(numbers: seq<U64>, count: nat, bitmap: seq<U8>) returns (bm: seq<U8>, i: nat, byte: nat)
    requires count <= |numbers| && Bytes(count) <= |bitmap|
    ensures i == count - count % 16 && i == 8 * byte
    ensures BytesDone(bm, bitmap, StreamFlags(numbers, count, bitmap), byte)
  {
    ghost var g := StreamFlags(numbers, count, bitmap);
    bm := bitmap;
    i := 0;
    byte := 0;
    ghost var h := 0;
    while i + 32 <= count
      invariant i <= count && i == 8 * byte && i == 16 * h && BytesDone(bm, bitmap, g, byte)
    {
      InVector(count, h, 2);
      var word := Word32(numbers, count, bitmap, i, byte);
      bm := WriteWord(bm, bitmap, g, byte, 4, word);
      i := i + 32;
      byte := byte + 4;
      h := h + 2;
    }
    if i + 16 <= count {
      InVector(count, h, 1);
      var b := Word16(numbers, count, bitmap, i, byte);
      bm := WriteWord(bm, bitmap, g, byte, 2, b);
      i := i + 16;
      byte := byte + 2;
      h := h + 1;
    }
    TailStart(count, h);
  }

  /** `b0 | (uint32_t(b1) << 16)` of the kernels at i and i + 16: the
      stream flags of those 32 inputs. */
  method Word32(numbers: seq<U64>, count: nat, ghost bitmap: seq<U8>, i: nat, ghost byte: nat) returns (word: U32)
    requires count <= |numbers| && Bytes(count) <= |bitmap|
    requires i == 8 * byte && i + 32 <= count - count % 16
    ensures word == PackBits(StreamFlags(numbers, count, bitmap)[i .. i + 32])
  {
    var b0 := Filter16(numbers, i);
    var b1 := Filter16(numbers, i + 16);
    word := Pack32(b0, b1);
    KeptSlice(numbers, count, bitmap, i, 16, byte);
    KeptSlice(numbers, count, bitmap, i + 16, 16, byte + 2);
    PackWord32(StreamFlags(numbers, count, bitmap), i, b0, b1, word);
  }

  /** The kernel at i inside the vector part: the stream flags of its 16
      inputs. */
  method Word16(numbers: seq<U64>, count: nat, ghost bitmap: seq<U8>, i: nat, ghost byte: nat) returns (b: U16)
    requires count <= |numbers| && Bytes(count) <= |bitmap|
    requires i == 8 * byte && i + 16 <= count - count % 16
    ensures b == PackBits(StreamFlags(numbers, count, bitmap)[i .. i + 16])
  {
    b := Filter16(numbers, i);
    KeptSlice(numbers, count, bitmap, i, 16, byte);
  }

  /** A run of n inputs from input 8 * byte, wholly inside the vector part,
      carries the flags the kernel keeps. */
  lemma KeptSlice(numbers: seq<U64>, count: nat, bitmap: seq<U8>, i: nat, n: nat, byte: nat)
    requires count <= |numbers| && Bytes(count) <= |bitmap|
    requires i == 8 * byte && i + n <= count - count % 16
    ensures StreamFlags(numbers, count, bitmap)[i .. i + n] == KeepFirsts(KernelFlags(numbers)[i .. i + n])
  {
    var g := StreamFlags(numbers, count, bitmap)[i .. i + n];
    var f := KernelFlags(numbers)[i .. i + n];
    var e := KeepFirsts(f);
    forall j | 0 <= j < n
      ensures g[j] == e[j]
    {
      assert g[j] == StreamFlags(numbers, count, bitmap)[i + j];
      assert e[j] == (j % 8 == 0 && f[j]);
      assert f[j] == KernelPasses(numbers[i + j]);
      KeptFlag(numbers, count, bitmap, i + j, j, byte);
    }
  }

  /** Input k = 8 * byte + j of the vector part: its stream flag is the
      kernel's decision when j is a multiple of 8, and clear otherwise. */
  lemma KeptFlag(numbers: seq<U64>, count: nat, bitmap: seq<U8>, k: nat, j: nat, byte: nat)
    requires count <= |numbers| && Bytes(count) <= |bitmap|
    requires k == 8 * byte + j && k < count - count % 16
    ensures StreamFlag(numbers, count, bitmap, k) == (j % 8 == 0 && KernelPasses(numbers[k]))
  {
    EightAligned(byte, j);
  }

  /** Every bit the stream sets below E (count rounded down to a multiple
      of 8) belongs to a surviving input; from E on a set bit may also be
      the prior bit of an input the tail skipped. At every eighth input of
      the vector part the bit is the kernel's decision, and in the scalar
      part the bit of every tried input is its scalar decision. */
  lemma StreamSound(numbers: seq<U64>, count: nat, bitmap: seq<U8>, bm: seq<U8>, i: nat)
    requires count <= |numbers| && Bytes(count) <= |bitmap| && i < count
    requires BitsDone(bm, bitmap, StreamFlags(numbers, count, bitmap), count)
    ensures i / 8 < |bm| && i / 8 < |bitmap|
    ensures BitAt(bm, i) == 1 ==>
      Survives(numbers[i]) || (count - count % 8 <= i && !TailTried(numbers[i]) && BitAt(bitmap, i) == 1)
    ensures i < count - count % 16 && i % 8 == 0 ==> (BitAt(bm, i) == 1 <==> KernelPasses(numbers[i]))
    ensures count - count % 16 <= i && (i < count - count % 8 || TailTried(numbers[i])) ==>
      (BitAt(bm, i) == 1 <==> TailPasses(numbers[i]))
  {
    ReadBits(bm, bitmap, StreamFlags(numbers, count, bitmap), i);
    KernelExactly(numbers[i]);
    TailExactly(numbers[i]);
  }

  /** 4 is no survivor, yet over a prior byte 0xFF a one-input stream
      leaves its bit set: the tail skips 4, whose residue is not coprime to
      210, without setting its mask bit, so the merge keeps the prior bit. */
  lemma StaleTailBit(bm: seq<U8>)
    requires BitsDone(bm, [0xFF], StreamFlags([4], 1, [0xFF]), 1)
    ensures !Survives(4) && BitAt(bm, 0) == 1
  {
    SequentialValues();
    assert ProperlyDivides(SEQUENTIAL.p[0], 4);
    assert !TailTried(4);
    assert Bit(0xFF, 0) == 1;
    assert StreamFlags([4], 1, [0xFF])[0];
    ReadBits(bm, [0xFF], StreamFlags([4], 1, [0xFF]), 0);
  }

  /** The final tail repaired: every input contributes its reference
      outcome and the mask covers every input of the tail, so the low
      count - base bits are the outcomes and only the bits above keep the
      prior byte. */
  method CorrectedTail(numbers: seq<U64>, base: nat, count: nat, prior: U8) returns (b: U8)
    requires base <= count <= |numbers| && count < base + 8
    ensures b == Blend(SurvivorFlags(numbers)[base .. count], prior)
  {
    ghost var f := SurvivorFlags(numbers)[base .. count];
    var last: U8 := 0;
    var mask: U8 := 0;
    var i := base;
    var bit := 0;
    assert f[..0] == [];
    while i < count
      invariant base <= i <= count && bit == i - base
      invariant last == PackBits(f[..bit]) && mask == Pow2(bit) - 1
    {
      var survive := CorrectedLane(numbers[i]);
      SliceExtend(f, 0, bit);
      assert f[0 .. bit] == f[..bit] && f[0 .. bit + 1] == f[..bit + 1];
      last := OrBit(last, f[..bit], bit, survive);
      mask := WidenMask(mask, bit);
      i := i + 1;
      bit := bit + 1;
    }
    assert f[..bit] == f;
    forall j | 0 <= j < |f|
      ensures Bit(last, j) == BoolBit(f[j])
    {
      BitOfPackBits(f, j);
    }
    MergeLow(prior, f, last, mask);
    b := MergeByte(prior, mask, last);
  }
}
