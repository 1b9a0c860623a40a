/** `neon_wheel210_efficient` (src/simd_wheel210_efficient.cpp): a wheel-30
    residue test and a mod-7 test in front of the trial divisions from slot
    4 (the prime 11) on, a shifted movemask pack, and a bitmap stream whose
    tail sets or clears one bit at a time.

    What the code decides for one input is `Passes` below. It is sound (a
    passing input survives) but not exact: 2, 3 and 5 never pass, and the
    constant for 30 is ceil(2^32 / 30), whose quotient estimate overshoots
    for some inputs and turns their remainder into a huge wrapped value. The
    vector kernel reports only lanes 0 and 8 of every sixteen. */
module Wheel210Efficient {
  import opened Bits
  import opened Barrett
  import opened PrimeTables
  import opened Neon
  import opened Kernels
  import opened Reference
  import opened Pack
  import opened Bitmap
  import opened Lanes
  import opened Wheels
  import Wheel

  /** `MU30`: ceil(2^32 / 30). */
  const MU30: U32 := 143165577

  /** `MU7`: ceil(2^32 / 7). */
  const MU7: U32 := 613566757

  lemma CeilConstants()
    ensures CeilConstant(30, MU30) && CeilConstant(7, MU7)
  {
  }

  /** The inputs both wheel passes let through: they fit in 32 bits, their
      Barrett remainder modulo 30 is one of the eight residues, and 7 does
      not divide them unless they are 7. */
  ghost predicate Candidate(v: nat)
  {
    v < TWO32 && Reduce(v, MU30, 30) in RESIDUES30 && (v % 7 != 0 || v == 7)
  }

  /** What the kernel and the scalar tail decide for one input: a candidate
      that no table prime from 11 on properly divides. */
  ghost predicate Passes(v: nat)
  {
    Candidate(v) && ClearIn(v, SEQUENTIAL, 4, 16)
  }

  /** The decision of every input of a run. */
  ghost function PassFlags(numbers: seq<U64>): (f: seq<bool>)
    ensures |f| == |numbers|
    ensures forall j | 0 <= j < |numbers| :: f[j] == Passes(numbers[j])
  {
    seq(|numbers|, j requires 0 <= j < |numbers| => Passes(numbers[j]))
  }

  /** The reference outcome through the two wheels: fit in 32 bits, 2, 3, 5
      or coprime to 30, not a proper multiple of 7, and clear of the primes
      from 11 on. */
  lemma SurvivesBySeven(v: nat)
    ensures Survives(v) <==>
      (v < TWO32 && (v == 2 || v == 3 || v == 5 || Coprime30(v)) && (v % 7 != 0 || v == 7) && ClearIn(v, SEQUENTIAL, 4, 16))
  {
    SurvivesByWheel30(v);
    SequentialValues();
    ClearSplit(v, SEQUENTIAL, 3, 4, 16);
    assert ClearIn(v, SEQUENTIAL, 3, 4) <==> !ProperlyDivides(SEQUENTIAL.p[3], v);
  }

  /** An input passes exactly when it survives, is not 2, 3 or 5, and the
      Barrett estimate modulo 30 does not overshoot. In particular every
      passing input survives. */
  lemma PassesExactly(v: nat)
    ensures Passes(v) <==> Survives(v) && v != 2 && v != 3 && v != 5 && Reduce(v, MU30, 30) == v % 30
  {
    SurvivesBySeven(v);
    if v < TWO32 {
      CeilConstants();
      CeilSound(v, MU30, 30);
      ResiduesBelow30();
      Residues30(v % 30);
      CoprimeModulo30(v);
    }
  }

  /** 2, 3 and 5 survive but never pass: their residues modulo 30 are not
      among the eight, and nothing exempts them. */
  lemma SmallPrimesRejected()
    ensures Survives(2) && Survives(3) && Survives(5)
    ensures !Passes(2) && !Passes(3) && !Passes(5)
  {
    TablePrimesSurvive();
    SequentialValues();
    assert SEQUENTIAL.p[0] == 2 && SEQUENTIAL.p[1] == 3 && SEQUENTIAL.p[2] == 5;
    PassesExactly(2);
    PassesExactly(3);
    PassesExactly(5);
  }

  /** The prime 306784109 (29 modulo 30) survives, but the ceil constant
      makes its estimate one too large: the remainder wraps to
      2^32 - 31, which is no residue, and the input is rejected. */
  lemma CeilMisses()
    ensures Survives(306784109) && !Passes(306784109)
    ensures Reduce(306784109, MU30, 30) == TWO32 - 31
  {
    var v := 306784109;
    assert Quotient(v, MU30) == 10226137;
    assert RawRemainder(v, MU30, 30) == TWO32 - 1;
    ClearOf306784109();
    SurvivesBySeven(v);
    PassesExactly(v);
  }

  lemma ClearOf306784109()
    ensures 306784109 % 30 == 29 && 306784109 % 7 != 0
    ensures ClearIn(306784109, SEQUENTIAL, 4, 16)
  {
    SequentialValues();
    var v := 306784109;
    forall j | 4 <= j < 16
      ensures !ProperlyDivides(SEQUENTIAL.p[j], v)
    {
      assert v % 11 != 0 && v % 13 != 0 && v % 17 != 0 && v % 19 != 0;
      assert v % 23 != 0 && v % 29 != 0 && v % 31 != 0 && v % 37 != 0;
      assert v % 41 != 0 && v % 43 != 0 && v % 47 != 0 && v % 53 != 0;
    }
  }

  /** The scalar lane with both faults repaired: the floor constant for 30
      and the 2/3/5 exemption of `neon_wheel`, then the mod-7 test and the
      trial divisions from 11 on. It decides exactly the reference outcome. */
  method CorrectedLane(v: U64) returns (ok: bool)
    ensures ok <==> Survives(v)
  {
    SurvivesBySeven(v);
    if v > 0xFFFF_FFFF {
      return false;
    }
    Wheel.Wheel30Exact(v);
    Residues30(v % 30);
    CoprimeModulo30(v);
    var r30 := Reduce(v, Wheel.MU30, 30);
    var wheel30 := v == 2 || v == 3 || v == 5 || r30 in RESIDUES30;
    if !wheel30 {
      return false;
    }
    CeilConstants();
    CeilSound(v, MU7, 7);
    var r7 := Reduce(v, MU7, 7);
    if r7 == 0 && v != 7 {
      return false;
    }
    ok := TrialTail(v, 4);
  }

  /** `wheel210_pass`: the wheel-30 mask ANDed with `~vceqq(r7, 0) |
      vceqq(n, 7)`, r7 the Barrett remainder modulo 7. With the ceil
      constant r7 is 0 exactly on the multiples of 7. */
  function Wheel210Pass(n: U32x4, w30: U32x4): (w: U32x4)
    requires forall i | 0 <= i < 4 :: IsMask(w30[i])
    ensures forall i | 0 <= i < 4 :: IsMask(w[i]) && (w[i] == 0 <==> w30[i] == 0 || (n[i] % 7 == 0 && n[i] != 7))
  {
    var r7 := BarrettReg(n, VDup(MU7), VDup(7));
    var z := VCeqq(r7, VDup(0));
    var e7 := VCeqq(n, VDup(7));
    SevenLanes(n, r7);
    MaskLanes(VMvnq(z), e7);
    var ok7 := VOrrq(VMvnq(z), e7);
    MaskLanes(w30, ok7);
    VAndq(w30, ok7)
  }

  lemma SevenLanes(n: U32x4, r7: U32x4)
    requires forall i | 0 <= i < 4 :: r7[i] == Reduce(n[i], MU7, 7)
    ensures forall i | 0 <= i < 4 :: r7[i] == 0 <==> n[i] % 7 == 0
  {
    CeilConstants();
    forall i | 0 <= i < 4
      ensures r7[i] == 0 <==> n[i] % 7 == 0
    {
      CeilSound(n[i], MU7, 7);
    }
  }

  /** w is a mask register passing exactly the candidates among the four
      inputs at off. */
  ghost predicate CandidateLanes(w: U32x4, ptr: seq<U64>, off: nat)
    requires off + 4 <= |ptr|
  {
    forall i | 0 <= i < 4 :: IsMask(w[i]) && (w[i] == 0 <==> !Candidate(ptr[off + i]))
  }

  /** One wheel register of `filter16_u64_wheel210_efficient`:
      `wheel30_pass`, `wheel210_pass`, and the enable step when some input
      of the block has high bits set. */
  method WheelPass(ptr: seq<U64>, off: nat, all32: bool) returns (w: U32x4)
    requires off + 4 <= |ptr|
    requires all32 ==> forall j | off <= j < off + 4 :: ptr[j] < TWO32
    ensures CandidateLanes(w, ptr, off)
  {
    var n := LoadReg(ptr, off);
    var w30 := Wheel30Mask(n, MU30);
    var w210 := Wheel210Pass(n, w30);
    WheelPassLanes(ptr, off, n, w30, w210);
    w := Enable(w210, ptr, off, all32);
  }

  lemma WheelPassLanes(ptr: seq<U64>, off: nat, n: U32x4, w30: U32x4, w: U32x4)
    requires off + 4 <= |ptr| && n == LoadReg(ptr, off)
    requires forall i | 0 <= i < 4 :: w30[i] == 0 <==> Reduce(n[i], MU30, 30) !in RESIDUES30
    requires forall i | 0 <= i < 4 :: w[i] == 0 <==> w30[i] == 0 || (n[i] % 7 == 0 && n[i] != 7)
    ensures forall i | 0 <= i < 4 && ptr[off + i] < TWO32 :: w[i] == 0 <==> !Candidate(ptr[off + i])
  {
    forall i | 0 <= i < 4 && ptr[off + i] < TWO32
      ensures w[i] == 0 <==> !Candidate(ptr[off + i])
    {
      CandidateLane(ptr[off + i], n[i], w30[i], w[i]);
    }
  }

  lemma CandidateLane(v: nat, n: nat, w30: nat, w: nat)
    requires v < TWO32 && n == v % TWO32
    requires w30 == 0 <==> Reduce(n, MU30, 30) !in RESIDUES30
    requires w == 0 <==> w30 == 0 || (n % 7 == 0 && n != 7)
    ensures w == 0 <==> !Candidate(v)
  {
    assert n == v;
  }

  /** `sv = vandq(wheel, vceqq(m, 0))`, m the composite mask of the slots
      4..15 gated by the wheel: the register encodes the decisions of its
      four inputs. */
  method PassSurvivors(ptr: seq<U64>, off: nat, w: U32x4) returns (sv: U32x4)
    requires off + 4 <= |ptr| && CandidateLanes(w, ptr, off)
    ensures Encodes(sv, PassFlags(ptr), off)
  {
    SequentialValid();
    var n := LoadReg(ptr, off);
    var s := Survivors(GatedMask(n, w, SEQUENTIAL, 4, 16));
    AndMaskLanes(s, w);
    PassLanes(ptr, off, w, n, s);
    sv := VAndq(w, s);
  }

  lemma PassLanes(ptr: seq<U64>, off: nat, w: U32x4, n: U32x4, s: U32x4)
    requires off + 4 <= |ptr| && CandidateLanes(w, ptr, off) && n == LoadReg(ptr, off)
    requires |SEQUENTIAL.p| == 16
    requires forall i | 0 <= i < 4 :: s[i] == if w[i] == 0 || ClearIn(n[i], SEQUENTIAL, 4, 16) then ALL_ONES else 0
    ensures forall i | 0 <= i < 4 ::
      (if w[i] == ALL_ONES then s[i] else 0) == if Passes(ptr[off + i]) then ALL_ONES else 0
  {
    forall i | 0 <= i < 4
      ensures (if w[i] == ALL_ONES then s[i] else 0) == if Passes(ptr[off + i]) then ALL_ONES else 0
    {
      PassLane(ptr[off + i], n[i], w[i], s[i]);
    }
  }

  lemma PassLane(v: nat, n: nat, w: nat, s: nat)
    requires |SEQUENTIAL.p| == 16 && n == v % TWO32
    requires IsMask(w) && (w == 0 <==> !Candidate(v))
    requires s == if w == 0 || ClearIn(n, SEQUENTIAL, 4, 16) then ALL_ONES else 0
    ensures (if w == ALL_ONES then s else 0) == if Passes(v) then ALL_ONES else 0
  {
    if v < TWO32 {
      assert n == v;
    }
  }

  /** The early return: when the OR of the four horizontal maxima is 0, no
      input of the block is a candidate and 0 is what the full path would
      have packed. */
  lemma NoneSurvive(ptr: seq<U64>, at: nat, w1: U32x4, w2: U32x4, w3: U32x4, w4: U32x4)
    requires at + 16 <= |ptr|
    requires CandidateLanes(w1, ptr, at) && CandidateLanes(w2, ptr, at + 4)
    requires CandidateLanes(w3, ptr, at + 8) && CandidateLanes(w4, ptr, at + 12)
    requires BitOr(BitOr(BitOr(VMaxvq(w1), VMaxvq(w2), 32), VMaxvq(w3), 32), VMaxvq(w4), 32) == 0
    ensures PackBits(KeepFirsts(PassFlags(ptr)[at .. at + 16])) == 0
  {
    OrAllZero(VMaxvq(w1), VMaxvq(w2), VMaxvq(w3), VMaxvq(w4));
    NoCandidate(w1, ptr, at);
    NoCandidate(w2, ptr, at + 4);
    NoCandidate(w3, ptr, at + 8);
    NoCandidate(w4, ptr, at + 12);
    var f := KeepFirsts(PassFlags(ptr)[at .. at + 16]);
    assert forall j | 0 <= j < 16 :: f[j] ==> Passes(ptr[at + j]);
    PackNone(f);
  }

  lemma NoCandidate(w: U32x4, ptr: seq<U64>, off: nat)
    requires off + 4 <= |ptr| && CandidateLanes(w, ptr, off) && VMaxvq(w) == 0
    ensures forall j | off <= j < off + 4 :: !Passes(ptr[j])
  {
    forall j | off <= j < off + 4
      ensures !Passes(ptr[j])
    {
      assert w[j - off] <= VMaxvq(w);
    }
  }

  /** `filter16_u64_wheel210_efficient`: the decisions of the sixteen inputs
      at `at`, of which the shifted pack keeps bit 0 (input at) and bit 8
      (input at + 8) only. */
  method Filter16(ptr: seq<U64>, at: nat) returns (x: U16)
    requires at + 16 <= |ptr|
    ensures x == PackBits(KeepFirsts(PassFlags(ptr)[at .. at + 16]))
  {
    var all32 := All32(ptr, at, 8);
    var w1 := WheelPass(ptr, at, all32);
    var w2 := WheelPass(ptr, at + 4, all32);
    var w3 := WheelPass(ptr, at + 8, all32);
    var w4 := WheelPass(ptr, at + 12, all32);
    if BitOr(BitOr(BitOr(VMaxvq(w1), VMaxvq(w2), 32), VMaxvq(w3), 32), VMaxvq(w4), 32) == 0 {
      NoneSurvive(ptr, at, w1, w2, w3, w4);
      return 0;
    }
    var sv1 := PassSurvivors(ptr, at, w1);
    var sv2 := PassSurvivors(ptr, at + 4, w2);
    var sv3 := PassSurvivors(ptr, at + 8, w3);
    var sv4 := PassSurvivors(ptr, at + 12, w4);
    SixteenFlags(sv1, sv2, sv3, sv4, PassFlags(ptr), at);
    x := Bitpack16Shifted(sv1, sv2, sv3, sv4);
  }

  /** One input of the scalar tail: above 32 bits it fails; otherwise the
      wheel-30 residue test (scalar Barrett with one corrective subtract),
      the mod-7 test and the trial divisions from slot 4 on, each skipping a
      prime equal to the input. */
  method ScalarPass(v: U64) returns (survive: bool)
    ensures survive <==> Passes(v)
  {
    survive := false;
    if v <= 0xFFFF_FFFF {
      var r30 := Reduce(v, MU30, 30);
      var wheel30 := r30 in RESIDUES30;
      if wheel30 {
        CeilConstants();
        CeilSound(v, MU7, 7);
        var r7 := Reduce(v, MU7, 7);
        if r7 != 0 || v == 7 {
          survive := TrialTail(v, 4);
        }
      }
    }
  }

  /** The flags the stream writes for numbers[0 .. count]: below the end of
      the vector part (count rounded down to a multiple of 16) only the
      decision of every eighth input, from there on every decision. */
  ghost function StreamFlags(numbers: seq<U64>, count: nat): (g: seq<bool>)
    requires count <= |numbers|
    ensures |g| == count
    ensures forall j | 0 <= j < count ::
      g[j] == if j < count - count % 16 then j % 8 == 0 && Passes(numbers[j]) else Passes(numbers[j])
  {
    seq(count, j requires 0 <= j < count =>
      if j < count - count % 16 then j % 8 == 0 && Passes(numbers[j]) else Passes(numbers[j]))
  }

  /** `filter_stream_u64_wheel210_efficient_bitmap`: 32-input words, one
      16-input word, then the remaining inputs bit by bit in place. The
      first count bits of the bitmap are StreamFlags, the high bits of a
      partial last byte keep their prior contents, and later bytes are not
      written. */
  method BitmapStream(numbers: seq<U64>, count: nat, bitmap: seq<U8>) returns (bm: seq<U8>)
    requires count <= |numbers| && Bytes(count) <= |bitmap|
    ensures BitsDone(bm, bitmap, StreamFlags(numbers, count), count)
  {
    ghost var g := StreamFlags(numbers, count);
    var i;
    bm, i := VectorPart(numbers, count, bitmap);
    while i < count
      invariant count - count % 16 <= i <= count && BitsDone(bm, bitmap, g, i)
    {
      bm := TailBit(numbers, count, bitmap, bm, i);
      i := i + 1;
    }
  }

  /** One input of the scalar tail: its decision written in place at bit i. */
  method TailBit(numbers: seq<U64>, count: nat, ghost bitmap: seq<U8>, bm: seq<U8>, i: nat) returns (r: seq<U8>)
    requires count <= |numbers| && count - count % 16 <= i < count
    requires BitsDone(bm, bitmap, StreamFlags(numbers, count), i)
    ensures BitsDone(r, bitmap, StreamFlags(numbers, count), i + 1)
  {
    var survive := ScalarPass(numbers[i]);
    r := PutBit(bm, bitmap, StreamFlags(numbers, count), i, survive);
  }

  /** The vector part of the stream: 32-input words while 32 inputs remain,
      then one 16-input word if 16 do. It ends at count rounded down to a
      multiple of 16, with every byte before it written. */
  method VectorPart(numbers: seq<U64>, count: nat, bitmap: seq<U8>) returns (bm: seq<U8>, i: nat)
    requires count <= |numbers| && Bytes(count) <= |bitmap|
    ensures i == count - count % 16
    ensures BitsDone(bm, bitmap, StreamFlags(numbers, count), i)
  {
    ghost var g := StreamFlags(numbers, count);
    bm := bitmap;
    i := 0;
    var byte := 0;
    ghost var h := 0;
    while i + 32 <= count
      invariant i <= count && i == 8 * byte && i == 16 * h && BytesDone(bm, bitmap, g, byte)
    {
      InVector(count, h, 2);
      bm := PutWords(numbers, count, bitmap, bm, byte, 4);
      i := i + 32;
      byte := byte + 4;
      h := h + 2;
    }
    if i + 16 <= count {
      InVector(count, h, 1);
      bm := PutWords(numbers, count, bitmap, bm, byte, 2);
      i := i + 16;
      byte := byte + 2;
      h := h + 1;
    }
    TailStart(count, h);
    StartBits(bm, bitmap, g, byte);
  }

  /** Stores the next k bytes of the vector part at byte `byte`: k = 4 for
      a 32-input block and k = 2 for a 16-input one. The bytes before
      `byte` are already written. */
  method PutWords(numbers: seq<U64>, count: nat, ghost bitmap: seq<U8>, bm: seq<U8>, byte: nat, k: nat)
    returns (r: seq<U8>)
    requires count <= |numbers| && Bytes(count) <= |bitmap| && (k == 2 || k == 4)
    requires 8 * byte + 8 * k <= count - count % 16
    requires BytesDone(bm, bitmap, StreamFlags(numbers, count), byte)
    ensures BytesDone(r, bitmap, StreamFlags(numbers, count), byte + k)
  {
    ghost var g := StreamFlags(numbers, count);
    assert 8 * byte + 8 * k <= |g| && byte + k <= |bm|;
    var x: nat;
    if k == 4 {
      x := Word32(numbers, count, 8 * byte, byte);
    } else {
      x := Word16(numbers, count, 8 * byte, byte);
    }
    r := WriteWord(bm, bitmap, g, byte, k, x);
  }

  /** `b0 | (uint32_t(b1) << 16)` of the kernels at i and i + 16: the
      stream flags of those 32 inputs. */
  method Word32(numbers: seq<U64>, count: nat, i: nat, ghost byte: nat) returns (word: U32)
    requires count <= |numbers| && i == 8 * byte && i + 32 <= count - count % 16
    ensures word == PackBits(StreamFlags(numbers, count)[i .. i + 32])
  {
    var b0 := Filter16(numbers, i);
    var b1 := Filter16(numbers, i + 16);
    word := Pack32(b0, b1);
    KeptSlice(numbers, count, i, 16, byte);
    KeptSlice(numbers, count, i + 16, 16, byte + 2);
    PackWord32(StreamFlags(numbers, count), i, b0, b1, word);
  }

  /** The kernel at i inside the vector part: the stream flags of its 16
      inputs. */
  method Word16(numbers: seq<U64>, count: nat, i: nat, ghost byte: nat) returns (b: U16)
    requires count <= |numbers| && i == 8 * byte && i + 16 <= count - count % 16
    ensures b == PackBits(StreamFlags(numbers, count)[i .. i + 16])
  {
    b := Filter16(numbers, i);
    KeptSlice(numbers, count, i, 16, byte);
  }

  /** A run of n inputs from input 8 * byte, wholly inside the vector part,
      carries the flags the kernel keeps. */
  lemma KeptSlice(numbers: seq<U64>, count: nat, i: nat, n: nat, byte: nat)
    requires count <= |numbers| && i == 8 * byte && i + n <= count - count % 16
    ensures StreamFlags(numbers, count)[i .. i + n] == KeepFirsts(PassFlags(numbers)[i .. i + n])
  {
    var g := StreamFlags(numbers, count)[i .. i + n];
    var f := PassFlags(numbers)[i .. i + n];
    var e := KeepFirsts(f);
    forall j | 0 <= j < n
      ensures g[j] == e[j]
    {
      assert g[j] == StreamFlags(numbers, count)[i + j];
      assert e[j] == (j % 8 == 0 && f[j]);
      assert f[j] == Passes(numbers[i + j]);
      KeptFlag(numbers, count, i + j, j, byte);
    }
  }

  /** Input k = 8 * byte + j of the vector part: its stream flag is the
      decision when j is a multiple of 8, and clear otherwise. */
  lemma KeptFlag(numbers: seq<U64>, count: nat, k: nat, j: nat, byte: nat)
    requires count <= |numbers| && k == 8 * byte + j && k < count - count % 16
    ensures StreamFlags(numbers, count)[k] == (j % 8 == 0 && Passes(numbers[k]))
  {
    EightAligned(byte, j);
  }

  /** Every bit the stream sets belongs to a surviving input; from the end of
      the vector part on, and at every eighth input before it, the bit is
      the decision itself. */
  lemma StreamSound(numbers: seq<U64>, count: nat, bitmap: seq<U8>, bm: seq<U8>, i: nat)
    requires count <= |numbers| && i < count
    requires BitsDone(bm, bitmap, StreamFlags(numbers, count), count)
    ensures i / 8 < |bm|
    ensures BitAt(bm, i) == 1 ==> Survives(numbers[i])
    ensures (i >= count - count % 16 || i % 8 == 0) ==> (BitAt(bm, i) == 1 <==> Passes(numbers[i]))
  {
    ReadBits(bm, bitmap, StreamFlags(numbers, count), i);
    PassesExactly(numbers[i]);
  }
}
