/** `neon_ultra` (src/simd_ultra_fast.cpp): a 16-lane kernel over the
    sequential table, an inlined 8-lane kernel and the scalar tail, composed
    into a byte stream that agrees with the scalar reference everywhere. */
module Ultra {
  import opened PrimeTables
  import opened Neon
  import opened Kernels
  import opened Reference
  import opened Pack
  import opened Lanes

  /** `filter16_u64_barrett16_ultra`: sixteen inputs as four registers, one
      all32 check over all of them, the sixteen primes in table order
      (`PRIME_CONSTS` holds the small primes in slots 0..7 and the extended
      ones in 8..15), the enable step when some input is wide, and the
      sixteen 0/1 bytes. */
  method Filter16(ptr: seq<U64>, at: nat) returns (out: seq<U8>)
    requires at + 16 <= |ptr|
    ensures out == Outcomes(ptr, at, 16)
  {
    var all32 := All32(ptr, at, 8);
    var sv1, sv2 := Block8Masks(ptr, at, SEQUENTIAL, all32);
    var sv3, sv4 := Block8Masks(ptr, at + 8, SEQUENTIAL, all32);
    out := BytesFromMask(sv1, sv2) + BytesFromMask(sv3, sv4);
    SixteenOutcomes(ptr, at, sv1, sv2, sv3, sv4, out);
  }

  lemma SixteenOutcomes(ptr: seq<U64>, at: nat, sv1: U32x4, sv2: U32x4, sv3: U32x4, sv4: U32x4, out: seq<U8>)
    requires at + 16 <= |ptr|
    requires Encodes(sv1, SurvivorFlags(ptr), at) && Encodes(sv2, SurvivorFlags(ptr), at + 4)
    requires Encodes(sv3, SurvivorFlags(ptr), at + 8) && Encodes(sv4, SurvivorFlags(ptr), at + 12)
    requires MaskReg(sv1) && MaskReg(sv2) && MaskReg(sv3) && MaskReg(sv4)
    requires out == BytesFromMask(sv1, sv2) + BytesFromMask(sv3, sv4)
    ensures out == Outcomes(ptr, at, 16)
  {
    var f := SurvivorFlags(ptr);
    MaskFlagsOf(sv1, sv2, f, at);
    MaskFlagsOf(sv3, sv4, f, at + 8);
    var lo := BytesFromMask(sv1, sv2);
    var hi := BytesFromMask(sv3, sv4);
    BytesAreOutcomes(lo, ptr, at, 8);
    BytesAreOutcomes(hi, ptr, at + 8, 8);
    forall k | 0 <= k < 16
      ensures out[k] == Outcomes(ptr, at, 16)[k]
    {
      if k < 8 {
        assert out[k] == Outcomes(ptr, at, 8)[k];
      } else {
        assert out[k] == Outcomes(ptr, at + 8, 8)[k - 8];
      }
    }
  }

  /** The 8-lane block the stream inlines: the sequential table on two
      registers, then the enable step when some input is wide. */
  method Filter8(ptr: seq<U64>, at: nat) returns (out: seq<U8>)
    requires at + 8 <= |ptr|
    ensures out == Outcomes(ptr, at, 8)
  {
    var all32 := All32(ptr, at, 4);
    var sv1, sv2 := Block8Masks(ptr, at, SEQUENTIAL, all32);
    out := BytesFromMask(sv1, sv2);
    EightOutcomes(ptr, at, sv1, sv2, out);
  }

  lemma EightOutcomes(ptr: seq<U64>, at: nat, sv1: U32x4, sv2: U32x4, out: seq<U8>)
    requires at + 8 <= |ptr| && MaskReg(sv1) && MaskReg(sv2)
    requires MaskFlags(sv1, sv2) == SurvivorFlags(ptr)[at .. at + 8]
    requires out == BytesFromMask(sv1, sv2)
    ensures out == Outcomes(ptr, at, 8)
  {
    BytesAreOutcomes(out, ptr, at, 8);
  }

  /** `filter_stream_u64_barrett16_ultra`: pairs of 16-blocks, one more
      16-block, 8-blocks, then the scalar tail (the same loop as
      `scalar_survive_barrett16`). out[i] is the reference outcome of
      numbers[i] for every i < count; nothing from count on is written. */
  method FilterStream(numbers: seq<U64>, count: nat, out: seq<U8>) returns (res: seq<U8>)
    requires count <= |numbers| && count <= |out|
    ensures |res| == |out|
    ensures forall i | 0 <= i < count :: res[i] == ScalarSurviveBarrett16(numbers[i])
    ensures forall i | count <= i < |out| :: res[i] == out[i]
  {
    res := out;
    var i := 0;
    while i + 32 <= count
      invariant i <= count && OutcomesDone(res, out, numbers, i)
    {
      var lo := Filter16(numbers, i);
      PutOutcomes(res, out, numbers, i, 16);
      res := Store(res, i, lo);
      var hi := Filter16(numbers, i + 16);
      PutOutcomes(res, out, numbers, i + 16, 16);
      res := Store(res, i + 16, hi);
      i := i + 32;
    }
    while i + 16 <= count
      invariant i <= count && OutcomesDone(res, out, numbers, i)
    {
      var block := Filter16(numbers, i);
      PutOutcomes(res, out, numbers, i, 16);
      res := Store(res, i, block);
      i := i + 16;
    }
    while i + 8 <= count
      invariant i <= count && OutcomesDone(res, out, numbers, i)
    {
      var block := Filter8(numbers, i);
      PutOutcomes(res, out, numbers, i, 8);
      res := Store(res, i, block);
      i := i + 8;
    }
    while i < count
      invariant i <= count && OutcomesDone(res, out, numbers, i)
    {
      PutOutcomes(res, out, numbers, i, 1);
      ghost var prev := res;
      res := res[i := ScalarSurviveBarrett16(numbers[i])];
      assert res == Store(prev, i, Outcomes(numbers, i, 1));
      i := i + 1;
    }
  }
}
