/** `neon_fast` (src/simd_fast.cpp): the 8-lane kernel over the interleaved
    table, its byte stream and its bitmap stream. Both streams agree with
    the scalar reference on every input. */
module Fast {
  import opened Bits
  import opened PrimeTables
  import opened Neon
  import opened Kernels
  import opened Reference
  import opened Pack
  import opened Bitmap
  import opened Lanes

  /** The two survivor registers of an 8-lane block at element offset at:
      the all32 check over the block, `divisible_mask_dual16` on both
      registers (interleaved table order), `vceqq(m, 0)`, and the enable
      step when some input has high bits set. */
  method Block8(ptr: seq<U64>, at: nat) returns (sv1: U32x4, sv2: U32x4)
    requires at + 8 <= |ptr|
    ensures Encodes(sv1, SurvivorFlags(ptr), at) && Encodes(sv2, SurvivorFlags(ptr), at + 4)
    ensures MaskReg(sv1) && MaskReg(sv2)
    ensures MaskFlags(sv1, sv2) == SurvivorFlags(ptr)[at .. at + 8]
  {
    var all32 := All32(ptr, at, 4);
    sv1, sv2 := Block8Masks(ptr, at, INTERLEAVED, all32);
  }

  /** `filter8_u64_barrett16`: eight 0/1 bytes, each the scalar outcome of
      its input. */
  method Filter8(ptr: seq<U64>, at: nat) returns (out: seq<U8>)
    requires at + 8 <= |ptr|
    ensures out == Outcomes(ptr, at, 8)
  {
    var sv1, sv2 := Block8(ptr, at);
    out := BytesFromMask(sv1, sv2);
    BytesAreOutcomes(out, ptr, at, 8);
  }

  /** `filter_stream_u64_barrett16`: out[i] is the scalar outcome of
      numbers[i] for every i < count, and nothing from count on is written. */
  method FilterStream(numbers: seq<U64>, count: nat, out: seq<U8>) returns (res: seq<U8>)
    requires count <= |numbers| && count <= |out|
    ensures |res| == |out|
    ensures forall i | 0 <= i < count :: res[i] == ScalarSurviveBarrett16(numbers[i])
    ensures forall i | count <= i < |out| :: res[i] == out[i]
  {
    res := out;
    var i := 0;
    while i + 16 <= count
      invariant i <= count && OutcomesDone(res, out, numbers, i)
    {
      var lo := Filter8(numbers, i);
      PutOutcomes(res, out, numbers, i, 8);
      res := Store(res, i, lo);
      var hi := Filter8(numbers, i + 8);
      PutOutcomes(res, out, numbers, i + 8, 8);
      res := Store(res, i + 8, hi);
      i := i + 16;
    }
    while i + 8 <= count
      invariant i <= count && OutcomesDone(res, out, numbers, i)
    {
      var block := Filter8(numbers, i);
      PutOutcomes(res, out, numbers, i, 8);
      res := Store(res, i, block);
      i := i + 8;
    }
    while i < count
      invariant i <= count && OutcomesDone(res, out, numbers, i)
    {
      PutOutcomes(res, out, numbers, i, 1);
      ghost var prev := res;
      res := res[i := ScalarSurviveBarrett16(numbers[i])];
      assert res == Store(prev, i, Outcomes(numbers, i, 1));
      i := i + 1;
    }
  }

  /** `bitpack_from_u32_mask` of an 8-lane block: the packed reference
      outcomes of its inputs. */
  method BitpackBlock(ptr: seq<U64>, at: nat) returns (x: U8)
    requires at + 8 <= |ptr|
    ensures x == PackBits(SurvivorFlags(ptr)[at .. at + 8])
  {
    var sv1, sv2 := Block8(ptr, at);
    x := BitpackFromMask(sv1, sv2);
  }

  /** `last |= (s & 1) << b` for a scalar outcome s of 0 or 1. */
  function OrOutcome(last: U8, s: nat, b: nat): (r: U8)
    requires b < 8 && s <= 1
    ensures r == BitOr(last, s * Pow2(b), 8)
  {
    AndLowBit(s, 32);
    Pow2Values();
    BitOrBound(last, BitAnd(s, 1, 32) * Pow2(b), 8);
    BitOr(last, BitAnd(s, 1, 32) * Pow2(b), 8)
  }

  /** `filter_stream_u64_barrett16_bitmap`: the first ceil(count / 8) bytes
      hold the reference outcomes of numbers[0 .. count], bit i % 8 of byte
      i / 8, with the unused high bits of a partial last byte cleared; the
      bytes after them are not written. */
  method BitmapStream(numbers: seq<U64>, count: nat, bitmap: seq<U8>) returns (bm: seq<U8>)
    requires count <= |numbers| && Bytes(count) <= |bitmap|
    ensures |bm| == |bitmap|
    ensures Holds(bm, SurvivorFlags(numbers)[..count])
    ensures forall b | Bytes(count) <= b < |bitmap| :: bm[b] == bitmap[b]
  {
    ghost var f := SurvivorFlags(numbers)[..count];
    bm := bitmap;
    var i := 0;
    var byte := 0;
    while i + 16 <= count
      invariant i <= count && i == 8 * byte && BytesDone(bm, bitmap, f, byte)
    {
      bm := PutBlock(numbers, count, bitmap, f, bm, byte);
      bm := PutBlock(numbers, count, bitmap, f, bm, byte + 1);
      i := i + 16;
      byte := byte + 2;
    }
    while i + 8 <= count
      invariant i <= count && i == 8 * byte && BytesDone(bm, bitmap, f, byte)
    {
      bm := PutBlock(numbers, count, bitmap, f, bm, byte);
      i := i + 8;
      byte := byte + 1;
    }
    if i < count {
      var last := PackTail(numbers, count, i);
      bm := WriteByte(bm, bitmap, f, byte, last);
      byte := byte + 1;
    }
    BytesOf(|f|, byte);
    AllBytesDone(bm, bitmap, f);
  }

  /** `bitmap[byte] = bitpack_from_u32_mask(..)` for the block of eight
      inputs from 8 * byte: the next byte of the bitmap. */
  method PutBlock(numbers: seq<U64>, count: nat, ghost bitmap: seq<U8>, ghost f: seq<bool>, bm: seq<U8>, byte: nat)
    returns (r: seq<U8>)
    requires count <= |numbers| && Bytes(count) <= |bitmap| && f == SurvivorFlags(numbers)[..count]
    requires 8 * byte + 8 <= count && BytesDone(bm, bitmap, f, byte)
    ensures BytesDone(r, bitmap, f, byte + 1)
  {
    var x := BitpackBlock(numbers, 8 * byte);
    FullByte(numbers, count, f, byte);
    r := WriteByte(bm, bitmap, f, byte, x);
  }

  /** The scalar tail of `filter_stream_u64_barrett16_bitmap`: the outcomes
      of the last count - start inputs ORed into a fresh byte, one bit each;
      the byte is the partial last byte of the bitmap. */
  method PackTail(numbers: seq<U64>, count: nat, start: nat) returns (last: U8)
    requires count <= |numbers| && start % 8 == 0 && start < count < start + 8
    ensures start / 8 < Bytes(count)
    ensures last == ByteOf(SurvivorFlags(numbers)[..count], start / 8)
  {
    ghost var f := SurvivorFlags(numbers)[..count];
    last := 0;
    var i := start;
    var b := 0;
    assert f[start .. start] == [];
    while i < count
      invariant start <= i <= count && i == start + b && b < 8
      invariant last == PackBits(f[start .. i])
    {
      var s := ScalarSurviveBarrett16(numbers[i]);
      TailBit(f, start, i, b, s, numbers[i]);
      last := OrOutcome(last, s, b);
      i := i + 1;
      b := b + 1;
    }
    TailByte(f, start);
  }

  /** The partial last byte of a run of flags holds the flags from its
      byte boundary on. */
  lemma TailByte(f: seq<bool>, start: nat)
    requires start % 8 == 0 && start < |f| < start + 8
    ensures start / 8 < Bytes(|f|)
    ensures ByteOf(f, start / 8) == PackBits(f[start .. |f|])
  {
    assert 8 * (start / 8) == start;
  }

  /** One step of the scalar tail: ORing the outcome of input i in at bit
      i - lo extends the packed run f[lo .. i]. */
  lemma TailBit(f: seq<bool>, lo: nat, i: nat, b: nat, s: nat, v: U64)
    requires lo <= i < |f| && b == i - lo < 8 && f[i] == Survives(v) && s == ScalarSurviveBarrett16(v)
    ensures s <= 1 && s == BoolBit(f[i])
    ensures BitOr(PackBits(f[lo .. i]), s * Pow2(b), 8) == PackBits(f[lo .. i + 1])
  {
    AppendBit(f[lo .. i], f[i]);
    assert f[lo .. i + 1] == f[lo .. i] + [f[i]];
  }

  /** A block of eight inputs below count fills one byte of the bitmap. */
  lemma FullByte(numbers: seq<U64>, count: nat, f: seq<bool>, byte: nat)
    requires count <= |numbers| && f == SurvivorFlags(numbers)[..count]
    requires 8 * byte + 8 <= count
    ensures byte < Bytes(count)
    ensures ByteOf(f, byte) == PackBits(SurvivorFlags(numbers)[8 * byte .. 8 * byte + 8])
  {
    assert f[8 * byte .. 8 * byte + 8] == SurvivorFlags(numbers)[8 * byte .. 8 * byte + 8];
  }

  /** The two streams agree: the bitmap read back gives the byte stream's
      outcome at every index. */
  lemma StreamsAgree(numbers: seq<U64>, count: nat, out: seq<U8>, bm: seq<U8>, i: nat)
    requires count <= |numbers| && count <= |out| && i < count
    requires forall j | 0 <= j < count :: out[j] == ScalarSurviveBarrett16(numbers[j])
    requires Holds(bm, SurvivorFlags(numbers)[..count])
    ensures i / 8 < |bm| && BitAt(bm, i) == out[i]
  {
    ReadBack(bm, SurvivorFlags(numbers)[..count], i);
  }
}
