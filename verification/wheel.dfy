/** `neon_wheel` (src/simd_wheel.cpp): a wheel-30 prefilter in front of the
    trial divisions from slot 3 (the prime 7) on, a bitmap stream built from
    16-lane kernels and scalar bytes, and a byte stream read back from that
    bitmap. With the floor constant for 30 and the 2/3/5 exemption, every
    path agrees with the reference outcome. */
module Wheel {
  import opened Bits
  import opened Barrett
  import opened PrimeTables
  import opened Neon
  import opened Kernels
  import opened Reference
  import opened Pack
  import opened Bitmap
  import opened Lanes
  import opened Wheels

  /** `MU30`: floor(2^32 / 30). */
  const MU30: U32 := 143165576

  /** The constant for 30 is the floor constant, so `wheel30_mask` reduces
      every 32-bit lane exactly and keeps precisely the lanes coprime to 30. */
  lemma Wheel30Exact(n: nat)
    requires n < TWO32
    ensures FloorConstant(30, MU30)
    ensures Reduce(n, MU30, 30) == n % 30
    ensures Reduce(n, MU30, 30) in RESIDUES30 <==> Coprime30(n)
  {
    FloorExact(n, MU30, 30);
    Residues30(n % 30);
    CoprimeModulo30(n);
  }

  /** The inputs the wheel lets through to the trial divisions: those that
      fit in 32 bits and are 2, 3, 5 or coprime to 30. */
  ghost predicate WheelCandidate(v: nat)
  {
    v < TWO32 && (v == 2 || v == 3 || v == 5 || Coprime30(v))
  }

  /** w is a mask register passing exactly the wheel candidates among the
      four inputs at off. */
  ghost predicate WheelLanes(w: U32x4, ptr: seq<U64>, off: nat)
    requires off + 4 <= |ptr|
  {
    forall i | 0 <= i < 4 :: IsMask(w[i]) && (w[i] == 0 <==> !WheelCandidate(ptr[off + i]))
  }

  /** `wheel |= vceqq(n, 2); wheel |= vceqq(n, 3); wheel |= vceqq(n, 5)`. */
  function SmallPrimesPass(n: U32x4, w: U32x4): (r: U32x4)
    requires MaskReg(w)
    ensures MaskReg(r)
    ensures forall i | 0 <= i < 4 :: r[i] == 0 <==> w[i] == 0 && n[i] != 2 && n[i] != 3 && n[i] != 5
  {
    var e2 := VCeqq(n, VDup(2));
    var e3 := VCeqq(n, VDup(3));
    var e5 := VCeqq(n, VDup(5));
    MaskLanes(w, e2);
    var w2 := VOrrq(w, e2);
    MaskLanes(w2, e3);
    var w3 := VOrrq(w2, e3);
    MaskLanes(w3, e5);
    VOrrq(w3, e5)
  }

  /** `wheel30_mask` with the floor constant: it passes exactly the lanes
      coprime to 30. */
  function Wheel30(n: U32x4): (w: U32x4)
    ensures MaskReg(w)
    ensures forall i | 0 <= i < 4 :: w[i] == 0 <==> !Coprime30(n[i])
  {
    var w := Wheel30Mask(n, MU30);
    Wheel30Lanes(n, w);
    w
  }

  lemma Wheel30Lanes(n: U32x4, w: U32x4)
    requires forall i | 0 <= i < 4 :: w[i] == 0 <==> Reduce(n[i], MU30, 30) !in RESIDUES30
    ensures forall i | 0 <= i < 4 :: w[i] == 0 <==> !Coprime30(n[i])
  {
    forall i | 0 <= i < 4
      ensures w[i] == 0 <==> !Coprime30(n[i])
    {
      Wheel30Exact(n[i]);
    }
  }

  /** One wheel register of `filter16_u64_wheel_bitmap`: `wheel30_mask`, the
      2/3/5 exemption, and the enable step when some input of the block has
      high bits set. */
  method WheelPass(ptr: seq<U64>, off: nat, all32: bool) returns (w: U32x4)
    requires off + 4 <= |ptr|
    requires all32 ==> forall j | off <= j < off + 4 :: ptr[j] < TWO32
    ensures WheelLanes(w, ptr, off)
  {
    var n := LoadReg(ptr, off);
    var w30 := SmallPrimesPass(n, Wheel30(n));
    WheelPassLanes(ptr, off, n, w30);
    w := Enable(w30, ptr, off, all32);
  }

  lemma WheelPassLanes(ptr: seq<U64>, off: nat, n: U32x4, w: U32x4)
    requires off + 4 <= |ptr| && n == LoadReg(ptr, off)
    requires forall i | 0 <= i < 4 :: w[i] == 0 <==> !Coprime30(n[i]) && n[i] != 2 && n[i] != 3 && n[i] != 5
    ensures forall i | 0 <= i < 4 && ptr[off + i] < TWO32 :: w[i] == 0 <==> !WheelCandidate(ptr[off + i])
  {
    forall i | 0 <= i < 4 && ptr[off + i] < TWO32
      ensures w[i] == 0 <==> !WheelCandidate(ptr[off + i])
    {
      assert n[i] == ptr[off + i];
    }
  }

  /** `sv = vandq(wheel, vceqq(m, 0))`, m the composite mask of the slots
      3..15 gated by the wheel: the register encodes the reference outcomes
      of its four inputs. */
  method WheelSurvivors(ptr: seq<U64>, off: nat, w: U32x4) returns (sv: U32x4)
    requires off + 4 <= |ptr| && WheelLanes(w, ptr, off)
    ensures Encodes(sv, SurvivorFlags(ptr), off)
  {
    SequentialValid();
    var n := LoadReg(ptr, off);
    var s := Survivors(GatedMask(n, w, SEQUENTIAL, 3, 16));
    AndMaskLanes(s, w);
    SurvivorLanes(ptr, off, w, n, s);
    sv := VAndq(w, s);
  }

  lemma SurvivorLanes(ptr: seq<U64>, off: nat, w: U32x4, n: U32x4, s: U32x4)
    requires off + 4 <= |ptr| && WheelLanes(w, ptr, off) && n == LoadReg(ptr, off)
    requires |SEQUENTIAL.p| == 16
    requires forall i | 0 <= i < 4 :: s[i] == if w[i] == 0 || ClearIn(n[i], SEQUENTIAL, 3, 16) then ALL_ONES else 0
    ensures forall i | 0 <= i < 4 ::
      (if w[i] == ALL_ONES then s[i] else 0) == if Survives(ptr[off + i]) then ALL_ONES else 0
  {
    forall i | 0 <= i < 4
      ensures (if w[i] == ALL_ONES then s[i] else 0) == if Survives(ptr[off + i]) then ALL_ONES else 0
    {
      SurvivorLane(ptr[off + i], n[i], w[i], s[i]);
    }
  }

  lemma SurvivorLane(v: nat, n: nat, w: nat, s: nat)
    requires |SEQUENTIAL.p| == 16 && n == v % TWO32
    requires IsMask(w) && (w == 0 <==> !WheelCandidate(v))
    requires s == if w == 0 || ClearIn(n, SEQUENTIAL, 3, 16) then ALL_ONES else 0
    ensures (if w == ALL_ONES then s else 0) == if Survives(v) then ALL_ONES else 0
  {
    SurvivesByWheel30(v);
    if v < TWO32 {
      assert n == v;
    }
  }

  /** The early return of `filter16_u64_wheel_bitmap`: when the OR of the
      four horizontal maxima is 0, no lane is a wheel candidate, so none of
      the sixteen inputs survives and 0 is the right answer. */
  lemma NoneSurvive(ptr: seq<U64>, at: nat, w1: U32x4, w2: U32x4, w3: U32x4, w4: U32x4)
    requires at + 16 <= |ptr|
    requires WheelLanes(w1, ptr, at) && WheelLanes(w2, ptr, at + 4)
    requires WheelLanes(w3, ptr, at + 8) && WheelLanes(w4, ptr, at + 12)
    requires BitOr(BitOr(BitOr(VMaxvq(w1), VMaxvq(w2), 32), VMaxvq(w3), 32), VMaxvq(w4), 32) == 0
    ensures PackBits(SurvivorFlags(ptr)[at .. at + 16]) == 0
  {
    OrAllZero(VMaxvq(w1), VMaxvq(w2), VMaxvq(w3), VMaxvq(w4));
    NoCandidate(w1, ptr, at);
    NoCandidate(w2, ptr, at + 4);
    NoCandidate(w3, ptr, at + 8);
    NoCandidate(w4, ptr, at + 12);
    var f := SurvivorFlags(ptr)[at .. at + 16];
    assert forall j | 0 <= j < 16 :: f[j] == Survives(ptr[at + j]);
    PackNone(f);
  }

  /** A wheel register whose horizontal maximum is 0 rejects its four
      inputs, and none of them survives. */
  lemma NoCandidate(w: U32x4, ptr: seq<U64>, off: nat)
    requires off + 4 <= |ptr| && WheelLanes(w, ptr, off) && VMaxvq(w) == 0
    ensures forall j | off <= j < off + 4 :: !Survives(ptr[j])
  {
    forall j | off <= j < off + 4
      ensures !Survives(ptr[j])
    {
      assert w[j - off] <= VMaxvq(w);
      SurvivesByWheel30(ptr[j]);
    }
  }

  /** `filter16_u64_wheel_bitmap`: bit j of the result is the reference
      outcome of input at + j. */
  method Filter16(ptr: seq<U64>, at: nat) returns (x: U16)
    requires at + 16 <= |ptr|
    ensures x == PackBits(SurvivorFlags(ptr)[at .. at + 16])
  {
    var all32 := All32(ptr, at, 8);
    var w1 := WheelPass(ptr, at, all32);
    var w2 := WheelPass(ptr, at + 4, all32);
    var w3 := WheelPass(ptr, at + 8, all32);
    var w4 := WheelPass(ptr, at + 12, all32);
    if BitOr(BitOr(BitOr(VMaxvq(w1), VMaxvq(w2), 32), VMaxvq(w3), 32), VMaxvq(w4), 32) == 0 {
      NoneSurvive(ptr, at, w1, w2, w3, w4);
      return 0;
    }
    var sv1 := WheelSurvivors(ptr, at, w1);
    var sv2 := WheelSurvivors(ptr, at + 4, w2);
    var sv3 := WheelSurvivors(ptr, at + 8, w3);
    var sv4 := WheelSurvivors(ptr, at + 12, w4);
    SixteenFlags(sv1, sv2, sv3, sv4, SurvivorFlags(ptr), at);
    x := Bitpack16Masks(sv1, sv2, sv3, sv4);
  }

  /** The scalar lane of the stream's 8-block and final tail: inputs above
      32 bits are skipped, 2, 3 and 5 set their bit at once, other multiples
      of 2, 3 or 5 are skipped, and the rest go through the trial loop from
      slot 3 (the prime 7) on. */
  method ScalarLane(v: U64) returns (ok: bool)
    ensures ok <==> Survives(v)
  {
    if v > 0xFFFF_FFFF {
      SurvivesByWheel30(v);
      return false;
    }
    if v == 2 || v == 3 || v == 5 {
      SurvivesByWheel30(v);
      return true;
    }
    if v % 2 == 0 || v % 3 == 0 || v % 5 == 0 {
      SurvivesByWheel30(v);
      return false;
    }
    SurvivesByWheel30(v);
    ok := TrialTail(v, 3);
  }

  /** The scalar loops of `filter_stream_u64_wheel_bitmap` (its one 8-block
      and its final tail): a fresh byte, `byte |= 1 << bit` for every input
      that passes, while bit < 8 and inputs remain. Started at input
      8 * byte, it yields byte `byte` of the bitmap, high bits cleared when
      the run is short. */
  method ScalarByte(numbers: seq<U64>, count: nat, byte: nat) returns (x: U8)
    requires count <= |numbers| && 8 * byte < count
    ensures byte < Bytes(count)
    ensures x == ByteOf(SurvivorFlags(numbers)[..count], byte)
  {
    ghost var f := SurvivorFlags(numbers)[..count];
    ghost var g: seq<bool> := [];
    var start := 8 * byte;
    x := 0;
    var i := start;
    var bit := 0;
    while bit < 8 && i < count
      invariant start <= i <= count && i == start + bit && bit <= 8
      invariant g == f[start .. i] && x == PackBits(g)
    {
      var ok := ScalarLane(numbers[i]);
      SliceExtend(f, start, i);
      x := OrBit(x, g, bit, ok);
      g := g + [ok];
      i := i + 1;
      bit := bit + 1;
    }
  }

  /** The 32-bit word of a 32-input step: two 16-lane kernels, the second
      shifted up by 16. */
  lemma Word32(numbers: seq<U64>, i: nat, b0: nat, b1: nat, packed: nat)
    requires i + 32 <= |numbers|
    requires b0 == PackBits(SurvivorFlags(numbers)[i .. i + 16])
    requires b1 == PackBits(SurvivorFlags(numbers)[i + 16 .. i + 32])
    requires packed == b0 + TWO16 * b1
    ensures packed == PackBits(SurvivorFlags(numbers)[i .. i + 32])
  {
    var f := SurvivorFlags(numbers);
    Pow2Values();
    PackJoin(f[i .. i + 16], f[i + 16 .. i + 32], b0, b1, 16);
    assert f[i .. i + 32] == f[i .. i + 16] + f[i + 16 .. i + 32];
  }

  /** `filter_stream_u64_wheel_bitmap`: the first ceil(count / 8) bytes hold
      the reference outcomes of numbers[0 .. count], bit i % 8 of byte i / 8,
      with the unused high bits of a partial last byte cleared; the bytes
      after them are not written. The 32- and 16-input words are stored
      little-endian, as `memcpy` of a `uint32_t` / `uint16_t` does on ARM. */
  method BitmapStream(numbers: seq<U64>, count: nat, bitmap: seq<U8>) returns (bm: seq<U8>)
    requires count <= |numbers| && Bytes(count) <= |bitmap|
    ensures |bm| == |bitmap|
    ensures Holds(bm, SurvivorFlags(numbers)[..count])
    ensures forall b | Bytes(count) <= b < |bitmap| :: bm[b] == bitmap[b]
  {
    ghost var f := SurvivorFlags(numbers)[..count];
    bm := bitmap;
    var i := 0;
    var byte := 0;
    while i + 32 <= count
      invariant i <= count && i == 8 * byte && BytesDone(bm, bitmap, f, byte)
    {
      var b0 := Filter16(numbers, i);
      var b1 := Filter16(numbers, i + 16);
      var packed := Pack32(b0, b1);
      Word32(numbers, i, b0, b1, packed);
      WordOf(numbers, count, f, byte, 4, packed);
      bm := WriteWord(bm, bitmap, f, byte, 4, packed);
      i := i + 32;
      byte := byte + 4;
    }
    bm := StreamTail(numbers, count, bitmap, bm, byte);
    AllBytesDone(bm, bitmap, f);
  }

  /** The rest of `filter_stream_u64_wheel_bitmap` after the 32-input loop,
      from input i = 8 * byte: one 16-lane kernel if 16 inputs remain, one
      scalar byte if 8 remain, then the scalar byte of the final partial
      run, each written at `bitmap + (i >> 3)`. */
  method StreamTail(numbers: seq<U64>, count: nat, ghost bitmap: seq<U8>, bm: seq<U8>, byte: nat)
    returns (r: seq<U8>)
    requires count <= |numbers| && 8 * byte <= count < 8 * byte + 32
    requires BytesDone(bm, bitmap, SurvivorFlags(numbers)[..count], byte) && Bytes(count) <= |bitmap|
    ensures BytesDone(r, bitmap, SurvivorFlags(numbers)[..count], Bytes(count))
  {
    ghost var f := SurvivorFlags(numbers)[..count];
    r := bm;
    var i := 8 * byte;
    var at := byte;
    if i + 16 <= count {
      var bits := Filter16(numbers, i);
      WordOf(numbers, count, f, at, 2, bits);
      r := WriteWord(r, bitmap, f, at, 2, bits);
      i := i + 16;
      at := at + 2;
    }
    if i + 8 <= count {
      var x := ScalarByte(numbers, count, at);
      r := WriteByte(r, bitmap, f, at, x);
      i := i + 8;
      at := at + 1;
    }
    if i < count {
      var last := ScalarByte(numbers, count, at);
      r := WriteByte(r, bitmap, f, at, last);
      at := at + 1;
    }
    BytesOf(|f|, at);
  }

  /** A word of 8k reference outcomes wholly below count is a word of the
      bitmap's flags. */
  lemma WordOf(numbers: seq<U64>, count: nat, f: seq<bool>, byte: nat, k: nat, x: nat)
    requires count <= |numbers| && f == SurvivorFlags(numbers)[..count]
    requires 8 * byte + 8 * k <= count
    requires x == PackBits(SurvivorFlags(numbers)[8 * byte .. 8 * byte + 8 * k])
    ensures x == PackBits(f[8 * byte .. 8 * byte + 8 * k])
  {
    assert f[8 * byte .. 8 * byte + 8 * k] == SurvivorFlags(numbers)[8 * byte .. 8 * byte + 8 * k];
  }

  /** `filter_stream_u64_wheel`: a zeroed local bitmap of ceil(count / 8)
      bytes is filled by the bitmap stream and expanded, out[i] =
      (bitmap[i / 8] >> (i % 8)) & 1. Every out[i] below count is the scalar
      outcome of numbers[i]; nothing from count on is written. */
  method FilterStream(numbers: seq<U64>, count: nat, out: seq<U8>) returns (res: seq<U8>)
    requires count <= |numbers| && count <= |out|
    ensures |res| == |out|
    ensures forall i | 0 <= i < count :: res[i] == ScalarSurviveBarrett16(numbers[i])
    ensures forall i | count <= i < |out| :: res[i] == out[i]
  {
    var zeros: seq<U8> := seq(Bytes(count), _ => 0);
    var bm := BitmapStream(numbers, count, zeros);
    res := out;
    var i := 0;
    while i < count
      invariant i <= count && OutcomesDone(res, out, numbers, i)
    {
      ReadBack(bm, SurvivorFlags(numbers)[..count], i);
      res := res[i := BitAt(bm, i)];
      i := i + 1;
    }
  }
}
