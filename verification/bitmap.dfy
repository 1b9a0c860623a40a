/** The bitmap layout of the bitmap streams: the flag of input i is bit
    i % 8 of byte i / 8, least significant bit first, so a run of count
    flags occupies ceil(count / 8) bytes. Besides the layout itself this
    module holds the byte-level writes the drivers perform: a packed word
    stored little-endian (`memcpy` on Apple Silicon), one bit ORed into a
    byte, one bit set or cleared in place, and a masked merge. */
module Bitmap {
  import opened Bits
  import opened Neon
  import opened Pack

  /** Bytes a bitmap of count flags occupies: ceil(count / 8). */
  function Bytes(count: nat): (n: nat)
    ensures count <= 8 * n < count + 8
  {
    (count + 7) / 8
  }

  /** A run whose length lies in (8 * byte - 8, 8 * byte] occupies byte bytes. */
  lemma BytesOf(count: nat, byte: nat)
    requires count <= 8 * byte < count + 8
    ensures Bytes(count) == byte
  {
  }

  /** Byte b of the bitmap of flags f; bits past the last flag are 0. */
  function ByteOf(f: seq<bool>, b: nat): (x: U8)
    requires b < Bytes(|f|)
  {
    var hi := if 8 * b + 8 <= |f| then 8 * b + 8 else |f|;
    Pow2Monotone(hi - 8 * b, 8);
    Pow2Values();
    PackBits(f[8 * b .. hi])
  }

  /** Bit k of byte b is flag 8b + k, and 0 past the end. */
  lemma BitsOfByte(f: seq<bool>, b: nat, k: nat)
    requires b < Bytes(|f|) && k < 8
    ensures Bit(ByteOf(f, b), k) == if 8 * b + k < |f| && f[8 * b + k] then 1 else 0
  {
    var hi := if 8 * b + 8 <= |f| then 8 * b + 8 else |f|;
    BitOfPackBits(f[8 * b .. hi], k);
  }

  /** The bitmap bm holds the flags f in its first Bytes(|f|) bytes. */
  predicate Holds(bm: seq<U8>, f: seq<bool>)
  {
    Bytes(|f|) <= |bm| && forall b | 0 <= b < Bytes(|f|) :: bm[b] == ByteOf(f, b)
  }

  /** `(bitmap[i >> 3] >> (i & 7)) & 1`: the flag of input i read back from
      the bitmap. */
  function BitAt(bm: seq<U8>, i: nat): (x: nat)
    requires i / 8 < |bm|
    ensures x == Bit(bm[i / 8], i % 8)
  {
    ShiftAndOne(bm[i / 8], i % 8, 8);
    BitAnd(ShiftRight(bm[i / 8], i % 8), 1, 8)
  }

  /** Reading a bitmap back yields the flags it holds. */
  lemma ReadBack(bm: seq<U8>, f: seq<bool>, i: nat)
    requires Holds(bm, f) && i < |f|
    ensures i / 8 < |bm| && BitAt(bm, i) == BoolBit(f[i])
  {
    BitsOfByte(f, i / 8, i % 8);
  }

  /** A bitmap determines its flags: two flag runs of one length held by the
      same bytes are equal. */
  lemma HoldsUnique(bm: seq<U8>, f: seq<bool>, g: seq<bool>)
    requires Holds(bm, f) && Holds(bm, g) && |f| == |g|
    ensures f == g
  {
    forall i | 0 <= i < |f|
      ensures f[i] == g[i]
    {
      ReadBack(bm, f, i);
      ReadBack(bm, g, i);
    }
  }

  /** The bitmap of f exists: writing ByteOf for every byte makes it hold. */
  function Encode(f: seq<bool>): (bm: seq<U8>)
    ensures |bm| == Bytes(|f|) && Holds(bm, f)
  {
    seq(Bytes(|f|), b requires 0 <= b < Bytes(|f|) => ByteOf(f, b))
  }

  /** Storing the little-endian bytes of the packed flags f[i .. i + 8k]
      at byte i / 8 writes bytes i / 8 .. i / 8 + k - 1 of the bitmap of f. */
  lemma StoreWord(bm: seq<U8>, f: seq<bool>, i: nat, k: nat, x: nat)
    requires i % 8 == 0 && i + 8 * k <= |f| && i / 8 + k <= |bm|
    requires x == PackBits(f[i .. i + 8 * k])
    ensures i / 8 + k <= Bytes(|f|)
    ensures forall b | i / 8 <= b < i / 8 + k ::
      Store(bm, i / 8, LittleEndian(x, k))[b] == ByteOf(f, b)
  {
    forall b | i / 8 <= b < i / 8 + k
      ensures Store(bm, i / 8, LittleEndian(x, k))[b] == ByteOf(f, b)
    {
      StoreByte(f, i, k, x, b);
    }
  }

  lemma StoreByte(f: seq<bool>, i: nat, k: nat, x: nat, b: nat)
    requires i % 8 == 0 && i + 8 * k <= |f| && i / 8 <= b < i / 8 + k
    requires x == PackBits(f[i .. i + 8 * k])
    ensures b < Bytes(|f|) && LittleEndian(x, k)[b - i / 8] == ByteOf(f, b)
  {
    var c := i / 8;
    assert i == 8 * c;
    var m := b - c;
    assert 8 * b == i + 8 * m;
    var w := f[i .. i + 8 * k];
    assert |w| == 8 * k;
    LittleEndianPacks(w, k, m);
    assert w[8 * m .. 8 * m + 8] == f[8 * b .. 8 * b + 8];
    WholeByte(f, b);
  }

  /** A byte with all eight of its inputs present packs all eight. */
  lemma WholeByte(f: seq<bool>, b: nat)
    requires 8 * b + 8 <= |f|
    ensures b < Bytes(|f|) && ByteOf(f, b) == PackBits(f[8 * b .. 8 * b + 8])
  {
  }

  /** A byte whose low |g| bits are the flags g and whose other bits are
      those of prior. */
  function Blend(g: seq<bool>, prior: U8): (x: U8)
    requires |g| <= 8
  {
    BlendBound(PackBits(g), prior, |g|);
    PackBits(g) + ShiftRight(prior, |g|) * Pow2(|g|)
  }

  lemma BlendBound(lo: nat, prior: U8, k: nat)
    requires k <= 8 && lo < Pow2(k)
    ensures lo + ShiftRight(prior, k) * Pow2(k) < TWO8
  {
    var h := ShiftRight(prior, k);
    var p := Pow2(k);
    var q := Pow2(8 - k);
    Pow2Add(k, 8 - k);
    Pow2Values();
    assert p * q == TWO8;
    ShiftBelow(prior, 8, k);
    MulMonotone(h, q - 1, p);
    PredTimes(q, p);
  }

  lemma PredTimes(q: nat, p: nat)
    requires q >= 1
    ensures (q - 1) * p == q * p - p
  {
  }

  lemma BitOfBlend(g: seq<bool>, prior: U8, j: nat)
    requires |g| <= 8
    ensures Bit(Blend(g, prior), j) == if j < |g| then BoolBit(g[j]) else Bit(prior, j)
  {
    var k := |g|;
    BitOfConcat(PackBits(g), ShiftRight(prior, k), k, j);
    if j < k {
      BitOfPackBits(g, j);
    } else {
      BitOfShiftRight(prior, k, j - k);
    }
  }

  /** A full byte keeps nothing of the prior one; an empty run keeps all of it;
      over a zero byte the blend is the plain packed run. */
  lemma BlendEdges(g: seq<bool>, prior: U8)
    requires |g| <= 8
    ensures |g| == 8 ==> Blend(g, prior) == PackBits(g)
    ensures |g| == 0 ==> Blend(g, prior) == prior
    ensures Blend(g, 0) == PackBits(g)
  {
    Pow2Values();
    if |g| == 8 {
      ShiftBelow(prior, 8, 8);
    }
    if |g| == 0 {
      assert ShiftRight(prior, 0) == prior;
    }
    assert Pow2(|g|) >= 1;
    assert ShiftRight(0, |g|) == 0;
  }

  /** `byte |= bit << k` with bit 0 or 1, k = |g|: appends one flag to the
      packed run g. */
  lemma AppendBit(g: seq<bool>, on: bool)
    requires |g| < 8
    ensures PackBits(g + [on]) < TWO8
    ensures BitOr(PackBits(g), BoolBit(on) * Pow2(|g|), 8) == PackBits(g + [on])
  {
    var k := |g|;
    var p := PackBits(g);
    PackLast(g, on);
    Pow2Values();
    Pow2Monotone(k + 1, 8);
    if on {
      assert BoolBit(on) * Pow2(k) == Pow2(k);
      OrStep(p, Pow2(k), k);
    } else {
      assert BoolBit(on) * Pow2(k) == 0;
      OrStep(p, 0, k);
    }
  }

  /** `byte |= 1 << |g|` when on, nothing otherwise: appends one flag to the
      packed run g. */
  lemma OrFlag(g: seq<bool>, on: bool)
    requires |g| < 8
    ensures PackBits(g + [on]) < TWO8
    ensures (if on then BitOr(PackBits(g), Pow2(|g|), 8) else PackBits(g)) == PackBits(g + [on])
  {
    var k := |g|;
    var p := PackBits(g);
    PackLast(g, on);
    Pow2Values();
    Pow2Monotone(k + 1, 8);
    if on {
      OrStep(p, Pow2(k), k);
      assert PackBits(g + [on]) == p + Pow2(k);
    } else {
      assert PackBits(g + [on]) == p;
    }
  }

  /** `x |= 1 << k` when on, nothing otherwise, over the packed run g of
      length k: the run extended by on. */
  method OrBit(x: U8, ghost g: seq<bool>, k: nat, on: bool) returns (r: U8)
    requires |g| == k < 8 && x == PackBits(g)
    ensures r == PackBits(g + [on])
  {
    OrFlag(g, on);
    if on {
      r := BitOr(x, Pow2(k), 8);
    } else {
      r := x;
    }
  }

  /** `mask |= 1 << k` over the k low ones: the k + 1 low ones. */
  method WidenMask(mask: U8, k: nat) returns (r: U8)
    requires k < 8 && mask == Pow2(k) - 1
    ensures r == Pow2(k + 1) - 1
  {
    OrStep(mask, Pow2(k), k);
    Pow2Monotone(k + 1, 8);
    Pow2Values();
    r := BitOr(mask, Pow2(k), 8);
  }

  /** One more element of a slice. */
  lemma SliceExtend<T>(f: seq<T>, lo: nat, hi: nat)
    requires lo <= hi < |f|
    ensures f[lo .. hi] + [f[hi]] == f[lo .. hi + 1]
  {
  }

  /** Appending one flag adds it at bit |g|. */
  lemma PackLast(g: seq<bool>, on: bool)
    ensures PackBits(g + [on]) == PackBits(g) + Pow2(|g|) * BoolBit(on)
  {
    assert (g + [on])[..|g|] == g;
    assert (g + [on])[|g|] == on;
  }

  /** `x |= 1 << k` when on, `x &= ~(1 << k)` otherwise: bit k set to on, the
      other seven bits kept. */
  function SetBit(x: U8, k: nat, on: bool): (r: U8)
    requires k < 8
    ensures forall j | 0 <= j < 8 :: Bit(r, j) == if j == k then BoolBit(on) else Bit(x, j)
  {
    Pow2Values();
    Pow2Monotone(k, 7);
    if on then
      BitOrBound(x, Pow2(k), 8);
      SetBitLanes(x, k, true);
      BitOr(x, Pow2(k), 8)
    else
      BitAndBound(x, BitNot(Pow2(k), 8), 8);
      SetBitLanes(x, k, false);
      BitAnd(x, BitNot(Pow2(k), 8), 8)
  }

  lemma SetBitLanes(x: U8, k: nat, on: bool)
    requires k < 8
    ensures Pow2(k) < Pow2(8)
    ensures on ==> forall j | 0 <= j < 8 :: Bit(BitOr(x, Pow2(k), 8), j) == if j == k then 1 else Bit(x, j)
    ensures !on ==> forall j | 0 <= j < 8 ::
      Bit(BitAnd(x, BitNot(Pow2(k), 8), 8), j) == if j == k then 0 else Bit(x, j)
  {
    Pow2Monotone(k + 1, 8);
    forall j | 0 <= j < 8
      ensures Bit(BitOr(x, Pow2(k), 8), j) == if j == k then 1 else Bit(x, j)
      ensures Bit(BitAnd(x, BitNot(Pow2(k), 8), 8), j) == if j == k then 0 else Bit(x, j)
    {
      BitOfPow2(k, j);
      BitOfOr(x, Pow2(k), 8, j);
      BitOfNot(Pow2(k), 8, j);
      BitOfAnd(x, BitNot(Pow2(k), 8), 8, j);
    }
  }

  /** Setting bit |g| of a blend to the next flag extends the blended run. */
  lemma SetBitExtends(g: seq<bool>, prior: U8, on: bool)
    requires |g| < 8
    ensures SetBit(Blend(g, prior), |g|, on) == Blend(g + [on], prior)
  {
    var x := SetBit(Blend(g, prior), |g|, on);
    var y := Blend(g + [on], prior);
    forall j | 0 <= j < 8
      ensures Bit(x, j) == Bit(y, j)
    {
      BitOfBlend(g, prior, j);
      BitOfBlend(g + [on], prior, j);
    }
    Pow2Values();
    BitsEqual(x, y, 8);
  }

  /** `(prior & ~mask) | (last & mask)` on bytes: bits of last where mask is
      set, bits of prior elsewhere. */
  function MergeByte(prior: U8, mask: U8, last: U8): (r: U8)
    ensures forall j | 0 <= j < 8 :: Bit(r, j) == if Bit(mask, j) == 1 then Bit(last, j) else Bit(prior, j)
  {
    Pow2Values();
    var keep := BitAnd(prior, BitNot(mask, 8), 8);
    var take := BitAnd(last, mask, 8);
    BitAndBound(prior, BitNot(mask, 8), 8);
    BitAndBound(last, mask, 8);
    BitOrBound(keep, take, 8);
    MergeLanes(prior, mask, last);
    BitOr(keep, take, 8)
  }

  lemma MergeLanes(prior: U8, mask: U8, last: U8)
    ensures Pow2(8) == TWO8
    ensures forall j | 0 <= j < 8 ::
      Bit(BitOr(BitAnd(prior, BitNot(mask, 8), 8), BitAnd(last, mask, 8), 8), j)
        == if Bit(mask, j) == 1 then Bit(last, j) else Bit(prior, j)
  {
    Pow2Values();
    forall j | 0 <= j < 8
      ensures Bit(BitOr(BitAnd(prior, BitNot(mask, 8), 8), BitAnd(last, mask, 8), 8), j)
        == if Bit(mask, j) == 1 then Bit(last, j) else Bit(prior, j)
    {
      MergeBit(prior, mask, last, 8, j);
    }
  }

  /** Bit j of the merge over `w` bits: last's bit under the mask, prior's
      elsewhere. */
  lemma MergeBit(prior: nat, mask: nat, last: nat, w: nat, j: nat)
    requires j < w && mask < Pow2(w)
    ensures Bit(BitOr(BitAnd(prior, BitNot(mask, w), w), BitAnd(last, mask, w), w), j)
      == if Bit(mask, j) == 1 then Bit(last, j) else Bit(prior, j)
  {
    var n := BitNot(mask, w);
    var a := BitAnd(prior, n, w);
    var b := BitAnd(last, mask, w);
    BitOfOr(a, b, w, j);
    BitOfAnd(prior, n, w, j);
    BitOfAnd(last, mask, w, j);
    BitOfNot(mask, w, j);
  }

  /** A merge under the mask of the low |g| bits writes the run g into prior
      and keeps the rest: the blend. */
  lemma MergeLow(prior: U8, g: seq<bool>, last: U8, mask: U8)
    requires |g| <= 8 && mask == Pow2(|g|) - 1
    requires forall j | 0 <= j < |g| :: Bit(last, j) == BoolBit(g[j])
    ensures MergeByte(prior, mask, last) == Blend(g, prior)
  {
    var x := MergeByte(prior, mask, last);
    var y := Blend(g, prior);
    forall j | 0 <= j < 8
      ensures Bit(x, j) == Bit(y, j)
    {
      BitOfBlend(g, prior, j);
      LowOnes(|g|, j);
    }
    Pow2Values();
    BitsEqual(x, y, 8);
  }

  /** A merge whose mask lies within the low |g| bits, where every flag of g
      is the bit the merge keeps for it (last's under the mask, prior's
      elsewhere), is the blend of g into prior. */
  lemma MergeBlend(prior: U8, g: seq<bool>, last: U8, mask: U8)
    requires |g| <= 8
    requires forall j | 0 <= j < |g| :: BoolBit(g[j]) == if Bit(mask, j) == 1 then Bit(last, j) else Bit(prior, j)
    requires forall j | |g| <= j < 8 :: Bit(mask, j) == 0
    ensures MergeByte(prior, mask, last) == Blend(g, prior)
  {
    var x := MergeByte(prior, mask, last);
    var y := Blend(g, prior);
    forall j | 0 <= j < 8
      ensures Bit(x, j) == Bit(y, j)
    {
      BitOfBlend(g, prior, j);
    }
    Pow2Values();
    BitsEqual(x, y, 8);
  }

  /** The bits of 2^k - 1 are the k low ones. */
  lemma {:induction false} LowOnes(k: nat, j: nat)
    ensures Bit(Pow2(k) - 1, j) == if j < k then 1 else 0
  {
    if k == 0 {
      BitAbove(0, 0, j);
    } else if j > 0 {
      assert (Pow2(k) - 1) / 2 == Pow2(k - 1) - 1;
      LowOnes(k - 1, j - 1);
    }
  }

  /** The first `byte` bytes of bm hold the bitmap of f, and every byte from
      `byte` on is still that of the original buffer. */
  predicate BytesDone(bm: seq<U8>, orig: seq<U8>, f: seq<bool>, byte: nat)
  {
    |bm| == |orig| && byte <= Bytes(|f|) && byte <= |orig| &&
    (forall b | 0 <= b < byte :: bm[b] == ByteOf(f, b)) &&
    (forall b | byte <= b < |orig| :: bm[b] == orig[b])
  }

  /** `bitmap[byte] = x` for the next byte of the bitmap. */
  method WriteByte(bm: seq<U8>, ghost orig: seq<U8>, ghost f: seq<bool>, byte: nat, x: U8) returns (r: seq<U8>)
    requires BytesDone(bm, orig, f, byte) && byte < Bytes(|f|) && byte < |bm|
    requires x == ByteOf(f, byte)
    ensures BytesDone(r, orig, f, byte + 1)
  {
    r := bm[byte := x];
  }

  /** `memcpy(bitmap + byte, &x, k)` of a k-byte word of packed flags on a
      little-endian target: the next k bytes of the bitmap. */
  method WriteWord(bm: seq<U8>, ghost orig: seq<U8>, ghost f: seq<bool>, byte: nat, k: nat, x: nat)
    returns (r: seq<U8>)
    requires BytesDone(bm, orig, f, byte) && 8 * byte + 8 * k <= |f| && byte + k <= |bm|
    requires x == PackBits(f[8 * byte .. 8 * byte + 8 * k])
    ensures BytesDone(r, orig, f, byte + k)
  {
    assert (8 * byte) / 8 == byte;
    StoreWord(bm, f, 8 * byte, k, x);
    r := Store(bm, byte, LittleEndian(x, k));
  }

  /** Once every byte is written the bitmap holds f and the rest of the
      buffer is untouched. */
  lemma AllBytesDone(bm: seq<U8>, orig: seq<U8>, f: seq<bool>)
    requires BytesDone(bm, orig, f, Bytes(|f|))
    ensures Holds(bm, f) && |bm| == |orig|
    ensures forall b | Bytes(|f|) <= b < |orig| :: bm[b] == orig[b]
  {
  }

  /** The flags f[0 .. i] written bit by bit over the buffer orig: every
      byte below i / 8 is complete, byte i / 8 has its low i % 8 bits from f
      and the rest from orig, and every later byte is orig's. With i = |f|
      this is the bitmap of f whose partial last byte keeps orig's high
      bits. */
  predicate BitsDone(bm: seq<U8>, orig: seq<U8>, f: seq<bool>, i: nat)
  {
    |bm| == |orig| && i <= |f| && Bytes(|f|) <= |orig| &&
    (forall b | 0 <= b < i / 8 :: b < Bytes(|f|) && bm[b] == ByteOf(f, b)) &&
    (i / 8 < |orig| ==> bm[i / 8] == Blend(f[8 * (i / 8) .. i], orig[i / 8])) &&
    (forall b | i / 8 < b < |orig| :: bm[b] == orig[b])
  }

  /** Whole bytes written up to byte `byte` are bits written up to 8 * byte. */
  lemma StartBits(bm: seq<U8>, orig: seq<U8>, f: seq<bool>, byte: nat)
    requires BytesDone(bm, orig, f, byte) && 8 * byte <= |f| && Bytes(|f|) <= |orig|
    ensures BitsDone(bm, orig, f, 8 * byte)
  {
    assert (8 * byte) / 8 == byte;
    if byte < |orig| {
      BlendEdges(f[8 * byte .. 8 * byte], orig[byte]);
    }
  }

  /** `bitmap[i >> 3] |= 1u << (i & 7)` when on, `&= ~(1u << (i & 7))`
      otherwise: the next flag written in place. */
  method PutBit(bm: seq<U8>, ghost orig: seq<U8>, ghost f: seq<bool>, i: nat, on: bool) returns (r: seq<U8>)
    requires BitsDone(bm, orig, f, i) && i < |f| && on == f[i]
    ensures BitsDone(r, orig, f, i + 1)
  {
    var byte := i / 8;
    ghost var g := f[8 * byte .. i];
    BytesOf(|f|, Bytes(|f|));
    assert byte < |orig|;
    SetBitExtends(g, orig[byte], on);
    assert g + [on] == f[8 * byte .. i + 1];
    r := bm[byte := SetBit(bm[byte], i % 8, on)];
    if (i + 1) / 8 != byte {
      NextByte(f, orig, byte, i);
    }
  }

  /** The partial last byte stored at once: the blend of the remaining
      flags into the original byte completes the bitmap. */
  method WriteTail(bm: seq<U8>, ghost orig: seq<U8>, ghost f: seq<bool>, byte: nat, x: U8) returns (r: seq<U8>)
    requires BitsDone(bm, orig, f, 8 * byte) && 8 * byte < |f| < 8 * byte + 8 && byte < |orig|
    requires x == Blend(f[8 * byte .. |f|], orig[byte])
    ensures BitsDone(r, orig, f, |f|)
  {
    assert (8 * byte) / 8 == byte && |f| / 8 == byte;
    r := bm[byte := x];
  }

  /** The bit that completes byte c: the blend of eight flags is the byte of
      the bitmap, and the next byte starts as orig's. */
  lemma NextByte(f: seq<bool>, orig: seq<U8>, c: nat, i: nat)
    requires i < |f| && c == i / 8 && (i + 1) / 8 != c && c < |orig|
    ensures (i + 1) / 8 == c + 1 && c < Bytes(|f|)
    ensures Blend(f[8 * c .. i + 1], orig[c]) == ByteOf(f, c)
    ensures c + 1 < |orig| ==> Blend(f[8 * (c + 1) .. i + 1], orig[c + 1]) == orig[c + 1]
  {
    assert i + 1 == 8 * c + 8;
    BlendEdges(f[8 * c .. i + 1], orig[c]);
    if c + 1 < |orig| {
      BlendEdges(f[8 * (c + 1) .. i + 1], orig[c + 1]);
    }
  }

  /** Reading back a bitmap written bit by bit yields its flags. */
  lemma ReadBits(bm: seq<U8>, orig: seq<U8>, f: seq<bool>, i: nat)
    requires BitsDone(bm, orig, f, |f|) && i < |f|
    ensures i / 8 < |bm| && BitAt(bm, i) == BoolBit(f[i])
  {
    var c := i / 8;
    if c < |f| / 8 {
      BitsOfByte(f, c, i % 8);
    } else {
      assert c == |f| / 8 && i % 8 == i - 8 * c;
      var g := f[8 * c .. |f|];
      assert bm[c] == Blend(g, orig[c]);
      BitOfBlend(g, orig[c], i % 8);
      assert g[i - 8 * c] == f[i];
    }
  }

  /** 16k inputs from block h fit below count: they lie before count
      rounded down to a multiple of 16, where the 16-input kernels stop. */
  lemma InVector(count: nat, h: nat, k: nat)
    requires 16 * h + 16 * k <= count
    ensures 16 * h + 16 * k <= count - count % 16
  {
    var q := count / 16;
    assert count == 16 * q + count % 16;
  }

  /** When the 16-input kernels stop at i = 16h with fewer than 16 inputs
      left, i is count rounded down to a multiple of 16. */
  lemma TailStart(count: nat, h: nat)
    requires 16 * h <= count < 16 * h + 16
    ensures count - count % 16 == 16 * h
  {
    DivUnique(count, 16, h, count - 16 * h);
  }

  /** Where the drivers' single block of eight after the 16-input kernels
      ends: count rounded down to a multiple of 8 is 8 past count rounded
      down to a multiple of 16 when eight or more inputs remain, and equal
      to it otherwise. */
  lemma EightEnd(count: nat)
    ensures count % 16 >= 8 ==> count - count % 8 == count - count % 16 + 8
    ensures count % 16 < 8 ==> count - count % 8 == count - count % 16
  {
    var q, r := count / 16, count % 16;
    assert count == q * 16 + r;
    if r >= 8 {
      DivUnique(count, 8, 2 * q + 1, r - 8);
    } else {
      DivUnique(count, 8, 2 * q, r);
    }
  }
}
