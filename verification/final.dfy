/** `neon_final` (src/simd_final.cpp): the sixteen trial divisions in table
    order with a per-lane "alive" register and early exits once every lane
    is known composite, a residue prefilter in front of the 8-input block,
    a 32-input block without it, and a byte stream built from the three.

    The early exits never change a result, and the 32-input block and the
    scalar tail give the reference outcome of every input. The prefilter
    reuses 2863311531, the multiply-and-shift constant of a division by 3,
    as if it were the one for 30: the remainder it forms is not n mod 30,
    and a block it declares hopeless is written as eight zeros even when it
    holds survivors such as 2, 3, 5 and 7. */
module Final {
  import opened Bits
  import opened PrimeTables
  import opened Neon
  import opened Kernels
  import opened Reference
  import opened Pack
  import opened Lanes
  import opened Wheels
  import Wheel

  /** The two registers of `divisible_mask_dual16_earlyout` after the slots
      below j: m is the composite mask over those slots and alive its
      complement. */
  ghost predicate Tracked(n: U32x4, m: U32x4, alive: U32x4, j: nat)
    requires j <= |SEQUENTIAL.p|
  {
    forall i | 0 <= i < 4 ::
      IsMask(m[i]) && (m[i] == 0 <==> ClearIn(n[i], SEQUENTIAL, 0, j)) &&
      alive[i] == if m[i] == 0 then ALL_ONES else 0
  }

  /** One slot on one register: `d = vandq(hit, alive); m |= d;
      alive &= ~d`. */
  method SlotStep(n: U32x4, m: U32x4, alive: U32x4, j: nat) returns (m': U32x4, alive': U32x4)
    requires SEQUENTIAL.Valid() && j < |SEQUENTIAL.p| && Tracked(n, m, alive, j)
    ensures Tracked(n, m', alive', j + 1)
  {
    var hit := PrimeHits(n, SEQUENTIAL, j);
    AndMaskLanes(hit, alive);
    var d := VAndq(hit, alive);
    MaskLanes(m, d);
    m' := VOrrq(m, d);
    var nd := VMvnq(d);
    AndMaskLanes(nd, alive);
    alive' := VAndq(alive, nd);
    StepLanes(n, m, alive, hit, d, m', nd, alive', j);
  }

  lemma StepLanes(n: U32x4, m: U32x4, alive: U32x4, hit: U32x4, d: U32x4, m': U32x4, nd: U32x4, alive': U32x4, j: nat)
    requires j < |SEQUENTIAL.p| && Tracked(n, m, alive, j)
    requires forall i | 0 <= i < 4 :: hit[i] == if ProperlyDivides(SEQUENTIAL.p[j], n[i]) then ALL_ONES else 0
    requires forall i | 0 <= i < 4 :: d[i] == if alive[i] == ALL_ONES then hit[i] else 0
    requires forall i | 0 <= i < 4 :: IsMask(m'[i]) && (m'[i] == 0 <==> m[i] == 0 && d[i] == 0)
    requires forall i | 0 <= i < 4 :: nd[i] == ALL_ONES - d[i]
    requires forall i | 0 <= i < 4 :: alive'[i] == if alive[i] == ALL_ONES then nd[i] else 0
    ensures Tracked(n, m', alive', j + 1)
  {
    forall i | 0 <= i < 4
      ensures m'[i] == 0 <==> ClearIn(n[i], SEQUENTIAL, 0, j + 1)
    {
      ClearExtend(n[i], j);
    }
  }

  lemma ClearExtend(x: nat, j: nat)
    requires j < |SEQUENTIAL.p|
    ensures ClearIn(x, SEQUENTIAL, 0, j + 1) <==> ClearIn(x, SEQUENTIAL, 0, j) && !ProperlyDivides(SEQUENTIAL.p[j], x)
  {
  }

  /** When every alive lane is 0 after the slots below j, every lane has a
      proper divisor already: stopping leaves each mask what the remaining
      slots would have left it. */
  lemma DeadLanes(n: U32x4, m: U32x4, alive: U32x4, j: nat)
    requires j <= |SEQUENTIAL.p| == 16 && Tracked(n, m, alive, j) && VMaxvq(alive) == 0
    ensures Tracked(n, m, alive, 16)
  {
    forall i | 0 <= i < 4
      ensures m[i] == 0 <==> ClearIn(n[i], SEQUENTIAL, 0, 16)
    {
      assert alive[i] <= VMaxvq(alive);
    }
  }

  /** `divisible_mask_dual16_earlyout`: the sixteen slots in table order on
      two registers, with the exits after slots 0-1, after slots 2-3, and
      before slots 8 and 12 when no lane of either register is alive. Each
      mask lane is all ones exactly when a table prime properly divides the
      lane, as if every slot had been tried. */
  method EarlyOutMask(n1: U32x4, n2: U32x4) returns (m1: U32x4, m2: U32x4)
    ensures forall i | 0 <= i < 4 :: IsMask(m1[i]) && (m1[i] == 0 <==> ClearIn(n1[i], SEQUENTIAL, 0, 16))
    ensures forall i | 0 <= i < 4 :: IsMask(m2[i]) && (m2[i] == 0 <==> ClearIn(n2[i], SEQUENTIAL, 0, 16))
  {
    SequentialValid();
    m1, m2 := VDup(0), VDup(0);
    var alive1, alive2 := VDup(ALL_ONES), VDup(ALL_ONES);
    var j := 0;
    while j < 16
      invariant j <= 16 && Tracked(n1, m1, alive1, j) && Tracked(n2, m2, alive2, j)
    {
      if j == 2 || j == 4 || j == 8 || j == 12 {
        OrTwoZero(VMaxvq(alive1), VMaxvq(alive2));
        if BitOr(VMaxvq(alive1), VMaxvq(alive2), 32) == 0 {
          DeadLanes(n1, m1, alive1, j);
          DeadLanes(n2, m2, alive2, j);
          return;
        }
      }
      m1, alive1 := SlotStep(n1, m1, alive1, j);
      m2, alive2 := SlotStep(n2, m2, alive2, j);
      j := j + 1;
    }
  }

  /** `(vmaxvq(a) | vmaxvq(b)) == 0` on 32-bit maxima: both are 0. */
  lemma OrTwoZero(a: U32, b: U32)
    ensures BitOr(a, b, 32) == 0 <==> a == 0 && b == 0
  {
    Pow2Values();
    OrZero(a, b, 32);
  }

  /** An input the residue test of `wheel30_prefilter` flags as possibly
      prime: it fits in 32 bits and its wrapped remainder is one of the
      eight residues. */
  ghost predicate Flagged(ptr: seq<U64>, at: nat)
    requires at + 8 <= |ptr|
  {
    exists j | at <= j < at + 8 :: ThirdsHit(ptr[j])
  }

  /** A block the 8-input filter writes as zeros: every input fits in 32
      bits and none passes the residue test. */
  ghost predicate Hopeless(ptr: seq<U64>, at: nat)
    requires at + 8 <= |ptr|
  {
    (forall j | at <= j < at + 8 :: ptr[j] < TWO32) && !Flagged(ptr, at)
  }

  /** `wheel30_prefilter` on the narrowed registers of a block of 32-bit
      inputs: true exactly when some input passes the residue test. */
  method Prefilter(ptr: seq<U64>, at: nat, n1: U32x4, n2: U32x4) returns (any: bool)
    requires at + 8 <= |ptr| && n1 == LoadReg(ptr, at) && n2 == LoadReg(ptr, at + 4)
    requires forall j | at <= j < at + 8 :: ptr[j] < TWO32
    ensures any <==> Flagged(ptr, at)
  {
    var c1 := ThirdsMask(n1);
    var c2 := ThirdsMask(n2);
    OrTwoZero(VMaxvq(c1), VMaxvq(c2));
    FlaggedLanes(ptr, at, n1, n2, c1, c2);
    any := BitOr(VMaxvq(c1), VMaxvq(c2), 32) != 0;
  }

  lemma FlaggedLanes(ptr: seq<U64>, at: nat, n1: U32x4, n2: U32x4, c1: U32x4, c2: U32x4)
    requires at + 8 <= |ptr| && n1 == LoadReg(ptr, at) && n2 == LoadReg(ptr, at + 4)
    requires forall j | at <= j < at + 8 :: ptr[j] < TWO32
    requires forall i | 0 <= i < 4 :: c1[i] == 0 <==> !ThirdsHit(n1[i])
    requires forall i | 0 <= i < 4 :: c2[i] == 0 <==> !ThirdsHit(n2[i])
    ensures VMaxvq(c1) == 0 && VMaxvq(c2) == 0 <==> !Flagged(ptr, at)
  {
    forall i | 0 <= i < 4
      ensures ThirdsHit(n1[i]) == ThirdsHit(ptr[at + i]) && ThirdsHit(n2[i]) == ThirdsHit(ptr[at + 4 + i])
    {
      NarrowedHit(n1[i], ptr[at + i]);
      NarrowedHit(n2[i], ptr[at + 4 + i]);
    }
    if VMaxvq(c1) == 0 && VMaxvq(c2) == 0 {
      forall j | at <= j < at + 8
        ensures !ThirdsHit(ptr[j])
      {
        if j < at + 4 {
          assert c1[j - at] <= VMaxvq(c1);
        } else {
          assert c2[j - at - 4] <= VMaxvq(c2);
        }
      }
    }
    if VMaxvq(c1) != 0 {
      var i :| 0 <= i < 4 && c1[i] == VMaxvq(c1);
      assert ThirdsHit(ptr[at + i]);
    }
    if VMaxvq(c2) != 0 {
      var i :| 0 <= i < 4 && c2[i] == VMaxvq(c2);
      assert ThirdsHit(ptr[at + 4 + i]);
    }
  }

  /** The survivor bytes of a block once its masks are known: `vceqq(m, 0)`,
      the enable step when some input has high bits set, and `vshr(s8, 7)`
      over the narrowed lanes. */
  method MaskBytes(ptr: seq<U64>, at: nat, all32: bool, m1: U32x4, m2: U32x4) returns (out: seq<U8>)
    requires at + 8 <= |ptr|
    requires all32 <==> forall j | at <= j < at + 8 :: ptr[j] < TWO32
    requires forall i | 0 <= i < 4 :: m1[i] == 0 <==> ClearIn(ptr[at + i] % TWO32, SEQUENTIAL, 0, 16)
    requires forall i | 0 <= i < 4 :: m2[i] == 0 <==> ClearIn(ptr[at + 4 + i] % TWO32, SEQUENTIAL, 0, 16)
    ensures out == Outcomes(ptr, at, 8)
  {
    var sv1 := EnabledSurvivors(ptr, at, all32, m1);
    var sv2 := EnabledSurvivors(ptr, at + 4, all32, m2);
    MaskFlagsOf(sv1, sv2, SurvivorFlags(ptr), at);
    out := BytesFromMask(sv1, sv2);
    BytesAreOutcomes(out, ptr, at, 8);
  }

  /** `sv = vceqq(m, 0)` and, when some input of the block has high bits
      set, `sv = vandq(sv, en)`: the register encodes the reference
      outcomes of its four inputs. */
  method EnabledSurvivors(ptr: seq<U64>, off: nat, all32: bool, m: U32x4) returns (sv: U32x4)
    requires off + 4 <= |ptr|
    requires all32 ==> forall j | off <= j < off + 4 :: ptr[j] < TWO32
    requires forall i | 0 <= i < 4 :: m[i] == 0 <==> ClearIn(ptr[off + i] % TWO32, SEQUENTIAL, 0, 16)
    ensures Encodes(sv, SurvivorFlags(ptr), off)
  {
    sv := Enable(Survivors(m), ptr, off, all32);
    BlockLanes(ptr, off, m, sv);
  }

  lemma BlockLanes(ptr: seq<U64>, off: nat, m: U32x4, sv: U32x4)
    requires off + 4 <= |ptr|
    requires forall i | 0 <= i < 4 :: m[i] == 0 <==> ClearIn(ptr[off + i] % TWO32, SEQUENTIAL, 0, 16)
    requires forall i | 0 <= i < 4 :: sv[i] == if ptr[off + i] < TWO32 then Survivors(m)[i] else 0
    ensures Encodes(sv, SurvivorFlags(ptr), off)
  {
    forall i | 0 <= i < 4
      ensures sv[i] == if Survives(ptr[off + i]) then ALL_ONES else 0
    {
      SurvivesByTable(ptr[off + i]);
    }
  }

  /** The composite masks of the block of eight at `at`, each lane with the
      reference meaning of its input. */
  method BlockMasks(ptr: seq<U64>, at: nat) returns (n1: U32x4, n2: U32x4, m1: U32x4, m2: U32x4)
    requires at + 8 <= |ptr|
    ensures n1 == LoadReg(ptr, at) && n2 == LoadReg(ptr, at + 4)
    ensures forall i | 0 <= i < 4 :: m1[i] == 0 <==> ClearIn(ptr[at + i] % TWO32, SEQUENTIAL, 0, 16)
    ensures forall i | 0 <= i < 4 :: m2[i] == 0 <==> ClearIn(ptr[at + 4 + i] % TWO32, SEQUENTIAL, 0, 16)
  {
    n1 := LoadReg(ptr, at);
    n2 := LoadReg(ptr, at + 4);
    m1, m2 := EarlyOutMask(n1, n2);
  }

  /** `filter8_u64_barrett16_final`: eight zero bytes for a hopeless block,
      the reference outcomes of its inputs otherwise. */
  method Filter8(ptr: seq<U64>, at: nat) returns (out: seq<U8>)
    requires at + 8 <= |ptr|
    ensures out == if Hopeless(ptr, at) then [0, 0, 0, 0, 0, 0, 0, 0] else Outcomes(ptr, at, 8)
  {
    var all32 := All32(ptr, at, 4);
    var n1, n2, m1, m2 := BlockMasks(ptr, at);
    if all32 {
      var any := Prefilter(ptr, at, n1, n2);
      if !any {
        return [0, 0, 0, 0, 0, 0, 0, 0];
      }
    }
    out := MaskBytes(ptr, at, all32, m1, m2);
  }

  /** The bytes the 8-input filter writes are never 1 for an input that
      does not survive; they are the reference outcomes unless the block is
      hopeless. */
  lemma Filter8Sound(ptr: seq<U64>, at: nat, out: seq<U8>, k: nat)
    requires at + 8 <= |ptr| && k < 8
    requires out == if Hopeless(ptr, at) then [0, 0, 0, 0, 0, 0, 0, 0] else Outcomes(ptr, at, 8)
    ensures out[k] <= 1 && (out[k] == 1 ==> Survives(ptr[at + k]))
    ensures !Hopeless(ptr, at) ==> out[k] == ScalarSurviveBarrett16(ptr[at + k])
  {
  }

  /** The block 2, 3, ..., 9 is hopeless for the residue test, so the
      8-input filter writes eight zeros, yet 2, 3, 5 and 7 survive. */
  lemma SmallPrimesZeroed(ptr: seq<U64>)
    requires ptr == [2, 3, 4, 5, 6, 7, 8, 9]
    ensures Hopeless(ptr, 0)
    ensures Survives(2) && Survives(3) && Survives(5) && Survives(7)
    ensures Outcomes(ptr, 0, 8)[0] == 1
  {
    forall j | 0 <= j < 8
      ensures !ThirdsHit(ptr[j])
    {
      ThirdsSmall(ptr[j]);
    }
    TablePrimesSurvive();
    SequentialValues();
    assert SEQUENTIAL.p[0] == 2 && SEQUENTIAL.p[1] == 3 && SEQUENTIAL.p[2] == 5 && SEQUENTIAL.p[3] == 7;
  }

  /** One block of `filter32_u64_barrett16_pipelined`: the early-out masks
      with no prefilter, the enable step and the bytes. */
  method PipelinedBlock(ptr: seq<U64>, at: nat) returns (out: seq<U8>)
    requires at + 8 <= |ptr|
    ensures out == Outcomes(ptr, at, 8)
  {
    var _, _, m1, m2 := BlockMasks(ptr, at);
    var all32 := All32(ptr, at, 4);
    out := MaskBytes(ptr, at, all32, m1, m2);
  }

  /** `filter32_u64_barrett16_pipelined`: four blocks of eight, each stored
      at its own offset: the reference outcomes of all 32 inputs. */
  method Filter32(ptr: seq<U64>, at: nat) returns (out: seq<U8>)
    requires at + 32 <= |ptr|
    ensures out == Outcomes(ptr, at, 32)
  {
    var a := PipelinedBlock(ptr, at);
    var b := PipelinedBlock(ptr, at + 8);
    var c := PipelinedBlock(ptr, at + 16);
    var d := PipelinedBlock(ptr, at + 24);
    OutcomesJoin(ptr, at, 8, 8, a, b);
    OutcomesJoin(ptr, at + 16, 8, 8, c, d);
    OutcomesJoin(ptr, at, 16, 16, a + b, c + d);
    out := (a + b) + (c + d);
  }

  /** The outcomes of two adjacent runs, joined, are the outcomes of the
      whole run. */
  lemma OutcomesJoin(ptr: seq<U64>, at: nat, n1: nat, n2: nat, x: seq<U8>, y: seq<U8>)
    requires at + n1 + n2 <= |ptr|
    requires x == Outcomes(ptr, at, n1) && y == Outcomes(ptr, at + n1, n2)
    ensures x + y == Outcomes(ptr, at, n1 + n2)
  {
    var z := Outcomes(ptr, at, n1 + n2);
    assert |x + y| == |z|;
    forall k | 0 <= k < n1 + n2
      ensures (x + y)[k] == z[k]
    {
      if k < n1 {
        assert (x + y)[k] == x[k];
      } else {
        assert (x + y)[k] == y[k - n1];
      }
    }
  }

  /** One input of the scalar tail: `out[i] = 0` above 32 bits, otherwise
      the trial loops over the small bank and then, if it survived, the
      extended bank, each skipping the prime equal to n. */
  function TailOutcome(v: U64): (r: U8)
    ensures r == ScalarSurviveBarrett16(v)
  {
    if v > 0xFFFF_FFFF then 0
    else
      TablesValid();
      SurvivesByTable(v);
      assert v % TWO32 == v;
      assert ClearFrom(v, SEQUENTIAL, 0) <==> ClearIn(v, SEQUENTIAL, 0, 16);
      if TrialFrom(v, SEQUENTIAL, 0) then 1 else 0
  }

  /** The inputs the 8-input filter handles: those from count rounded down
      to a multiple of 32 up to count rounded down to a multiple of 8. */
  predicate InEights(count: nat, j: nat)
  {
    count - count % 32 <= j < count - count % 8
  }

  /** The byte the stream writes for input j < count: 0 for an input of a
      hopeless block of the 8-input part, the reference outcome
      otherwise. */
  ghost function StreamByte(numbers: seq<U64>, count: nat, j: nat): (b: U8)
    requires j < count <= |numbers|
    ensures InEights(count, j) ==> j - j % 8 + 8 <= count
  {
    if InEights(count, j) && Hopeless(numbers, j - j % 8) then 0 else ScalarSurviveBarrett16(numbers[j])
  }

  /** res agrees with the stream's bytes below i and with the original
      buffer from i on. */
  ghost predicate StreamDone(res: seq<U8>, orig: seq<U8>, numbers: seq<U64>, count: nat, i: nat)
    requires count <= |numbers|
  {
    |res| == |orig| && i <= count <= |orig| &&
    (forall j | 0 <= j < i :: res[j] == StreamByte(numbers, count, j)) &&
    (forall j | i <= j < |orig| :: res[j] == orig[j])
  }

  /** `filter_stream_u64_barrett16_final`: 32-input blocks while 32 inputs
      remain, 8-input blocks while eight do, then the scalar tail. out[j]
      is StreamByte for every j < count, and nothing from count on is
      written. */
  method FilterStream(numbers: seq<U64>, count: nat, out: seq<U8>) returns (res: seq<U8>)
    requires count <= |numbers| && count <= |out|
    ensures |res| == |out|
    ensures forall j | 0 <= j < count :: res[j] == StreamByte(numbers, count, j)
    ensures forall j | count <= j < |out| :: res[j] == out[j]
  {
    res := out;
    var i := 0;
    ghost var h := 0;
    while i + 32 <= count
      invariant i <= count && i == 32 * h && StreamDone(res, out, numbers, count, i)
    {
      var block := Filter32(numbers, i);
      Rounded32(count, h);
      res := PutExact(numbers, count, out, res, i, block);
      i := i + 32;
      h := h + 1;
    }
    RoundedAt(count, 32, h);
    ghost var e := 4 * h;
    while i + 8 <= count
      invariant count - count % 32 <= i <= count && i == 8 * e && StreamDone(res, out, numbers, count, i)
    {
      var block := Filter8(numbers, i);
      Rounded8(count, e);
      res := PutEight(numbers, count, out, res, i, e, block);
      i := i + 8;
      e := e + 1;
    }
    RoundedAt(count, 8, e);
    while i < count
      invariant count - count % 8 <= i <= count && StreamDone(res, out, numbers, count, i)
    {
      res := res[i := TailOutcome(numbers[i])];
      i := i + 1;
    }
  }

  /** A block of 32 from input 32h below count ends before count rounded
      down to a multiple of 32. */
  lemma Rounded32(count: nat, h: nat)
    requires 32 * h + 32 <= count
    ensures 32 * h + 32 <= count - count % 32
  {
    var q := count / 32;
    assert count == 32 * q + count % 32;
  }

  /** A block of eight from input 8e below count ends before count rounded
      down to a multiple of 8. */
  lemma Rounded8(count: nat, e: nat)
    requires 8 * e + 8 <= count
    ensures 8 * e + 8 <= count - count % 8
  {
    var q := count / 8;
    assert count == 8 * q + count % 8;
  }

  /** A loop over blocks of d that stops at d * h with fewer than d inputs
      left stops at count rounded down to a multiple of d. */
  lemma RoundedAt(count: nat, d: nat, h: nat)
    requires d > 0 && d * h <= count < d * h + d
    ensures count - count % d == d * h
  {
    DivUnique(count, d, h, count - d * h);
  }

  /** Storing the reference outcomes of 32 inputs outside the 8-input part
      extends the written prefix. */
  method PutExact(numbers: seq<U64>, count: nat, ghost orig: seq<U8>, res: seq<U8>, i: nat, block: seq<U8>)
    returns (r: seq<U8>)
    requires count <= |numbers| && i + 32 <= count - count % 32
    requires StreamDone(res, orig, numbers, count, i) && block == Outcomes(numbers, i, 32)
    ensures StreamDone(r, orig, numbers, count, i + 32)
  {
    r := Store(res, i, block);
    forall j | i <= j < i + 32
      ensures r[j] == StreamByte(numbers, count, j)
    {
      assert !InEights(count, j);
    }
  }

  /** Storing a block of the 8-input part extends the written prefix. */
  method PutEight(numbers: seq<U64>, count: nat, ghost orig: seq<U8>, res: seq<U8>, i: nat, ghost e: nat, block: seq<U8>)
    returns (r: seq<U8>)
    requires count <= |numbers| && count - count % 32 <= i && i == 8 * e && i + 8 <= count - count % 8
    requires StreamDone(res, orig, numbers, count, i)
    requires block == if Hopeless(numbers, i) then [0, 0, 0, 0, 0, 0, 0, 0] else Outcomes(numbers, i, 8)
    ensures StreamDone(r, orig, numbers, count, i + 8)
  {
    r := Store(res, i, block);
    forall j | i <= j < i + 8
      ensures r[j] == StreamByte(numbers, count, j)
    {
      EightBlock(count, i, e, j);
    }
  }

  lemma EightBlock(count: nat, i: nat, e: nat, j: nat)
    requires count - count % 32 <= i && i == 8 * e && i + 8 <= count - count % 8 && i <= j < i + 8
    ensures InEights(count, j) && j - j % 8 == i
  {
    DivUnique(j, 8, e, j - i);
  }

  /** What the stream promises: every byte is 0 or 1, a 1 is always a
      survivor, and outside the 8-input part every byte is the reference
      outcome. */
  lemma StreamSound(numbers: seq<U64>, count: nat, res: seq<U8>, j: nat)
    requires count <= |numbers| && j < count <= |res|
    requires forall k | 0 <= k < count :: res[k] == StreamByte(numbers, count, k)
    ensures res[j] <= 1 && (res[j] == 1 ==> Survives(numbers[j]))
    ensures !InEights(count, j) ==> res[j] == ScalarSurviveBarrett16(numbers[j])
  {
  }

  /** The stream over 2, 3, ..., 9 takes the 8-input path and writes 0 for
      the survivor 2. */
  lemma StreamDropsTwo(numbers: seq<U64>)
    requires numbers == [2, 3, 4, 5, 6, 7, 8, 9]
    ensures Survives(numbers[0]) && StreamByte(numbers, 8, 0) == 0
  {
    SmallPrimesZeroed(numbers);
    HopelessByte(numbers, 8, 0);
  }

  lemma HopelessByte(numbers: seq<U64>, count: nat, j: nat)
    requires j < count <= |numbers| && j % 8 == 0 && InEights(count, j) && Hopeless(numbers, j)
    ensures StreamByte(numbers, count, j) == 0
  {
  }

  /** The prefilter repaired: the floor constant for 30 with the corrective
      subtract (`wheel30_mask` of `neon_wheel`), and the lanes holding 2, 3
      or 5 kept. It is true exactly when the block holds a wheel
      candidate. */
  method CorrectedPrefilter(ptr: seq<U64>, at: nat) returns (any: bool)
    requires at + 8 <= |ptr|
    requires forall j | at <= j < at + 8 :: ptr[j] < TWO32
    ensures any <==> exists j | at <= j < at + 8 :: Wheel.WheelCandidate(ptr[j])
  {
    var w1 := Wheel.WheelPass(ptr, at, true);
    var w2 := Wheel.WheelPass(ptr, at + 4, true);
    OrTwoZero(VMaxvq(w1), VMaxvq(w2));
    CandidateLanes(ptr, at, w1, w2);
    any := BitOr(VMaxvq(w1), VMaxvq(w2), 32) != 0;
  }

  lemma CandidateLanes(ptr: seq<U64>, at: nat, w1: U32x4, w2: U32x4)
    requires at + 8 <= |ptr|
    requires Wheel.WheelLanes(w1, ptr, at) && Wheel.WheelLanes(w2, ptr, at + 4)
    ensures VMaxvq(w1) == 0 && VMaxvq(w2) == 0 <==> forall j | at <= j < at + 8 :: !Wheel.WheelCandidate(ptr[j])
  {
    if VMaxvq(w1) == 0 && VMaxvq(w2) == 0 {
      forall j | at <= j < at + 8
        ensures !Wheel.WheelCandidate(ptr[j])
      {
        if j < at + 4 {
          assert w1[j - at] <= VMaxvq(w1);
        } else {
          assert w2[j - at - 4] <= VMaxvq(w2);
        }
      }
    }
    if VMaxvq(w1) != 0 {
      var i :| 0 <= i < 4 && w1[i] == VMaxvq(w1);
      assert Wheel.WheelCandidate(ptr[at + i]);
    }
    if VMaxvq(w2) != 0 {
      var i :| 0 <= i < 4 && w2[i] == VMaxvq(w2);
      assert Wheel.WheelCandidate(ptr[at + 4 + i]);
    }
  }

  /** The 8-input filter with the repaired prefilter: the reference
      outcomes of its inputs, on every block. */
  method CorrectedFilter8(ptr: seq<U64>, at: nat) returns (out: seq<U8>)
    requires at + 8 <= |ptr|
    ensures out == Outcomes(ptr, at, 8)
  {
    var all32 := All32(ptr, at, 4);
    if all32 {
      var any := CorrectedPrefilter(ptr, at);
      if !any {
        NoCandidates(ptr, at);
        return [0, 0, 0, 0, 0, 0, 0, 0];
      }
    }
    var _, _, m1, m2 := BlockMasks(ptr, at);
    out := MaskBytes(ptr, at, all32, m1, m2);
  }

  /** A block without a wheel candidate has no survivor, so eight zero
      bytes are its outcomes. */
  lemma NoCandidates(ptr: seq<U64>, at: nat)
    requires at + 8 <= |ptr|
    requires forall j | at <= j < at + 8 :: !Wheel.WheelCandidate(ptr[j])
    ensures Outcomes(ptr, at, 8) == [0, 0, 0, 0, 0, 0, 0, 0]
  {
    forall k | 0 <= k < 8
      ensures Outcomes(ptr, at, 8)[k] == 0
    {
      SurvivesByWheel30(ptr[at + k]);
    }
  }
}
