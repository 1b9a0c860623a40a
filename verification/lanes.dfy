/** From registers to flags: a survivor register encodes one flag per lane
    (all ones for "survives"), the lane-enable step clears the lanes whose
    input does not fit in 32 bits, and the reference outcome of a whole run
    of inputs is a flag sequence the streams are compared against. */
module Lanes {
  import opened Bits
  import opened Barrett
  import opened PrimeTables
  import opened Neon
  import opened Kernels
  import opened Reference
  import opened Pack

  /** The reference outcome of every input of a run. */
  ghost function SurvivorFlags(numbers: seq<U64>): (f: seq<bool>)
    ensures |f| == |numbers|
    ensures forall j | 0 <= j < |numbers| :: f[j] == Survives(numbers[j])
  {
    seq(|numbers|, j requires 0 <= j < |numbers| => Survives(numbers[j]))
  }

  /** Lanes 0..3 of sv encode the flags f[off .. off + 4]. */
  ghost predicate Encodes(sv: U32x4, f: seq<bool>, off: nat)
    requires off + 4 <= |f|
  {
    forall i | 0 <= i < 4 :: sv[i] == if f[off + i] then ALL_ONES else 0
  }

  /** Two registers encoding eight consecutive flags are canonical masks,
      and their mask flags are those eight flags. */
  lemma MaskFlagsOf(sv1: U32x4, sv2: U32x4, f: seq<bool>, off: nat)
    requires off + 8 <= |f| && Encodes(sv1, f, off) && Encodes(sv2, f, off + 4)
    ensures MaskReg(sv1) && MaskReg(sv2)
    ensures MaskFlags(sv1, sv2) == f[off .. off + 8]
  {
    assert forall i | 0 <= i < 4 :: sv2[i] == if f[off + 4 + i] then ALL_ONES else 0;
  }

  /** Four registers encoding sixteen consecutive flags: their two mask
      halves, joined, are those sixteen flags. */
  lemma SixteenFlags(sv1: U32x4, sv2: U32x4, sv3: U32x4, sv4: U32x4, f: seq<bool>, off: nat)
    requires off + 16 <= |f|
    requires Encodes(sv1, f, off) && Encodes(sv2, f, off + 4)
    requires Encodes(sv3, f, off + 8) && Encodes(sv4, f, off + 12)
    ensures MaskReg(sv1) && MaskReg(sv2) && MaskReg(sv3) && MaskReg(sv4)
    ensures MaskFlags(sv1, sv2) + MaskFlags(sv3, sv4) == f[off .. off + 16]
  {
    MaskFlagsOf(sv1, sv2, f, off);
    MaskFlagsOf(sv3, sv4, f, off + 8);
    assert f[off .. off + 16] == f[off .. off + 8] + f[off + 8 .. off + 16];
  }

  /** Survival decided by a table's sixteen slots, in either layout. */
  lemma SurvivesByTable(v: nat)
    ensures Survives(v) <==> v < TWO32 && ClearIn(v % TWO32, SEQUENTIAL, 0, 16)
    ensures Survives(v) <==> v < TWO32 && ClearIn(v % TWO32, INTERLEAVED, 0, 16)
  {
    TablesValid();
    if v < TWO32 {
      assert v % TWO32 == v;
      InterleavedClear(v);
      assert ClearIn(v, SEQUENTIAL, 0, 16) <==> ClearFrom(v, SEQUENTIAL, 0);
      assert ClearIn(v, INTERLEAVED, 0, 16) <==> ClearFrom(v, INTERLEAVED, 0);
    }
  }

  /** `if (!all32) sv = vandq_u32(sv, en)`: a lane whose input has high bits
      set is cleared; when all32 holds, no lane has. */
  function Enable(sv: U32x4, ptr: seq<U64>, off: nat, all32: bool): (r: U32x4)
    requires off + 4 <= |ptr| && MaskReg(sv)
    requires all32 ==> forall j | off <= j < off + 4 :: ptr[j] < TWO32
    ensures forall i | 0 <= i < 4 :: r[i] == if ptr[off + i] < TWO32 then sv[i] else 0
  {
    if all32 then
      sv
    else
      var en := EnableReg(ptr, off);
      AndMaskLanes(sv, en);
      VAndq(sv, en)
  }

  /** One register of the table kernels: the composite mask over all sixteen
      slots of t, its survivors, and the enable step. The result encodes the
      reference outcome of the four inputs. */
  method TableSurvivors(ptr: seq<U64>, off: nat, t: ConstTable, all32: bool) returns (sv: U32x4)
    requires off + 4 <= |ptr|
    requires t == SEQUENTIAL || t == INTERLEAVED
    requires all32 ==> forall j | off <= j < off + 4 :: ptr[j] < TWO32
    ensures Encodes(sv, SurvivorFlags(ptr), off)
  {
    var n := LoadReg(ptr, off);
    var m := TableMask(n, t, 0);
    var s := Survivors(m);
    sv := Enable(s, ptr, off, all32);
    TableLanes(ptr, off, t, n, m, s, sv);
  }

  /** The composite mask over all sixteen slots of a table. */
  method TableMask(n: U32x4, t: ConstTable, lo: nat) returns (m: U32x4)
    requires t == SEQUENTIAL || t == INTERLEAVED
    requires lo <= 16
    ensures |t.p| == 16
    ensures forall i | 0 <= i < 4 :: IsMask(m[i]) && (m[i] == 0 <==> ClearIn(n[i], t, lo, 16))
  {
    SequentialValid();
    InterleavedValid();
    m := DivisibleMask(n, t, lo, 16);
  }

  /** Two registers of a table kernel covering inputs at .. at + 7, sharing
      one all32 check: they encode the reference outcomes of those inputs. */
  method Block8Masks(ptr: seq<U64>, at: nat, t: ConstTable, all32: bool) returns (sv1: U32x4, sv2: U32x4)
    requires at + 8 <= |ptr|
    requires t == SEQUENTIAL || t == INTERLEAVED
    requires all32 ==> forall j | at <= j < at + 8 :: ptr[j] < TWO32
    ensures Encodes(sv1, SurvivorFlags(ptr), at) && Encodes(sv2, SurvivorFlags(ptr), at + 4)
    ensures MaskReg(sv1) && MaskReg(sv2)
    ensures MaskFlags(sv1, sv2) == SurvivorFlags(ptr)[at .. at + 8]
  {
    sv1 := TableSurvivors(ptr, at, t, all32);
    sv2 := TableSurvivors(ptr, at + 4, t, all32);
    MaskFlagsOf(sv1, sv2, SurvivorFlags(ptr), at);
  }

  lemma TableLanes(ptr: seq<U64>, off: nat, t: ConstTable, n: U32x4, m: U32x4, s: U32x4, sv: U32x4)
    requires off + 4 <= |ptr| && (t == SEQUENTIAL || t == INTERLEAVED) && |t.p| == 16
    requires forall i | 0 <= i < 4 :: n[i] == ptr[off + i] % TWO32
    requires forall i | 0 <= i < 4 :: m[i] == 0 <==> ClearIn(n[i], t, 0, 16)
    requires forall i | 0 <= i < 4 :: s[i] == if m[i] == 0 then ALL_ONES else 0
    requires forall i | 0 <= i < 4 :: sv[i] == if ptr[off + i] < TWO32 then s[i] else 0
    ensures Encodes(sv, SurvivorFlags(ptr), off)
  {
    forall i | 0 <= i < 4
      ensures sv[i] == if Survives(ptr[off + i]) then ALL_ONES else 0
    {
      LaneSurvives(ptr[off + i], n[i], m[i], s[i], sv[i], t);
    }
  }

  /** One lane of TableSurvivors. */
  lemma LaneSurvives(v: nat, n: nat, m: nat, sv: nat, r: nat, t: ConstTable)
    requires t == SEQUENTIAL || t == INTERLEAVED
    requires |t.p| == 16 && n == v % TWO32
    requires m == 0 <==> ClearIn(n, t, 0, 16)
    requires sv == if m == 0 then ALL_ONES else 0
    requires r == if v < TWO32 then sv else 0
    ensures r == if Survives(v) then ALL_ONES else 0
  {
    SurvivesByTable(v);
  }

  /** res agrees with the scalar outcome below i and with the original
      buffer from i on. */
  predicate OutcomesDone(res: seq<U8>, orig: seq<U8>, numbers: seq<U64>, i: nat)
  {
    |res| == |orig| && i <= |numbers| && i <= |orig| &&
    (forall j | 0 <= j < i :: res[j] == ScalarSurviveBarrett16(numbers[j])) &&
    (forall j | i <= j < |orig| :: res[j] == orig[j])
  }

  /** The scalar outcomes of the n inputs from offset at: 1 for a survivor,
      0 otherwise. */
  ghost function Outcomes(ptr: seq<U64>, at: nat, n: nat): (r: seq<U8>)
    requires at + n <= |ptr|
    ensures |r| == n
    ensures forall k | 0 <= k < n :: r[k] == ScalarSurviveBarrett16(ptr[at + k])
  {
    var r: seq<U8> := seq(n, k requires 0 <= k < n => if Survives(ptr[at + k]) then 1 else 0);
    r
  }

  /** Storing a block of scalar outcomes extends the written prefix. */
  lemma PutOutcomes(res: seq<U8>, orig: seq<U8>, numbers: seq<U64>, i: nat, n: nat)
    requires OutcomesDone(res, orig, numbers, i)
    requires i + n <= |res| && i + n <= |numbers|
    ensures OutcomesDone(Store(res, i, Outcomes(numbers, i, n)), orig, numbers, i + n)
  {
    var r := Store(res, i, Outcomes(numbers, i, n));
    forall j | i <= j < i + n
      ensures r[j] == ScalarSurviveBarrett16(numbers[j])
    {
      assert r[j] == Outcomes(numbers, i, n)[j - i];
    }
  }

  /** 0/1 bytes of the reference flags of a block are its scalar outcomes. */
  lemma BytesAreOutcomes(b: seq<U8>, ptr: seq<U64>, at: nat, n: nat)
    requires at + n <= |ptr| && |b| == n
    requires forall j | 0 <= j < n :: b[j] == BoolBit(SurvivorFlags(ptr)[at .. at + n][j])
    ensures b == Outcomes(ptr, at, n)
  {
    forall j | 0 <= j < n
      ensures b[j] == Outcomes(ptr, at, n)[j]
    {
      assert SurvivorFlags(ptr)[at .. at + n][j] == Survives(ptr[at + j]);
    }
  }
}
