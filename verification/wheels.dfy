/** The wheel prefilters of the wheel variants: the residues coprime to 30
    and to 210 as the sources list them, what it means for a residue to be
    coprime, and the vector masks that compare a Barrett remainder against a
    residue list. */
module Wheels {
  import opened Bits
  import opened Barrett
  import opened PrimeTables
  import opened Neon
  import opened Kernels
  import opened Reference

  /** None of the prime factors of 30 = 2 * 3 * 5 divides r, that is
      gcd(r, 30) = 1. */
  predicate Coprime30(r: nat)
  {
    r % 2 != 0 && r % 3 != 0 && r % 5 != 0
  }

  /** gcd(r, 210) = 1, with 210 = 2 * 3 * 5 * 7. */
  predicate Coprime210(r: nat)
  {
    Coprime30(r) && r % 7 != 0
  }

  /** The eight residues modulo 30 a prime above 5 can have. */
  const RESIDUES30: seq<nat> := [1, 7, 11, 13, 17, 19, 23, 29]

  /** `WHEEL30_COPRIME`: entry r is 1 exactly for the residues above. */
  const WHEEL30_COPRIME: seq<nat> :=
    [0, 1, 0, 0, 0, 0, 0, 1, 0, 0] +
    [0, 1, 0, 1, 0, 0, 0, 1, 0, 1] +
    [0, 0, 0, 1, 0, 0, 0, 0, 0, 1]

  /** `WHEEL210_RESIDUES`, in the four groups `wheel210_mask` scans. */
  const RESIDUES210: seq<nat> :=
    [1, 11, 13, 17, 19, 23, 29, 31, 37, 41, 43, 47] +
    [53, 59, 61, 67, 71, 73, 79, 83, 89, 97, 101, 103, 107, 109] +
    [113, 121, 127, 131, 137, 139, 143, 149, 151, 157, 163, 167] +
    [169, 173, 179, 181, 187, 191, 193, 197, 199, 209]

  /** The residue list and the lookup table modulo 30 both single out the
      residues coprime to 30. */
  lemma Residues30(r: nat)
    requires r < 30
    ensures r in RESIDUES30 <==> Coprime30(r)
    ensures WHEEL30_COPRIME[r] == 1 <==> Coprime30(r)
    ensures WHEEL30_COPRIME[r] == 0 || WHEEL30_COPRIME[r] == 1
  {
  }

  /** `WHEEL210_RESIDUES` is strictly increasing, below 210, and each entry
      is coprime to 210. */
  lemma Residue210At(j: nat)
    requires j < |RESIDUES210|
    ensures |RESIDUES210| == 48
    ensures RESIDUES210[j] < 210 && Coprime210(RESIDUES210[j])
    ensures j + 1 < |RESIDUES210| ==> RESIDUES210[j] < RESIDUES210[j + 1]
  {
    if j < 12 {
      ResidueGroup0(j);
    } else if j < 26 {
      ResidueGroup1(j);
    } else if j < 38 {
      ResidueGroup2(j);
    } else {
      ResidueGroup3(j);
    }
  }

  lemma ResidueGroup0(j: nat)
    requires 0 <= j < 12
    ensures |RESIDUES210| == 48
    ensures RESIDUES210[j] < 210 && Coprime210(RESIDUES210[j])
    ensures j + 1 < |RESIDUES210| ==> RESIDUES210[j] < RESIDUES210[j + 1]
  {
  }

  lemma ResidueGroup1(j: nat)
    requires 12 <= j < 26
    ensures |RESIDUES210| == 48
    ensures RESIDUES210[j] < 210 && Coprime210(RESIDUES210[j])
    ensures j + 1 < |RESIDUES210| ==> RESIDUES210[j] < RESIDUES210[j + 1]
  {
  }

  lemma ResidueGroup2(j: nat)
    requires 26 <= j < 38
    ensures |RESIDUES210| == 48
    ensures RESIDUES210[j] < 210 && Coprime210(RESIDUES210[j])
    ensures j + 1 < |RESIDUES210| ==> RESIDUES210[j] < RESIDUES210[j + 1]
  {
  }

  lemma ResidueGroup3(j: nat)
    requires 38 <= j < 48
    ensures |RESIDUES210| == 48
    ensures RESIDUES210[j] < 210 && Coprime210(RESIDUES210[j])
    ensures j + 1 < |RESIDUES210| ==> RESIDUES210[j] < RESIDUES210[j + 1]
  {
  }

  /** A residue below 210 is listed exactly when it is coprime to 210: the
      list holds all 48 of them. */
  lemma Residues210(r: nat)
    requires r < 210
    ensures r in RESIDUES210 <==> Coprime210(r)
  {
    if r in RESIDUES210 {
      var j :| 0 <= j < |RESIDUES210| && RESIDUES210[j] == r;
      Residue210At(j);
    }
    if Coprime210(r) {
      var q, s := r / 30, r % 30;
      assert r == 30 * q + s && q < 7;
      CoprimeModulo30(r);
      Residues30(s);
      if q == 0 {
        assert r == s;
        ResidueRow0(s);
      } else if q == 1 {
        assert r == 30 + s;
        ResidueRow1(s);
      } else if q == 2 {
        assert r == 60 + s;
        ResidueRow2(s);
      } else if q == 3 {
        assert r == 90 + s;
        ResidueRow3(s);
      } else if q == 4 {
        assert r == 120 + s;
        ResidueRow4(s);
      } else if q == 5 {
        assert r == 150 + s;
        ResidueRow5(s);
      } else {
        assert r == 180 + s;
        ResidueRow6(s);
      }
    }
  }

  lemma ResidueRow0(s: nat)
    requires s in RESIDUES30 && (s) % 7 != 0
    ensures s in RESIDUES210
  {
  }

  lemma ResidueRow1(s: nat)
    requires s in RESIDUES30 && (30 + s) % 7 != 0
    ensures 30 + s in RESIDUES210
  {
  }

  lemma ResidueRow2(s: nat)
    requires s in RESIDUES30 && (60 + s) % 7 != 0
    ensures 60 + s in RESIDUES210
  {
  }

  lemma ResidueRow3(s: nat)
    requires s in RESIDUES30 && (90 + s) % 7 != 0
    ensures 90 + s in RESIDUES210
  {
  }

  lemma ResidueRow4(s: nat)
    requires s in RESIDUES30 && (120 + s) % 7 != 0
    ensures 120 + s in RESIDUES210
  {
  }

  lemma ResidueRow5(s: nat)
    requires s in RESIDUES30 && (150 + s) % 7 != 0
    ensures 150 + s in RESIDUES210
  {
  }

  lemma ResidueRow6(s: nat)
    requires s in RESIDUES30 && (180 + s) % 7 != 0
    ensures 180 + s in RESIDUES210
  {
  }

  /** (d * e * q + s) % d == s % d: reducing modulo a multiple of d keeps the
      remainder modulo d. */
  lemma ModFactor(r: nat, d: nat, e: nat)
    requires d > 0 && e > 0
    ensures r % d == (r % (d * e)) % d
  {
    var q, s := DivParts(r, d * e);
    var t, u := DivParts(s, d);
    Regroup(q, d, e, t, u);
    DivUnique(r, d, e * q + t, u);
  }

  /** q * (d * e) + (t * d + u) regrouped by d. */
  lemma Regroup(q: nat, d: nat, e: nat, t: nat, u: nat)
    ensures q * (d * e) + (t * d + u) == (e * q + t) * d + u
  {
  }

  /** Coprimality to 30 depends only on the residue modulo 30. */
  lemma CoprimeModulo30(n: nat)
    ensures Coprime30(n) <==> Coprime30(n % 30)
  {
    ModFactor(n, 2, 15);
    ModFactor(n, 3, 10);
    ModFactor(n, 5, 6);
  }

  /** Coprimality to 210 depends only on the residue modulo 210. */
  lemma CoprimeModulo210(n: nat)
    ensures Coprime210(n) <==> Coprime210(n % 210)
  {
    ModFactor(n, 2, 105);
    ModFactor(n, 3, 70);
    ModFactor(n, 5, 42);
    ModFactor(n, 7, 30);
  }

  /** Splitting a run of table slots in two. */
  lemma ClearSplit(x: nat, t: ConstTable, lo: nat, mid: nat, hi: nat)
    requires lo <= mid <= hi <= |t.p|
    ensures ClearIn(x, t, lo, hi) <==> ClearIn(x, t, lo, mid) && ClearIn(x, t, mid, hi)
  {
  }

  /** For a value other than 2, 3 and 5, slots 0..2 of the table (the
      primes 2, 3, 5) clear it exactly when it is coprime to 30. */
  lemma WheelSlots30(n: nat)
    requires n != 2 && n != 3 && n != 5
    ensures Coprime30(n) <==> ClearIn(n, SEQUENTIAL, 0, 3)
  {
    SequentialValues();
    if Coprime30(n) {
      forall j | 0 <= j < 3
        ensures !ProperlyDivides(SEQUENTIAL.p[j], n)
      {
        assert j == 0 || j == 1 || j == 2;
      }
    }
    if ClearIn(n, SEQUENTIAL, 0, 3) {
      assert !ProperlyDivides(SEQUENTIAL.p[0], n) && !ProperlyDivides(SEQUENTIAL.p[1], n);
      assert !ProperlyDivides(SEQUENTIAL.p[2], n);
    }
  }

  /** For a value other than 2, 3, 5 and 7, slots 0..3 clear it exactly when
      it is coprime to 210. */
  lemma WheelSlots210(n: nat)
    requires n != 2 && n != 3 && n != 5 && n != 7
    ensures Coprime210(n) <==> ClearIn(n, SEQUENTIAL, 0, 4)
  {
    SequentialValues();
    WheelSlots30(n);
    ClearSplit(n, SEQUENTIAL, 0, 3, 4);
    assert ClearIn(n, SEQUENTIAL, 3, 4) <==> !ProperlyDivides(SEQUENTIAL.p[3], n);
  }

  /** The reference outcome seen through the wheel modulo 30: a value
      survives exactly when it fits in 32 bits, is 2, 3 or 5 or coprime to
      30, and no table prime from 7 on properly divides it. */
  lemma SurvivesByWheel30(v: nat)
    ensures Survives(v) <==>
      v < TWO32 && (v == 2 || v == 3 || v == 5 || Coprime30(v)) && ClearIn(v, SEQUENTIAL, 3, 16)
  {
    TablesValid();
    SequentialValues();
    ClearSplit(v, SEQUENTIAL, 0, 3, 16);
    assert Survives(v) <==> v < TWO32 && ClearIn(v, SEQUENTIAL, 0, 16);
    if v != 2 && v != 3 && v != 5 {
      WheelSlots30(v);
    }
  }

  /** The scalar trial loop of the wheel tails, from table slot lo on: a
      table prime other than v that divides v rejects it. */
  method TrialTail(v: nat, lo: nat) returns (ok: bool)
    requires v < TWO32 && lo <= 16
    ensures ok <==> ClearIn(v, SEQUENTIAL, lo, 16)
  {
    TablesValid();
    ok := TrialFrom(v, SEQUENTIAL, lo);
  }

  /** The reference outcome seen through the wheel modulo 210, for values
      other than 2, 3, 5 and 7. */
  lemma SurvivesByWheel210(v: nat)
    requires v != 2 && v != 3 && v != 5 && v != 7
    ensures Survives(v) <==> v < TWO32 && Coprime210(v) && ClearIn(v, SEQUENTIAL, 4, 16)
  {
    TablesValid();
    ClearSplit(v, SEQUENTIAL, 0, 4, 16);
    assert Survives(v) <==> v < TWO32 && ClearIn(v, SEQUENTIAL, 0, 16);
    WheelSlots210(v);
  }

  /** The OR of `vceqq(r, res[k])` over a residue list: a lane is all ones
      exactly when its remainder is one of the residues. The sources start
      either from zero or from the first comparison; OR with zero changes
      nothing. */
  function ResidueMask(r: U32x4, res: seq<nat>): (m: U32x4)
    requires forall k | 0 <= k < |res| :: res[k] < TWO32
    ensures forall i | 0 <= i < 4 :: IsMask(m[i]) && (m[i] == 0 <==> r[i] !in res)
  {
    if |res| == 0 then VDup(0)
    else
      var prev := ResidueMask(r, res[..|res| - 1]);
      var e := VCeqq(r, VDup(res[|res| - 1]));
      MaskLanes(prev, e);
      assert res == res[..|res| - 1] + [res[|res| - 1]];
      VOrrq(prev, e)
  }

  /** `wheel30_mask` / `wheel30_pass`: the Barrett remainder modulo 30 with
      one corrective subtract, compared against the eight residues. */
  function Wheel30Mask(n: U32x4, mu: U32): (w: U32x4)
    ensures forall i | 0 <= i < 4 :: IsMask(w[i]) && (w[i] == 0 <==> Reduce(n[i], mu, 30) !in RESIDUES30)
  {
    ResiduesBelow30();
    ResidueMask(BarrettReg(n, VDup(mu), VDup(30)), RESIDUES30)
  }

  /** 2863311531 = ceil(2^33 / 3), the constant `neon_optimized` and
      `neon_final` use for the remainder modulo 30. It belongs to a shift of
      33 and the divisor 3; floor(2^32 / 30) would be 143165576. */
  const MU30_THIRDS: U32 := 2863311531

  /** An input the residue test with MU30_THIRDS and no corrective subtract
      passes: its wrapped remainder is one of the eight residues. */
  ghost predicate ThirdsHit(v: nat)
  {
    v < TWO32 && RawRemainder(v, MU30_THIRDS, 30) in RESIDUES30
  }

  /** The narrowed lane of a 32-bit input is the input itself. */
  lemma NarrowedHit(x: nat, v: nat)
    requires x == v % TWO32 && v < TWO32
    ensures ThirdsHit(x) == ThirdsHit(v)
  {
    assert x == v;
  }

  /** The residue test of `neon_optimized` and `neon_final`: the remainder
      with MU30_THIRDS and no corrective subtract, compared against the
      eight residues. */
  function ThirdsMask(n: U32x4): (w: U32x4)
    ensures forall i | 0 <= i < 4 ::
      IsMask(w[i]) && (w[i] == 0 <==> !ThirdsHit(n[i]))
  {
    ResiduesBelow30();
    ResidueMask(BarrettRawReg(n, VDup(MU30_THIRDS), VDup(30)), RESIDUES30)
  }

  /** The estimate with MU30_THIRDS is about 2n / 3 rather than n / 30, so
      n - 30 * q wraps for every n from 2 to 9: none of them passes, 7 wraps
      to 2^32 - 113. */
  lemma ThirdsSmall(v: nat)
    requires 2 <= v <= 9
    ensures !ThirdsHit(v)
    ensures v == 7 ==> RawRemainder(v, MU30_THIRDS, 30) == TWO32 - 113
  {
    assert Quotient(v, MU30_THIRDS) == (2 * v) / 3;
  }

  /** 1130254551 = 3 * 376751517 passes the test: its wrapped remainder is
      11. */
  lemma ThirdsPasses3()
    ensures ThirdsHit(1130254551) && 1130254551 % 3 == 0
    ensures RawRemainder(1130254551, MU30_THIRDS, 30) == 11
  {
    assert Quotient(1130254551, MU30_THIRDS) == 753503034;
  }

  lemma ResiduesBelow30()
    ensures forall k | 0 <= k < |RESIDUES30| :: RESIDUES30[k] < 30
  {
  }
}
