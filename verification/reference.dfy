/** What every kernel computes, stated once: a value survives when it fits
    in 32 bits and none of the sixteen table primes divides it, except that
    a prime divides itself without rejecting it. The scalar fallback
    `scalar_survive_barrett16` is modelled here too and shown to compute
    exactly this. */
module Reference {
  import opened Bits
  import opened Barrett
  import opened PrimeTables
  import opened Neon

  /** The reference outcome for one 64-bit input. */
  ghost predicate Survives(v: nat)
  {
    v < TWO32 && forall j | 0 <= j < |SEQUENTIAL.p| :: !ProperlyDivides(SEQUENTIAL.p[j], v)
  }

  /** No table prime from position lo onwards properly divides n. */
  ghost predicate ClearFrom(n: nat, t: ConstTable, lo: nat)
  {
    forall j | lo <= j < |t.p| :: !ProperlyDivides(t.p[j], n)
  }

  /** The scalar trial loop over t[lo..], as every scalar tail writes it:
      a prime equal to n is skipped, otherwise a Barrett remainder of 0
      rejects n at once. */
  function TrialFrom(n: nat, t: ConstTable, lo: nat): (ok: bool)
    requires n < TWO32 && t.Valid() && lo <= |t.p|
    ensures ok <==> ClearFrom(n, t, lo)
    decreases |t.p| - lo
  {
    if lo == |t.p| then true
    else
      FloorExact(n, t.mu[lo], t.p[lo]);
      if n != t.p[lo] && Reduce(n, t.mu[lo], t.p[lo]) == 0 then false
      else TrialFrom(n, t, lo + 1)
  }

  /** The interleaved visiting order tests the same primes. */
  lemma InterleavedClear(n: nat)
    ensures ClearFrom(n, INTERLEAVED, 0) <==> ClearFrom(n, SEQUENTIAL, 0)
  {
    TablesValid();
    if ClearFrom(n, SEQUENTIAL, 0) {
      forall j | 0 <= j < |INTERLEAVED.p|
        ensures !ProperlyDivides(INTERLEAVED.p[j], n)
      {
        assert INTERLEAVED.p[j] in SEQUENTIAL.p;
      }
    }
    if ClearFrom(n, INTERLEAVED, 0) {
      forall j | 0 <= j < |SEQUENTIAL.p|
        ensures !ProperlyDivides(SEQUENTIAL.p[j], n)
      {
        assert SEQUENTIAL.p[j] in INTERLEAVED.p;
      }
    }
  }

  /** `scalar_survive_barrett16`: 1 when v survives, 0 otherwise. Values above
      32 bits are rejected before any division. */
  function ScalarSurviveBarrett16(v: nat): (r: U8)
    ensures r == if Survives(v) then 1 else 0
  {
    if v > 0xFFFF_FFFF then 0
    else
      TablesValid();
      InterleavedClear(v);
      if TrialFrom(v, INTERLEAVED, 0) then 1 else 0
  }

  /** Every prime that fits in 32 bits survives: the filter never rejects a
      prime. */
  lemma PrimesSurvive(v: nat)
    requires IsPrime(v) && v < TWO32
    ensures Survives(v)
  {
    TablesValid();
    forall j | 0 <= j < |SEQUENTIAL.p|
      ensures !ProperlyDivides(SEQUENTIAL.p[j], v)
    {
      var p := SEQUENTIAL.p[j];
      assert p >= 2;
      if ProperlyDivides(p, v) {
        DivisorAtMost(p, v);
      }
    }
  }

  /** The boundary values: 0 and 2^32 - 1 are rejected (2 and 3 divide
      them), 1 survives (no table prime divides it), and so does every table
      prime itself. */
  lemma SurvivesEdges()
    ensures !Survives(0) && Survives(1) && !Survives(0xFFFF_FFFF) && !Survives(TWO32)
    ensures forall j | 0 <= j < |SEQUENTIAL.p| :: Survives(SEQUENTIAL.p[j])
  {
    SequentialValues();
    assert ProperlyDivides(SEQUENTIAL.p[0], 0);
    assert ProperlyDivides(SEQUENTIAL.p[1], 0xFFFF_FFFF);
    OneSurvives();
    TablePrimesSurvive();
  }

  lemma OneSurvives()
    ensures Survives(1)
  {
    SequentialValues();
  }

  lemma TablePrimesSurvive()
    ensures forall j | 0 <= j < |SEQUENTIAL.p| :: Survives(SEQUENTIAL.p[j])
  {
    TableIsPrimesTo53();
    forall j | 0 <= j < |SEQUENTIAL.p|
      ensures Survives(SEQUENTIAL.p[j])
    {
      PrimesSurvive(SEQUENTIAL.p[j]);
    }
  }
}
