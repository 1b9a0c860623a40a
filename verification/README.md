# NEON trial-division prefilter, modelled in Dafny

The repository filters 64-bit candidates before a primality test. A value
*survives* when it fits in 32 bits and no prime of the fixed table
2, 3, 5, …, 53 divides it properly, that is, without being equal to it.
`scalar_survive_barrett16` is the reference. Every other variant computes the
same decision with ARM NEON kernels:

- Barrett remainders on four 32-bit lanes at a time;
- composite masks accumulated over the sixteen table primes;
- lane enables for inputs with high bits set;
- wheel prefilters modulo 30 and 210;
- mask packing into 0/1 bytes or LSB-first bits;
- streaming drivers that dispatch blocks of 32, 16 and 8 inputs, then a scalar tail.

This project models all of that as pure Dafny functions and short methods, and
proves each variant equal to the reference, sound with respect to it, or
neither, with the inputs that show it under "Findings":

- equal: simd_fast.cpp, simd_ultra_fast.cpp and simd_wheel.cpp;
- sound, every bit set belongs to a survivor: the vector part of
  simd_wheel210.cpp and all of simd_wheel210_efficient.cpp, and the bytes
  of simd_final.cpp;
- neither: the vector part of simd_optimized.cpp is unsound, since its residue
  test lets non-survivors through (1130254551, a multiple of 3, and
  4068916385, a multiple of 5). The final tails of simd_wheel210.cpp and
  simd_optimized.cpp leave a stale bit set for a skipped non-survivor over a
  buffer that was not zeroed.

The model's parts:

- A NEON register is a length-4 sequence of naturals below 2^32. Each
  intrinsic is a lane-wise function with explicit wrap-around (`Neon`).
- Bitwise AND, OR, NOT and shifts are defined on naturals bit by bit (`Bits`).
- The Barrett estimate, its raw remainder and the one corrective subtract are
  plain arithmetic (`Barrett`). Floor, ceil and over-estimating constants are
  analysed there once.
- The tables are constants (`PrimeTables`). The static constructors that build
  them in the source are replaced by their results.
- The reference outcome is the ghost predicate `Reference.Survives`. Every
  kernel, tail and stream is stated against it.
- Outputs are sequences of bytes. A bitmap is described by the run of flags it
  holds (`Bitmap.Holds`, `BytesDone`, `BitsDone`). A `memcpy` of a packed word
  is its little-endian byte split.
- The kernels and drivers of each source file live in one module: `Fast`,
  `Ultra`, `Wheel`, `Wheel210`, `Wheel210Efficient`, `Optimized` and `Final`.

The variants built on a wrong constant or a lane-dropping pack are modelled as
written. Their contracts state exactly what they compute, and separate lemmas
exhibit the inputs on which they part from the reference (see "Findings").

Where a source comment and the code disagree, the model follows the code:

- The comment next to `MU210` calls it ceil(2^32 / 210); it is not.
- The comment next to `mu30` in simd_final.cpp and simd_optimized.cpp calls it
  ceil(2^32 / 30); it is ceil(2^33 / 3).
- The loop in simd_optimized.cpp that "skips 2, 3, 5" from index 6 on also
  skips 23, 29 and 31. Behind the residue test as written this is latent: the
  test already rejects the inputs the skip would let through, such as 529.

## Model

| member | source | states |
|---|---|---|
| Barrett.FloorQuotient | src/primes_tables.hpp:9-16 | with mu = floor(2^32 / p) the estimate (n * mu) >> 32 is floor(n / p) or one less, for every n below 2^32 |
| Barrett.FloorExact | src/simd_fast.cpp:147-149 | with a floor constant, n - q * p does not wrap, stays below 2p, and one conditional subtract yields n mod p |
| Barrett.CeilQuotient | src/simd_wheel210_efficient.cpp:16-17 | with mu = ceil(2^32 / p) the estimate is floor(n / p) or one more, and exact on multiples of p |
| Barrett.CeilSound | src/simd_wheel210_efficient.cpp:40-48 | with a ceil constant, a corrected result below p is n mod p, the result is 0 exactly on multiples of p, and otherwise it is the wrapped value 2^32 + n mod p - 2p |
| Barrett.CorrectCases | src/simd_fast.cpp:41-42 | the branch-free `r - ((r >= p) & p)` leaves r below p alone and takes p off otherwise |
| Barrett.OverRawSound | src/simd_wheel210.cpp:95-99 | with no corrective subtract, a constant whose excess over 2^32 leaves room for one divisor still gives n mod p whenever the raw result is below p |
| Barrett.OverReduceSound | src/simd_wheel210.cpp:289-290 | with one corrective subtract, a constant whose excess leaves room for two divisors gives n mod p whenever the result is below p |
| Barrett.ExactQuotient | src/simd_optimized.cpp:11-23 | a constant exceeding 2^s / d by a small enough margin makes (n * mu) >> s exactly floor(n / d) |
| PrimeTables.TableIsPrimesTo53 | src/primes_tables.hpp:7-8 | SMALL_PRIMES followed by EXT_PRIMES is strictly increasing and holds exactly the primes up to 53 |
| PrimeTables.SieveBelow64 | src/primes_tables.hpp:7-8 | below 64 a number is prime exactly when trial division by 2, 3, 5 and 7 leaves it, the fact the table check rests on |
| PrimeTables.SequentialValues | src/primes_tables.hpp:7-16 | the sequential table's primes and constants are the header's values, in order |
| PrimeTables.FloorConstantsAt | src/primes_tables.hpp:9-16 | each SMALL_MU and EXT_MU entry is floor(2^32 / p) for its prime: mu * p <= 2^32 < (mu + 1) * p |
| PrimeTables.TablesValid | src/simd_ultra_fast.cpp:63-77 | both register layouts (sequential, as in PrimeConstants and PrimeVectors, and interleaved) hold 16 floor-constant pairs, and the interleaved one is a duplicate-free permutation of the sequential one |
| PrimeTables.InterleavedIsSequentialAt | src/simd_optimized.cpp:46-61 | slot 2i of InterleavedPrimeConstants holds SMALL_PRIMES[i] and SMALL_MU[i], slot 2i + 1 holds EXT_PRIMES[i] and EXT_MU[i] |
| Reference.TrialFrom | src/simd_fast.cpp:145-158 | the scalar trial loop over table slots lo..15, skipping a prime equal to n, accepts exactly when no slot from lo on properly divides n |
| Reference.ScalarSurviveBarrett16 | src/simd_fast.cpp:141-160 | `scalar_survive_barrett16` returns 1 exactly for the survivors: inputs above 2^32 - 1 give 0 |
| Reference.PrimesSurvive | src/simd_fast.cpp:141-160 | every prime below 2^32 survives: the filter never rejects a prime |
| Reference.SurvivesEdges | src/simd_fast.cpp:141-160 | 0, 2^32 - 1 and 2^32 are rejected, 1 survives (there is no guard for n <= 1), and each of the sixteen table primes survives |
| Reference.InterleavedClear | src/simd_ultra_fast.cpp:270-283 | visiting the primes in interleaved order (SMALL[j], then EXT[j]) tests exactly the same primes as the sequential order |
| Neon.VMulHigh | src/simd_fast.cpp:25-35 | `vmull_u32` followed by `vshrn_n_u64(.., 32)` on both halves gives each lane's floor(n * mu / 2^32) |
| Neon.VShrn32OfProduct | src/simd_fast.cpp:25-33 | the narrowing shift of a widening product is the high half of the 64-bit product, which never overflows |
| Neon.VMaxvq | src/simd_wheel.cpp:190-191 | the horizontal maximum bounds every lane and is attained by one of them |
| Neon.MaskLogic | src/simd_fast.cpp:41-42 | on comparison masks AND and OR act as conjunction and disjunction, and AND with a mask keeps or clears the other operand |
| Kernels.LoadReg | src/simd_fast.cpp:116-117 | the register loaded from four 64-bit inputs holds their low 32 bits, in order |
| Kernels.EnableReg | src/simd_fast.cpp:127-133 | the lane enable is all ones exactly for inputs whose high 32 bits are zero |
| Kernels.All32 | src/simd_fast.cpp:106-113 | `all32` holds exactly when every input of the block fits in 32 bits |
| Kernels.BarrettReg | src/simd_fast.cpp:21-43 | each lane of a register reduced with `barrett_modq_u32_dual` is the scalar one-subtract Barrett remainder of that lane |
| Kernels.BarrettRegLanes | src/simd_ultra_fast.cpp:27-60 | the intrinsic sequence of `barrett_modq_u32_quad`, on any register, computes per lane the scalar Barrett remainder |
| Kernels.PrimeHits | src/simd_fast.cpp:56-67 | `vceqq(r, 0) & ~vceqq(n, p)` for a table slot is all ones exactly on the lanes the slot's prime properly divides |
| Kernels.DivisibleMask | src/simd_fast.cpp:46-84 | the OR over table slots lo..hi-1 is a mask, zero exactly on the lanes no slot in the range properly divides |
| Kernels.GatedMask | src/simd_wheel.cpp:195-248 | the OR of slot hits ANDed with a wheel mask is zero exactly on lanes the wheel rejects or no slot in the range properly divides |
| Lanes.SurvivesByTable | src/simd_fast.cpp:96-137 | a value survives exactly when it fits in 32 bits and its low 32 bits clear all sixteen slots, in either table layout |
| Lanes.Enable | src/simd_fast.cpp:127-133 | after `if (!all32) sv &= en` a lane keeps its value when its input fits in 32 bits and is 0 otherwise, whichever way all32 came out |
| Lanes.TableSurvivors | src/simd_fast.cpp:116-133 | one register of a table kernel (mask, `vceqq(m, 0)`, enable) is all ones exactly on the surviving inputs |
| Lanes.Block8Masks | src/simd_fast.cpp:96-133 | the two survivor registers of an 8-input block are canonical masks whose flags are the reference outcomes of the eight inputs |
| Lanes.BytesAreOutcomes | src/simd_fast.cpp:87-92 | 0/1 bytes of a block's reference flags are its scalar outcomes |
| Pack.PackBitsAppend | src/simd_ultra_fast.cpp:290-296 | packing a concatenation places the second run's bits above the first's |
| Pack.BytesFromMask | src/simd_fast.cpp:87-92 | `bytes_from_u32_mask` yields byte k = 1 exactly when lane k is all ones, lanes 0-3 from sv1 and 4-7 from sv2 |
| Pack.BitpackFromMask | src/simd_fast.cpp:181-196 | `bitpack_from_u32_mask` sets bit k exactly when lane k is all ones; the weighted sum never wraps |
| Pack.MoveMask8 | src/simd_wheel.cpp:15-31 | the MSB movemask of simd_wheel.cpp sets bit k exactly when lane k is all ones |
| Pack.MoveMaskStepsPacks | src/simd_wheel.cpp:22-29 | after k of its steps, each OR-ing in `1 << k` when byte k has its top bit set, the mask packs the first k lanes |
| Pack.MoveMask8Shifted | src/simd_ultra_fast.cpp:14-23 | the shifted movemask of simd_ultra_fast.cpp keeps only lane 0: the result is that lane's bit |
| Pack.MoveMask8ShiftedLosesLanes | src/simd_ultra_fast.cpp:14-23 | on the lane pattern 1101 0100 the shifted movemask gives 0x01 where the MSB movemask gives 0x2b |
| Pack.Bitpack16Masks | src/simd_wheel.cpp:34-39 | `bitpack16_from_u32_masks` over the MSB movemask packs all sixteen lanes, lanes 8-15 in the high byte |
| Pack.Bitpack16Shifted | src/simd_wheel210.cpp:52-57 | `bitpack16_from_u32_masks` over the shifted movemask keeps only lanes 0 and 8, every other bit is 0 |
| Pack.Bitpack16ShiftedLosesLanes | src/simd_ultra_fast.cpp:290-296 | the 16-lane test pattern that packs to 0x8a2b comes out of the shifted pack as 0x0001 |
| Pack.MoveMask8UpperPattern | src/simd_ultra_fast.cpp:290-296 | the upper half of that pattern packs to 0x8a with the MSB movemask and to 0 with the shifted one |
| Pack.LittleEndianPacks | src/simd_wheel.cpp:272-275 | byte m of a `memcpy`-stored packed word holds flags 8m .. 8m + 7 |
| Pack.PackWord32 | src/simd_wheel.cpp:270-272 | joining the packed halves of 32 flags, b1 shifted up by 16, gives their packed word |
| Pack.ShiftOut | src/simd_wheel.cpp:386 | dividing a packed word by 2^s drops its first s flags, so `>> (i % 8)` exposes flag i |
| Pack.Store | src/simd_fast.cpp:136 | a store writes its bytes at its offset and leaves every other byte of the buffer alone |
| Bitmap.Bytes | src/simd_wheel.cpp:379 | a bitmap of count flags takes ceil(count / 8) bytes: enough for every flag and less than one byte spare |
| Bitmap.BitsOfByte | src/simd_fast.cpp:198-321 | bit k of bitmap byte b is flag 8b + k, and 0 past the last flag |
| Bitmap.ReadBack | src/simd_wheel.cpp:385-387 | reading `(bitmap[i >> 3] >> (i & 7)) & 1` from a bitmap that holds the flags gives flag i |
| Bitmap.HoldsUnique | src/simd_fast.cpp:198-321 | a bitmap determines the flags it holds: two runs of one length held by the same bitmap are equal |
| Bitmap.Encode | src/simd_fast.cpp:198-321 | every run of flags has a bitmap of ceil(count / 8) bytes that holds it |
| Bitmap.StoreWord | src/simd_wheel.cpp:275 | storing the little-endian bytes of a packed 8k-flag word at byte i / 8 writes bytes i / 8 .. i / 8 + k - 1 of the bitmap |
| Bitmap.BlendEdges | src/simd_wheel210.cpp:358-359 | a blend over a full byte keeps nothing of the prior byte, an empty one keeps all of it, and a blend over 0 is the plain packed run |
| Bitmap.AppendBit | src/simd_fast.cpp:317 | OR-ing a 0/1 bit in at position b appends one flag to the packed run |
| Bitmap.OrBit | src/simd_wheel.cpp:325 | OR-ing `1 << bit` in for a passing input, and nothing otherwise, extends the packed run by that input's flag |
| Bitmap.WidenMask | src/simd_wheel210.cpp:356 | OR-ing `1u << bit` into a mask of the low bits covers one more low bit |
| Bitmap.SetBit | src/simd_wheel210_efficient.cpp:308-314 | setting or clearing bit `i & 7` changes that bit to the input's decision and keeps the other seven |
| Bitmap.SetBitExtends | src/simd_wheel210_efficient.cpp:308-314 | setting the next bit of a partly written byte extends the written run and keeps the rest of the prior byte |
| Bitmap.MergeByte | src/simd_wheel210.cpp:359 | the blend of prior and last under mask takes last's bit where mask is set and prior's bit elsewhere |
| Bitmap.MergeLow | src/simd_wheel210.cpp:358-359 | a merge under the mask of the low k bits writes the k new flags and keeps the prior byte's high bits |
| Bitmap.MergeBlend | src/simd_optimized.cpp:347-348 | a merge under a mask within the low bits yields the blend of the run whose flags are last's bit where masked and the prior bit elsewhere |
| Bitmap.WriteByte | src/simd_wheel.cpp:327 | writing the next whole byte of flags extends the written prefix and changes nothing beyond it |
| Bitmap.WriteWord | src/simd_wheel.cpp:275 | the `memcpy` of a k-byte packed word extends the written prefix by k bytes |
| Bitmap.AllBytesDone | src/simd_fast.cpp:198-321 | once every byte is written the bitmap holds the flags, and the bytes after ceil(count / 8) are as they were |
| Bitmap.PutBit | src/simd_wheel210_efficient.cpp:307-314 | one in-place bit write extends the flags written bit by bit, leaving the rest of the buffer as it was |
| Bitmap.WriteTail | src/simd_wheel210.cpp:358-359 | storing the merged partial last byte completes the flags written bit by bit |
| Bitmap.ReadBits | src/simd_wheel210_efficient.cpp:307-314 | a bitmap written bit by bit reads back its flags |
| Fast.Block8 | src/simd_fast.cpp:96-133 | the survivor registers of `filter8_u64_barrett16` encode the reference outcomes of the eight inputs |
| Fast.Filter8 | src/simd_fast.cpp:96-137 | `filter8_u64_barrett16` writes out[k] = scalar_survive_barrett16(ptr[k]) for all eight inputs |
| Fast.FilterStream | src/simd_fast.cpp:162-178 | `filter_stream_u64_barrett16`: out[i] is the scalar outcome of numbers[i] for every i below count, and nothing from count on is written |
| Fast.BitpackBlock | src/simd_fast.cpp:277-310 | the 8-input block of the bitmap stream packs the reference outcomes of its inputs |
| Fast.PackTail | src/simd_fast.cpp:313-320 | the scalar tail's byte, built by OR-ing each 0/1 outcome in at its bit (line 317, `Fast.OrOutcome`), is the bitmap byte of the last partial run, high bits cleared |
| Fast.BitmapStream | src/simd_fast.cpp:198-321 | `filter_stream_u64_barrett16_bitmap`: the first ceil(count / 8) bytes hold the reference outcomes, bit i % 8 of byte i / 8, with unused high bits 0; later bytes are untouched |
| Fast.StreamsAgree | src/simd_fast.cpp:162-321 | the bitmap stream read back gives the byte stream's output at every index below count |
| Ultra.Filter16 | src/simd_ultra_fast.cpp:80-171 | `filter16_u64_barrett16_ultra` writes the scalar outcome of each of its sixteen inputs, 0 for inputs above 32 bits |
| Ultra.Filter8 | src/simd_ultra_fast.cpp:198-259 | the inlined 8-input block of the ultra stream writes the scalar outcomes of its inputs |
| Ultra.FilterStream | src/simd_ultra_fast.cpp:174-286 | `filter_stream_u64_barrett16_ultra`: out[i] is the scalar outcome for every i below count, and nothing from count on is written |
| Wheels.Residues30 | src/simd_wheel.cpp:44-46 | WHEEL30_COPRIME[r] is 1 exactly when gcd(r, 30) = 1, which is exactly membership in the eight residues |
| Wheels.Residues210 | src/simd_wheel210.cpp:17-23 | a residue below 210 appears in WHEEL210_RESIDUES exactly when it is coprime to 210 |
| Wheels.Residue210At | src/simd_wheel210.cpp:17-23 | WHEEL210_RESIDUES has 48 entries, strictly increasing, each below 210 and coprime to 210 |
| Wheels.CoprimeModulo30 | src/simd_wheel.cpp:98-117 | coprimality to 30 depends only on the residue modulo 30 |
| Wheels.SurvivesByWheel30 | src/simd_wheel.cpp:150-257 | survival is the wheel test (2, 3, 5 or coprime to 30) together with the trial divisions from 7 on |
| Wheels.SurvivesByWheel210 | src/simd_wheel210.cpp:293-313 | apart from 2, 3, 5 and 7, survival is coprimality to 210 together with the trial divisions from 11 on |
| Wheels.TrialTail | src/simd_wheel.cpp:304-323 | the scalar trial loop of the wheel tails, from a given table slot, accepts exactly the inputs no later slot properly divides |
| Wheels.ResidueMask | src/simd_wheel.cpp:98-117 | the OR of `vceqq(r, res[k])` over a residue list is all ones exactly on lanes whose remainder is in the list |
| Wheels.Wheel30Mask | src/simd_wheel210_efficient.cpp:51-67 | `wheel30_pass` is all ones exactly when the corrected Barrett remainder modulo 30 is one of the eight residues |
| Wheels.ThirdsMask | src/simd_optimized.cpp:141-168 | the residue test with 2863311531 and no correction is all ones exactly when its wrapped remainder is one of the eight residues |
| Wheels.ThirdsSmall | src/simd_final.cpp:132-187 | with 2863311531 every n from 2 to 9 fails the residue test; 7 wraps to 2^32 - 113 |
| Wheels.ThirdsPasses3 | src/simd_optimized.cpp:137-168 | the multiple of 3 1130254551 passes that residue test with wrapped remainder 11 |
| Wheel.Wheel30Exact | src/simd_wheel.cpp:49 | MU30 = floor(2^32 / 30), so `wheel30_mask` reduces every 32-bit lane exactly and keeps precisely the lanes coprime to 30 |
| Wheel.SmallPrimesPass | src/simd_wheel.cpp:155-170 | the 2/3/5 exemption makes a lane pass when the wheel passes it or it equals 2, 3 or 5 |
| Wheel.Wheel30 | src/simd_wheel.cpp:87-118 | `wheel30_mask` is zero exactly on lanes not coprime to 30 |
| Wheel.WheelPass | src/simd_wheel.cpp:150-187 | one wheel register, after exemption and enable, passes exactly the inputs that fit in 32 bits and are 2, 3, 5 or coprime to 30 |
| Wheel.WheelSurvivors | src/simd_wheel.cpp:195-254 | the wheel register ANDed with the survivors of slots 3..15 encodes the reference outcomes of its inputs |
| Wheel.NoneSurvive | src/simd_wheel.cpp:189-193 | the early return of 0 fires only when none of the sixteen inputs survives |
| Wheel.Filter16 | src/simd_wheel.cpp:122-258 | `filter16_u64_wheel_bitmap`: bit j is the reference outcome of input j, for all sixteen |
| Wheel.ScalarLane | src/simd_wheel.cpp:289-325 | one input of the scalar loops passes exactly when it survives |
| Wheel.ScalarByte | src/simd_wheel.cpp:286-328 | a scalar byte started at input 8b is bitmap byte b of the reference outcomes below count |
| Wheel.BitmapStream | src/simd_wheel.cpp:261-372 | `filter_stream_u64_wheel_bitmap`: the first ceil(count / 8) bytes hold the reference outcomes, unused high bits 0, later bytes untouched |
| Wheel.FilterStream | src/simd_wheel.cpp:375-388 | `filter_stream_u64_wheel`: every out[i] below count is the scalar outcome of numbers[i], later bytes untouched |
| Wheel210.Constants210 | src/simd_wheel210.cpp:37 | MU210 * 210 exceeds 2^32 by 868304, so MU210 is no floor or ceil constant, yet two divisors of slack remain; floor(2^32 / 210) is 20452225 |
| Wheel210.Marked | src/simd_wheel210.cpp:26-34 | after the first k writes of `init_wheel210` the table has 210 entries, 1 exactly at the first k residues |
| Wheel210.MarkStep | src/simd_wheel210.cpp:31-33 | the k-th write marks the k-th residue on top of the first k - 1 |
| Wheel210.CoprimeTable | src/simd_wheel210.cpp:25-34 | after `init_wheel210`, WHEEL210_COPRIME[r] is 1 exactly when r is coprime to 210 |
| Wheel210.KernelExactly | src/simd_wheel210.cpp:91-131 | the vector kernel passes an input exactly when it survives, is not 2, 3, 5 or 7, and the uncorrected remainder modulo 210 is the true one; so every passing input survives |
| Wheel210.Wheel210Mask | src/simd_wheel210.cpp:91-131 | `wheel210_mask` is all ones exactly when the uncorrected remainder is below 210 and coprime to 210 |
| Wheel210.WheelPass | src/simd_wheel210.cpp:135-170 | one wheel register after the enable passes exactly the 32-bit inputs that are wheel hits |
| Wheel210.KernelSurvivors | src/simd_wheel210.cpp:172-245 | the gated survivors encode the kernel's decision for each of four inputs |
| Wheel210.NoneHit | src/simd_wheel210.cpp:135-248 | the early return of 0 equals what the full path would have packed |
| Wheel210.Filter16 | src/simd_wheel210.cpp:135-248 | `filter16_u64_wheel210_bitmap` packs the kernel's decisions of inputs 0 and 8 only, every other bit 0 |
| Wheel210.TailFaultExactly | src/simd_wheel210.cpp:289-291 | the scalar table index is out of range exactly when the single corrective subtract misses the true remainder |
| Wheel210.TailExactly | src/simd_wheel210.cpp:283-315 | the scalar part passes an input exactly when it survives, is not 2, 3, 5 or 7, and the corrected remainder is the true one |
| Wheel210.ScalarLane | src/simd_wheel210.cpp:283-315 | one scalar input is skipped, tried with its decision, or reads the table out of range at the stated index |
| Wheel210.ScalarByte | src/simd_wheel210.cpp:279-318 | the scalar block either stops at the first out-of-range lookup or packs the scalar decisions of its eight inputs |
| Wheel210.FinalTail | src/simd_wheel210.cpp:320-360 | the final tail either stops at an out-of-range lookup or merges the decisions of tried inputs, and the prior bits of skipped ones, into the last byte |
| Wheel210.BitmapStream | src/simd_wheel210.cpp:251-361 | `filter_stream_u64_wheel210_bitmap`: unless a scalar lookup falls outside the table, the first count bits are the stream's flags, written over the prior buffer |
| Wheel210.StreamSound | src/simd_wheel210.cpp:251-361 | every bit the stream sets belongs to a survivor, except the prior bit of an input the final tail skips; where the kernel or the tail decides, the bit is that decision |
| Wheel210.Prime5039 | src/simd_wheel210.cpp:37 | the prime 5039 survives but the kernel rejects it, and the scalar index after one subtract is 2^32 - 211 |
| Wheel210.SmallPrimesRejected | src/simd_wheel210.cpp:91-131 | 2, 3, 5 and 7 survive but neither the kernel nor the scalar part lets them through |
| Wheel210.StaleTailBit | src/simd_wheel210.cpp:320-360 | over a prior byte 0xFF, a one-input stream of 4 leaves bit 0 set although 4 does not survive |
| Wheel210.CorrectedLane | src/simd_wheel210.cpp:283-315 | with the floor constant and the 2/3/5/7 exemption the scalar lane decides exactly the reference outcome |
| Wheel210.CorrectedMask | src/simd_wheel210.cpp:91-131 | with the floor constant and a corrective subtract the mask passes exactly the lanes coprime to 210 |
| Wheel210.CorrectedTail | src/simd_wheel210.cpp:320-360 | a final tail that masks every input writes the reference outcomes into the low bits and keeps only the prior high bits |
| Wheel210Efficient.CeilConstants | src/simd_wheel210_efficient.cpp:16-17 | MU30 and MU7 are ceil(2^32 / 30) and ceil(2^32 / 7) |
| Wheel210Efficient.SevenLanes | src/simd_wheel210_efficient.cpp:70-80 | with the ceil constant for 7 the corrected remainder is 0 exactly on multiples of 7 |
| Wheel210Efficient.Wheel210Pass | src/simd_wheel210_efficient.cpp:70-80 | `wheel210_pass` is the wheel-30 mask with the proper multiples of 7 removed |
| Wheel210Efficient.SurvivesBySeven | src/simd_wheel210_efficient.cpp:141-150 | survival is the wheel-30 test, no proper multiple of 7, and the trial divisions from 11 on |
| Wheel210Efficient.PassesExactly | src/simd_wheel210_efficient.cpp:113-232 | an input passes exactly when it survives, is not 2, 3 or 5, and the remainder modulo 30 is the true one; so every passing input survives |
| Wheel210Efficient.WheelPass | src/simd_wheel210_efficient.cpp:142-165 | one wheel register after both passes and the enable passes exactly the candidates among its 32-bit inputs |
| Wheel210Efficient.PassSurvivors | src/simd_wheel210_efficient.cpp:173-229 | the gated survivors encode the decision for each of four inputs |
| Wheel210Efficient.NoneSurvive | src/simd_wheel210_efficient.cpp:168-171 | the early return of 0 equals what the full path would have packed |
| Wheel210Efficient.Filter16 | src/simd_wheel210_efficient.cpp:114-232 | `filter16_u64_wheel210_efficient` packs the decisions of inputs 0 and 8 only, every other bit 0 |
| Wheel210Efficient.ScalarPass | src/simd_wheel210_efficient.cpp:264-305 | one input of the scalar tail passes exactly when the vector kernel would pass it |
| Wheel210Efficient.BitmapStream | src/simd_wheel210_efficient.cpp:235-316 | `filter_stream_u64_wheel210_efficient_bitmap` writes the first count bits as the stream's flags, bit by bit over the prior buffer |
| Wheel210Efficient.StreamSound | src/simd_wheel210_efficient.cpp:235-316 | every bit the stream sets belongs to a survivor; in the tail and at every eighth kernel input the bit is the decision |
| Wheel210Efficient.SmallPrimesRejected | src/simd_wheel210_efficient.cpp:141-150 | 2, 3 and 5 survive but never pass |
| Wheel210Efficient.CeilMisses | src/simd_wheel210_efficient.cpp:270-275 | the prime 306784109 survives, but the ceil constant wraps its remainder to 2^32 - 31 and it is rejected |
| Wheel210Efficient.CorrectedLane | src/simd_wheel210_efficient.cpp:264-305 | with the floor constant for 30 and the 2/3/5 exemption the scalar lane decides exactly the reference outcome |
| Optimized.FastMod3 | src/simd_optimized.cpp:11-16 | `fast_mod3` is n mod 3 for every 32-bit n |
| Optimized.FastMod5 | src/simd_optimized.cpp:18-23 | `fast_mod5` is n mod 5 for every 32-bit n |
| Optimized.ExactRemainder | src/simd_optimized.cpp:11-23 | a shift-s constant whose excess over 2^s / d is below 2^s / (d * 2^32) gives the exact remainder |
| Optimized.SkippedSlots | src/simd_optimized.cpp:201-203 | the interleaved slots the loop from 6 skips hold 2, 23, 3, 29, 5 and 31, not just 2, 3 and 5 |
| Optimized.KernelErrors | src/simd_optimized.cpp:137-226 | a survivor passes the kernel exactly when it passes the residue test; a non-survivor passes only if a skipped prime divides it |
| Optimized.WheelPass | src/simd_optimized.cpp:141-189 | one residue register after the enable passes exactly the 32-bit inputs that pass the residue test |
| Optimized.KernelSurvivors | src/simd_optimized.cpp:197-232 | the gated survivors of slots 6..15 encode the kernel's decision for each of four inputs |
| Optimized.NoneHit | src/simd_optimized.cpp:191-195 | the fast exit of 0 equals what the full path would have packed |
| Optimized.Filter16 | src/simd_optimized.cpp:108-236 | `filter16_u64_wheel_optimized` packs the kernel's decisions of inputs 0 and 8 only, every other bit 0 |
| Optimized.SevensRejected | src/simd_optimized.cpp:137-195 | sixteen copies of the prime 7 all survive, yet the kernel packs 0 |
| Optimized.MultipleOf3Passes | src/simd_optimized.cpp:137-168 | 1130254551, a multiple of 3, passes the kernel though it does not survive |
| Optimized.MultipleOf5Passes | src/simd_optimized.cpp:137-168 | 4068916385, a multiple of 5, reaches wrapped remainder 23 and passes the kernel though it does not survive |
| Optimized.Square23Uncovered | src/simd_optimized.cpp:201-226 | 529 = 23 * 23 is a wheel candidate and clears slots 6..15, yet does not survive; the residue test as written rejects it, so the skipped slots matter only once that test is repaired |
| Optimized.CorrectedFilter16 | src/simd_optimized.cpp:108-236 | with the residue test of `neon_wheel` and all sixteen interleaved slots, the kernel packs every input's reference outcome |
| Optimized.ScalarLane | src/simd_optimized.cpp:272-304 | one scalar input is tried exactly when it is a wheel candidate, and passes exactly when it survives |
| Optimized.SkipTest | src/simd_optimized.cpp:278-280 | the three `continue` tests skip an input exactly when it is not 2, 3, 5 and not coprime to 30 |
| Optimized.ScalarByte | src/simd_optimized.cpp:267-307 | the scalar block of eight packs the reference outcomes of its inputs |
| Optimized.FinalTail | src/simd_optimized.cpp:309-349 | the final tail merges each tried input's outcome, and the prior bit of each skipped one, into the last byte |
| Optimized.BitmapStream | src/simd_optimized.cpp:239-350 | `filter_stream_u64_wheel_optimized` writes the first count bits as the stream's flags over the prior buffer |
| Optimized.StreamSound | src/simd_optimized.cpp:239-350 | from the scalar part on a set bit is a survivor or the stale prior bit of a skipped tail input; in the vector part a bit is set exactly at every eighth input the kernel passes |
| Optimized.StaleTailBit | src/simd_optimized.cpp:309-349 | over a prior byte 0xFF, a one-input stream of 4 leaves bit 0 set although 4 does not survive |
| Final.EarlyOutMask | src/simd_final.cpp:50-128 | `divisible_mask_dual16_earlyout` gives two masks, each zero exactly on lanes no table prime properly divides, early exits included |
| Final.SlotStep | src/simd_final.cpp:59-127 | one slot keeps the invariant that a lane is alive exactly while its mask is 0 and the mask records the slots seen so far |
| Final.DeadLanes | src/simd_final.cpp:59-127 | once no lane is alive the remaining slots change nothing, so the early return is safe |
| Final.Prefilter | src/simd_final.cpp:132-187 | `wheel30_prefilter` reports a block exactly when one of its inputs passes the residue test with 2863311531 |
| Final.Filter8 | src/simd_final.cpp:191-240 | `filter8_u64_barrett16_final` writes eight zeros for a block the prefilter rejects, else each input's scalar outcome |
| Final.Filter8Sound | src/simd_final.cpp:191-240 | each byte is 0 or 1 and a 1 is always a survivor; outside a rejected block it is the scalar outcome |
| Final.PipelinedBlock | src/simd_final.cpp:243-379 | one block of eight of the pipelined kernel writes the scalar outcomes of its inputs |
| Final.Filter32 | src/simd_final.cpp:243-379 | `filter32_u64_barrett16_pipelined` writes the scalar outcomes of its 32 inputs |
| Final.OutcomesJoin | src/simd_final.cpp:243-379 | the outcomes of two adjacent runs, joined, are the outcomes of the whole run |
| Final.TailOutcome | src/simd_final.cpp:404-437 | the stream's scalar tail writes the scalar outcome of each input |
| Final.FilterStream | src/simd_final.cpp:382-439 | `filter_stream_u64_barrett16_final` writes exactly the bytes below count: scalar outcomes, except zeros for a rejected block of the 8-input part |
| Final.StreamSound | src/simd_final.cpp:382-439 | every byte of the stream is 0 or 1 and a 1 is always a survivor; outside the 8-input part the byte is the scalar outcome |
| Final.SmallPrimesZeroed | src/simd_final.cpp:211-216 | the block 2, 3, ..., 9 is rejected by the prefilter though 2, 3, 5 and 7 survive |
| Final.StreamDropsTwo | src/simd_final.cpp:398-401 | the stream over 2, 3, ..., 9 writes 0 for the prime 2 |
| Final.CorrectedPrefilter | src/simd_final.cpp:132-187 | with the floor constant, correction and 2/3/5 exemption the prefilter reports a block exactly when it holds a wheel candidate |
| Final.CorrectedFilter8 | src/simd_final.cpp:191-240 | with the repaired prefilter the 8-input filter writes every input's scalar outcome |

## Left out

- Benchmarks, the Miller-Rabin stage, threaded pipelines, Python drivers and the test programs. These are not part of this model. Their asserted outcomes serve only as sources of properties, such as the 0x8a2b pattern and the stream 2..9.
- Prefetch, alignment and aliasing hints, unroll pragmas and `always_inline`. They do not change results.
- The load interleaving of `filter32_u64_barrett16_pipelined`: the kernel is modelled as four independent blocks of eight.
- The static constructors `PrimeVectors`, `PrimeConstants`, `InterleavedPrimeConstants` and the constructor attribute. Only the tables they produce are modelled. `init_wheel210`'s writes are modelled step by step (`Wheel210.Marked`).
- The `std::vector` allocation in `filter_stream_u64_wheel`: it is a zeroed local sequence.
- The NEON intrinsics themselves are primitive definitions (`Neon`), each stated by its lane-wise meaning. No lemma connects them to a hardware description.
- `barrett_modq_u32_quad` and the `_dual` variants run the same per-register steps on two or four registers. They are modelled as one register at a time (`Kernels.BarrettReg`).
- Reading past `WHEEL210_COPRIME` is undefined behaviour in C++. `Wheel210.ScalarLane` and the drivers above it stop with a `Fault` naming the input and the index instead of continuing.
- Wheel210.BitmapStream: its flags are stated in terms of the kernel and tail decisions (`StreamFlags`), not the reference outcomes, because the variant is only sound. `Wheel210.StreamSound` states the soundness.
- Wheel210Efficient.BitmapStream: the same, with `Wheel210Efficient.StreamSound` stating soundness.
- Optimized.BitmapStream: the same, with `Optimized.StreamSound` stating what a set bit means.
- Final.FilterStream: for the 8-input part, the bytes are the scalar outcomes only for blocks the prefilter reports. `Final.StreamSound` states the sound direction.

## Findings

| source | as written | input that shows it | evidently intended | confidence | as-written member | corrected member |
|---|---|---|---|---|---|---|
| src/simd_ultra_fast.cpp:14-23 | `vshr_n_u8(b, 7)` turns each lane into 0 or 1 before the AND with the weights 1, 2, ..., 128, so only lane 0 keeps a bit; the same movemask is in simd_wheel210.cpp:41-49, simd_wheel210_efficient.cpp:21-29 and simd_optimized.cpp:27-35 | lanes 1101 0100 / 0101 0001 pack to 0x0001 instead of 0x8a2b | bit k set exactly when lane k is all ones, as the MSB movemask of simd_wheel.cpp does | high, not executed | Pack.Bitpack16ShiftedLosesLanes | Pack.Bitpack16Masks |
| src/simd_wheel210.cpp:37 | MU210 = 20456360, above ceil(2^32 / 210) = 20452226, with no corrective subtract in the vector mask | the prime 5039: the kernel's remainder wraps to 2^32 - 1 and the input is rejected | the floor constant 20452225 with one corrective subtract, so the remainder is n mod 210 | high, not executed | Wheel210.Prime5039 | Wheel210.CorrectedMask |
| src/simd_wheel210.cpp:289-291 | after one subtract the scalar remainder can still be a wrapped huge value and indexes WHEEL210_COPRIME out of range | 5039: index 2^32 - 211 | an index below 210 | high, not executed | Wheel210.Prime5039 | Wheel210.CorrectedLane |
| src/simd_wheel210.cpp:91-131 | no exemption for 2, 3, 5 and 7, whose residues are not coprime to 210 | 2, 3, 5 and 7 are rejected by kernel and tail | the four primes survive, as in the reference | high, not executed | Wheel210.SmallPrimesRejected | Wheel210.CorrectedLane |
| src/simd_wheel210.cpp:320-360 | a skipped tail input sets no mask bit, so the merge keeps the buffer's prior bit | stream [4], count 1, prior byte 0xFF: bit 0 stays 1 | a skipped input is not a survivor and its bit becomes 0 | medium, not executed | Wheel210.StaleTailBit | Wheel210.CorrectedTail |
| src/simd_wheel210_efficient.cpp:16 | MU30 = ceil(2^32 / 30) with only a subtract-type correction, so an overshooting estimate wraps | the prime 306784109: remainder 2^32 - 31, rejected | the floor constant 143165576 | high, not executed | Wheel210Efficient.CeilMisses | Wheel210Efficient.CorrectedLane |
| src/simd_wheel210_efficient.cpp:142-150 | no exemption for 2, 3 and 5 | 2, 3 and 5 never pass | the three primes survive | high, not executed | Wheel210Efficient.SmallPrimesRejected | Wheel210Efficient.CorrectedLane |
| src/simd_optimized.cpp:138 | mu30 = 2863311531 = ceil(2^33 / 3), no correction and no 2/3/5 exemption | sixteen copies of 7 pack to 0; 1130254551, a multiple of 3, and 4068916385, a multiple of 5, pass | the floor constant for 30 with a correction and the exemption, as in simd_wheel.cpp | high, not executed | Optimized.SevensRejected | Optimized.CorrectedFilter16 |
| src/simd_optimized.cpp:201-203 | the loop over interleaved slots from 6 skips 2, 23, 3, 29, 5 and 31; latent as written, because the residue test in front of it already rejects every input the skip would let through | 529 = 23 * 23 passes a repaired residue test and the slots from 6, and is no survivor; the test as written rejects it | skip only the primes the wheel handles | medium (latent), not executed | Optimized.Square23Uncovered | Optimized.CorrectedFilter16 |
| src/simd_optimized.cpp:309-349 | a skipped tail input sets no mask bit, so the merge keeps the buffer's prior bit | stream [4], count 1, prior byte 0xFF: bit 0 stays 1 | a skipped input's bit becomes 0 | medium, not executed | Optimized.StaleTailBit | Wheel210.CorrectedTail |
| src/simd_final.cpp:138 | the prefilter uses mu30 = 2863311531 with no correction and no exemption, and a rejected block is written as zeros | the stream 2, 3, ..., 9 writes 0 for the primes 2, 3, 5 and 7 | the prefilter rejects a block only when it holds no survivor | high, not executed | Final.StreamDropsTwo | Final.CorrectedFilter8 |
