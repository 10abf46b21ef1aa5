# Pippenger multi-scalar multiplication, modelled in Dafny

This project models `MSM<Curve, BaseField>::run` from `c/msm.cpp`. That routine computes the
multi-scalar multiplication r = Σ scalars[i] · bases[i] of n curve points by Pippenger's bucket
method. It works in four stages:

1. **Digit slicer.** Each scalar is cut into `nChunks` windows of `w = bitsPerChunk` bits.
   Each window, plus the carry from the window below, is re-centred into a signed digit in
   `[-nBuckets, nBuckets - 1]`, with `nBuckets = 2^(w-1)`. The digits go into an
   `nPoints × nChunks` matrix of `int16_t`.
2. **Bucket accumulator.** For each chunk, the buckets are reset to the identity. Then every
   point with digit `d > 0` is added to bucket `d-1`, and every point with `d < 0` is
   subtracted from bucket `-d-1`.
3. **Running-sum reducer.** The chunk value Σ k · bucket[k-1] is computed with two
   accumulators `t` and `tmp`, walking down from the top bucket.
4. **Horner combiner.** Starting from the most significant chunk, the result is doubled `w`
   times and the next chunk is added.

Two shortcuts come first: no points give the identity, and one point gives the direct scalar
multiple.

The curve group is modelled as the integers under addition:
- a point is an `int`;
- `zero` is 0;
- `add`, `sub` and `dbl` are `+`, `-` and `r + r`;
- `mulByScalar(b, s)` is `s * b`.

The reference result is `Group.Msm`, the plain sum of scalar multiples.

The model follows the imperative form of the code:
- the digit matrix is an `array2<int16>`, where `int16` is a newtype, so every store is checked
  to fit;
- the buckets and the chunk results are `array<int>`;
- every loop of the source is a `while` loop with invariants.

Each method is proved against a pure specification function:
- `Digits.Digit` and `Digits.CarryIn` for the slicer;
- `Buckets.SignedSum` for the bucket contents;
- `Buckets.Weighted` for the brute-force weighted bucket sum;
- `Combine.PositionalSum` for Σ chunks[j] · 2^(j·w).

Lemmas then relate those functions to one another and to `Group.Msm`.

Files:
- `arith.dfy` (module `Arith`): powers of two, and facts about division and remainder.
- `digits.dfy` (module `Digits`): windows, carries, signed digits and the slicing loop.
- `group.dfy` (module `Group`): the reference MSM and its linearity.
- `buckets.dfy` (module `Buckets`): bucket fill, running-sum reduction, and the exactness and
  order-independence of the bucket method.
- `combine.dfy` (module `Combine`): the Horner combiner.
- `msm.dfy` (module `Msm`): the chunk loop and `run` end to end.

### Where the slicer departs from a balanced signed-digit decomposition

A balanced signed-digit decomposition of width w would have three properties:
- it keeps every digit in `(-nBuckets, nBuckets]`;
- it stores 0 only for a raw value (window plus carry) of 0;
- it reconstructs every scalar exactly.

The code at `c/msm.cpp:56-67` departs from this in three places, and the model follows the
code:

- **Digit range.** The test `bucketIndex >= nBuckets` gives digits in `[-nBuckets, nBuckets - 1]`
  (`Digits.DigitBounds`). A raw value of exactly `nBuckets` becomes `-nBuckets`.
- **Raw value 2^w.** A window of `2^w - 1` plus a carry gives a raw value of `2^w`. That is stored
  as digit 0 with an outgoing carry of 1 (`Digits.DroppedCarryExample`, chunk 1 of 255 with
  w = 4).
- **Final carry.** The carry out of the last chunk is dropped. So the digits stand for the
  scalar's low `nChunks·w` bits minus `finalCarry · 2^(nChunks·w)` (`Digits.Reconstruction`).
  - `Msm.Run` therefore promises the MSM of what the digits stand for (`Msm.SlicedValues`).
  - It promises the exact MSM only when no carry leaves the last chunk.
  - For w ≥ 2, scalars whose two top bits are clear always meet that condition
    (`Digits.NoFinalCarry`).
  - For w = 1 (one bucket), the carry never stops once the first set bit is reached. Every
    nonzero scalar below `2^nChunks` is then sliced into digits worth `s - 2^nChunks`
    (`Digits.WidthOneDropsCarry`, `Msm.WidthOneSlicedValues`). The bucket path is then off by
    `2^nChunks·Σ bases` (`Msm.WidthOneMsm`). For example, two points b with scalar 1 and
    three chunks give `-14·b` instead of `2·b`. Bases that sum to the identity hide the error.

  Whether real inputs reach the dropped carry depends on three things in `msm.hpp`, which is
  not part of this model, so none of them is known here:
  - `calcChunkCount`;
  - `calcBitsPerChunk`, and whether it can return 1;
  - the range of the scalars.

## Model

| member | source | states |
|---|---|---|
| Digits.DigitBounds | c/msm.cpp:54-66 | every carry is 0 or 1, and every stored digit lies in [-nBuckets, nBuckets - 1] |
| Digits.DigitFitsInt16 | c/msm.cpp:50-66 | for w <= 16, every digit fits the int16_t slot of the digit matrix |
| Digits.Reconstruction | c/msm.cpp:53-68 | the digits of the low k chunks, weighted by 2^(j·w), plus the carry out of chunk k-1 times 2^(k·w), equal the scalar modulo 2^(k·w): slicing loses nothing but the final carry |
| Digits.ExactWithoutFinalCarry | c/msm.cpp:53-68 | a scalar below 2^(k·w) with no carry out of the last chunk is reproduced exactly by its digits |
| Digits.NoCarryOut | c/msm.cpp:56-64 | for w ≥ 2, a scalar below 2^(k·w - 2) emits no carry out of chunk k-1 |
| Digits.NoFinalCarry | c/msm.cpp:53-68 | for w ≥ 2, a scalar below 2^(k·w - 2) has no final carry and is reproduced exactly by its digits |
| Digits.WidthOneCarry | c/msm.cpp:56-64 | with w = 1, the carry into chunk j is 1 exactly when one of the j low bits of the scalar is set |
| Digits.WidthOneDropsCarry | c/msm.cpp:53-68 | with w = 1, every nonzero scalar s below 2^k loses a final carry, and its digits stand for s - 2^k |
| Digits.WidthOneExample | c/msm.cpp:56-67 | with w = 1 and three chunks, the scalar 1 has a final carry of 1 and digits worth -7 |
| Digits.DroppedCarryExample | c/msm.cpp:56-67 | for 255 with w = 4 and two chunks, the digits are -1 and 0 with a final carry of 1, so the digits stand for -1 although 255 < 2^8; a raw value of 2^w is stored as digit 0 |
| Digits.SliceScalars | c/msm.cpp:52-68 | after the slicing loop, slot (i, j) of the digit matrix holds the signed digit of chunk j of scalar i, with the carry propagated from chunk j-1 |
| Buckets.FillBuckets | c/msm.cpp:79-94 | after the reset and fill loops, bucket k-1 holds the sum of the bases whose digit is k minus the sum of those whose digit is -k, whatever the buckets held before; every bucket index used is in range, and zero digits touch nothing |
| Buckets.BucketMethod | c/msm.cpp:81-106 | for digits in [-nBuckets, nBuckets], the weighted bucket sum Σ k·bucket[k-1] equals the MSM of the digits with the bases |
| Buckets.BucketOrderIrrelevant | c/msm.cpp:85-94 | two point lists with the same (digit, base) pairs in any order fill every bucket with the same value |
| Buckets.ReduceBuckets | c/msm.cpp:96-106 | the running-sum loop over t and tmp returns the brute-force weighted sum Σ k·bucket[k-1] |
| Combine.DoubleTimes | c/msm.cpp:112-114 | w doublings multiply the point by 2^w |
| Combine.CombineChunks | c/msm.cpp:109-116 | the Horner loop returns Σ chunks[j]·2^(j·w) |
| Msm.ChunkResult | c/msm.cpp:79-106 | one chunk's fill and reduction yields the MSM of that chunk's digit column with the bases |
| Msm.ComputeChunks | c/msm.cpp:70-107 | after the chunk loop, chunks[j] is the MSM of digit column j with the bases, for every j |
| Msm.ChunkInterchange | c/msm.cpp:70-116 | the positional sum of the chunk MSMs equals the MSM of the values the digits stand for |
| Msm.ExactSlicedValues | c/msm.cpp:52-68 | if every scalar is below 2^(nChunks·w) and has no final carry, the digits stand for exactly the scalars |
| Msm.ExactWithSpareBits | c/msm.cpp:52-68 | for w ≥ 2 and nChunks ≥ 1, if every scalar is below 2^(nChunks·w - 2), the digits stand for exactly the scalars |
| Msm.WidthOneSlicedValues | c/msm.cpp:52-68 | with w = 1, each nonzero scalar below 2^nChunks is sliced into digits worth scalars[i] - 2^nChunks |
| Msm.WidthOneMsm | c/msm.cpp:52-116 | with w = 1 and nonzero scalars below 2^nChunks, the bucket path of run gives Msm(scalars, bases) - 2^nChunks·Σ bases, which is the true MSM exactly when the bases sum to the identity |
| Msm.ThreePointExample | c/msm.cpp:52-116 | scalars 2, 5 and 1 on three copies of g, one byte wide, with any w >= 2, slice into digits whose MSM is 8·g |
| Msm.Pippenger | c/msm.cpp:43-116 | the bucket path (slice, fill and reduce each chunk, combine) returns the MSM of what the sliced digits stand for |
| Msm.Run | c/msm.cpp:9-117 | no points give the identity; one point gives scalar·base; two or more give the MSM of the sliced values; the result is Σ scalars[i]·bases[i] whenever every scalar is below 2^(nChunks·w) and loses no final carry |

## Left out

- OpenMP parallelism is not modelled: thread count, `ThreadLimit`, `omp_get_thread_num`, the
  parallel loops, and the per-worker rows of the bucket matrix. The model is the single-worker
  build, with one bucket array reused across chunks and reset at the start of each chunk.
- Elliptic-curve arithmetic (`g.add`, `sub`, `dbl`, `copy`, `zero`, `mulByScalar`) and the
  `Curve`/`BaseField` types are replaced by integer addition. Only the group laws used by the
  algorithm matter here.
- The `calcBitsPerChunk` heuristic and the `MSM_BITS_PER_CHUNK` macro are not modelled. The
  window width is a parameter.
- `getBucketIndex`, `calcChunkCount` and `calcBucketCount` live in `msm.hpp`, which is not part
  of this model:
  - `getBucketIndex(i, j)` is modelled as `(s / 2^(j·w)) % 2^w`;
  - `nBuckets` is modelled as `2^(w-1)`;
  - `nChunks` is a parameter.
- The byte layout of the scalars (`_scalars`, `scalarSize`) is not modelled; scalars are natural
  numbers.
- The MSM object's fields `scalars`, `scalarSize` and `bitsPerChunk` are passed as parameters.
  They are read in three places:
  - by the hidden helpers above;
  - `scalars` and `scalarSize`, by `g.mulByScalar` on the one-point path (`c/msm.cpp:39`);
  - `bitsPerChunk`, as the bound of the doubling loop in the combiner (`c/msm.cpp:112`).
- The flat `int16_t` buffer indexed `i*nChunks + j` is modelled as a two-dimensional array
  indexed `[i, j]`.
- Memory management (`std::unique_ptr` allocation and release) and the mixing of signed and
  unsigned loop indices are not modelled.
- Msm.Run: requires `1 <= bitsPerChunk <= 16` and `nChunks >= 1`. For wider windows the source
  would truncate digits into `int16_t`; with no chunks it would read `chunks[-1]`. Neither case
  is modelled.
- Msm.Run: with `bitsPerChunk = 1`, the digits of every nonzero scalar below `2^nChunks` are
  wrong, because it loses its final carry (`Msm.WidthOneSlicedValues`). The result is then off by
  `2^nChunks·Σ bases` (`Msm.WidthOneMsm`). This follows from the model of the slicer. Whether
  `calcBitsPerChunk` can return 1 is hidden in `msm.hpp`.
