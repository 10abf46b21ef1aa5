/**
 * MSM::run: the whole Pippenger multi-scalar multiplication, single
 * worker.  The empty input gives the identity, a single point is multiplied
 * directly, and otherwise the scalars are sliced into signed digits, each
 * chunk is accumulated into buckets and reduced, and the chunk results are
 * combined by Horner's rule.
 */
module Msm {
  import opened Arith
  import opened Group
  import opened Digits
  import opened Buckets
  import opened Combine

  /** Column j of the digit matrix, as the scalars determine it. */
  function DigitColumn(scalars: seq<nat>, w: nat, j: nat): (col: seq<int>)
    requires w >= 1
    ensures |col| == |scalars|
    ensures forall i :: 0 <= i < |col| ==> col[i] == Digit(scalars[i], w, j)
  {
    seq(|scalars|, i requires 0 <= i < |scalars| => Digit(scalars[i], w, j))
  }

  /** The chunk results: chunk j is the MSM of the digits of chunk j with the bases. */
  function ChunkValues(scalars: seq<nat>, bases: seq<int>, w: nat, nChunks: nat): (cs: seq<int>)
    requires w >= 1 && |scalars| == |bases|
    ensures |cs| == nChunks
    ensures forall j :: 0 <= j < nChunks ==> cs[j] == Msm(DigitColumn(scalars, w, j), bases)
  {
    seq(nChunks, j requires 0 <= j < nChunks => Msm(DigitColumn(scalars, w, j), bases))
  }

  /** The value the nChunks digits of each scalar stand for. */
  function SlicedValues(scalars: seq<nat>, w: nat, nChunks: nat): (vs: seq<int>)
    requires w >= 1
    ensures |vs| == |scalars|
    ensures forall i :: 0 <= i < |vs| ==> vs[i] == DigitSum(scalars[i], w, nChunks)
  {
    seq(|scalars|, i requires 0 <= i < |scalars| => DigitSum(scalars[i], w, nChunks))
  }

  /**
   * Summing per chunk and then across chunks gives the MSM of the sliced
   * scalars: the positional value of the chunk results equals the MSM of
   * the values the digits stand for.
   */
  lemma {:induction false} ChunkInterchange(scalars: seq<nat>, bases: seq<int>, w: nat, nChunks: nat)
    requires w >= 1 && |scalars| == |bases|
    ensures PositionalSum(ChunkValues(scalars, bases, w, nChunks), w) == Msm(SlicedValues(scalars, w, nChunks), bases)
  {
    var vs := SlicedValues(scalars, w, nChunks);
    if nChunks == 0 {
      MsmZero(vs, bases);
    } else {
      var k := nChunks - 1;
      var p := Pow2(k * w);
      var column := DigitColumn(scalars, w, k);
      var cs := ChunkValues(scalars, bases, w, nChunks);
      var low := SlicedValues(scalars, w, k);
      ChunkInterchange(scalars, bases, w, k);
      assert cs[..k] == ChunkValues(scalars, bases, w, k);
      assert PositionalSum(cs, w) == Msm(low, bases) + Msm(column, bases) * p;
      MulComm(Msm(column, bases), p);
      forall i | 0 <= i < |vs|
        ensures vs[i] == low[i] + p * column[i]
      {
        var s := scalars[i];
        assert vs[i] == DigitSum(s, w, k) + Digit(s, w, k) * p;
        assert low[i] == DigitSum(s, w, k) && column[i] == Digit(s, w, k);
        MulComm(Digit(s, w, k), p);
      }
      MsmLinear(low, column, vs, p, bases);
    }
  }

  /**
   * When every scalar fits the nChunks windows and no carry leaves the last
   * one, the sliced digits stand for exactly the scalars.
   */
  lemma ExactSlicedValues(scalars: seq<nat>, w: nat, nChunks: nat)
    requires w >= 1
    requires forall i :: 0 <= i < |scalars| ==> scalars[i] < Pow2(nChunks * w) && CarryIn(scalars[i], w, nChunks) == 0
    ensures SlicedValues(scalars, w, nChunks) == scalars
  {
    forall i | 0 <= i < |scalars|
      ensures SlicedValues(scalars, w, nChunks)[i] == scalars[i]
    {
      ExactWithoutFinalCarry(scalars[i], w, nChunks);
    }
  }

  /**
   * Scalars with their two top bits clear (below 2^(nChunks*w - 2)) are
   * sliced exactly: no carry is dropped.
   */
  lemma ExactWithSpareBits(scalars: seq<nat>, w: nat, nChunks: nat)
    requires w >= 2 && nChunks >= 1
    requires forall i :: 0 <= i < |scalars| ==> scalars[i] < Pow2(nChunks * w - 2)
    ensures SlicedValues(scalars, w, nChunks) == scalars
  {
    forall i | 0 <= i < |scalars|
      ensures SlicedValues(scalars, w, nChunks)[i] == scalars[i]
    {
      NoFinalCarry(scalars[i], w, nChunks);
    }
  }

  /**
   * With w = 1, nonzero scalars below 2^nChunks all lose their final carry:
   * each is sliced into digits worth scalars[i] - 2^nChunks.
   */
  lemma WidthOneSlicedValues(scalars: seq<nat>, nChunks: nat)
    requires forall i :: 0 <= i < |scalars| ==> 0 < scalars[i] < Pow2(nChunks)
    ensures forall i :: 0 <= i < |scalars| ==> SlicedValues(scalars, 1, nChunks)[i] == scalars[i] - Pow2(nChunks)
  {
    forall i | 0 <= i < |scalars|
      ensures SlicedValues(scalars, 1, nChunks)[i] == scalars[i] - Pow2(nChunks)
    {
      WidthOneDropsCarry(scalars[i], nChunks);
    }
  }

  /** Negation moves out of a product. */
  lemma MulNeg(p: int, x: int)
    ensures (-p) * x == -(p * x)
  {
  }

  /**
   * With w = 1 and nonzero scalars below 2^nChunks, the bucket path is off
   * by 2^nChunks times the sum of the bases (the MSM with all scalars 1):
   * it gives the true MSM exactly when the bases sum to the identity.
   */
  lemma WidthOneMsm(scalars: seq<nat>, bases: seq<int>, nChunks: nat)
    requires |scalars| == |bases|
    requires forall i :: 0 <= i < |scalars| ==> 0 < scalars[i] < Pow2(nChunks)
    ensures Msm(SlicedValues(scalars, 1, nChunks), bases)
         == Msm(scalars, bases) - Pow2(nChunks) * Msm(seq(|bases|, _ => 1), bases)
  {
    var ones: seq<int> := seq(|bases|, _ => 1);
    var vs := SlicedValues(scalars, 1, nChunks);
    WidthOneSlicedValues(scalars, nChunks);
    var p: int := Pow2(nChunks);
    forall i | 0 <= i < |vs|
      ensures vs[i] == scalars[i] + (-p) * ones[i]
    {
      assert ones[i] == 1;
    }
    MsmLinear(scalars, ones, vs, -p, bases);
    MulNeg(p, Msm(ones, bases));
  }

  /**
   * Three copies of a point g with one-byte scalars 2, 5 and 1, sliced with
   * any width w >= 2 into chunks covering the byte (w = 2 and four chunks,
   * say): the sliced digits give 8 * g.
   */
  lemma ThreePointExample(g: int, w: nat, nChunks: nat)
    requires w >= 2 && nChunks * w >= 8
    ensures Msm(SlicedValues([2, 5, 1], w, nChunks), [g, g, g]) == 8 * g
  {
    var ss: seq<nat> := [2, 5, 1];
    assert SlicedValues(ss, w, nChunks) == ss by {
      assert Pow2(3) == 8;
      Pow2Monotone(3, nChunks * w - 2);
      ExactWithSpareBits(ss, w, nChunks);
    }
    var s1: seq<int>, s2: seq<int>, s3: seq<int> := [2], [2, 5], [2, 5, 1];
    var p1, p2, p3 := [g], [g, g], [g, g, g];
    assert Msm(s1, p1) == 2 * g by {
      assert s1[..0] == [] && p1[..0] == [];
    }
    assert Msm(s2, p2) == 7 * g by {
      assert s2[..1] == s1 && p2[..1] == p1;
    }
    assert Msm(s3, p3) == 8 * g by {
      assert s3[..2] == s2 && p3[..2] == p2;
    }
    assert ss == s3;
  }

  /**
   * The work of one chunk j (one iteration of the parallel chunk loop):
   * fill the buckets from column j of the digit matrix and reduce them.
   * The result is the MSM of that column's digits with the bases.
   */
  method ChunkResult(sliced: array2<int16>, j: nat, bases: seq<int>, buckets: array<int>) returns (t: int)
    requires j < sliced.Length1 && |bases| == sliced.Length0 && buckets.Length >= 1
    requires forall i :: 0 <= i < sliced.Length0 ==> -buckets.Length <= sliced[i, j] as int <= buckets.Length
    modifies buckets
    ensures t == Msm(Column(sliced, j), bases)
  {
    ghost var column := Column(sliced, j);
    FillBuckets(sliced, j, bases, buckets);
    assert buckets[..] == BucketValues(column, bases, buckets.Length);
    t := ReduceBuckets(buckets);
    BucketMethod(column, bases, buckets.Length);
  }

  /**
   * The chunk loop: chunk j of the result array receives the MSM of
   * column j of the digit matrix with the bases.
   */
  method ComputeChunks(scalars: seq<nat>, w: nat, bases: seq<int>, sliced: array2<int16>,
                       buckets: array<int>, chunks: array<int>)
    requires 1 <= w <= 16 && |bases| == |scalars| == sliced.Length0
    requires sliced.Length1 == chunks.Length && buckets.Length == BucketCount(w)
    requires forall i, j :: 0 <= i < sliced.Length0 && 0 <= j < sliced.Length1 ==>
               sliced[i, j] as int == Digit(scalars[i], w, j)
    requires buckets != chunks
    modifies buckets, chunks
    ensures chunks[..] == ChunkValues(scalars, bases, w, chunks.Length)
  {
    var nChunks := chunks.Length;
    var j := 0;
    while j < nChunks
      invariant 0 <= j <= nChunks
      invariant forall jj :: 0 <= jj < j ==> chunks[jj] == Msm(DigitColumn(scalars, w, jj), bases)
      modifies buckets, chunks
    {
      forall i | 0 <= i < sliced.Length0
        ensures -buckets.Length <= sliced[i, j] as int <= buckets.Length
      {
        DigitBounds(scalars[i], w, j);
      }
      var t := ChunkResult(sliced, j, bases, buckets);
      assert Column(sliced, j) == DigitColumn(scalars, w, j);
      chunks[j] := t;
      j := j + 1;
    }
    assert chunks[..] == ChunkValues(scalars, bases, w, nChunks);
  }

  /**
   * The bucket path of run, taken for two points or more: slice, accumulate
   * and reduce every chunk, then combine.  The result is the MSM of what
   * the sliced digits stand for.
   */
  method Pippenger(bases: seq<int>, scalars: seq<nat>, w: nat, nChunks: nat) returns (r: int)
    requires |bases| == |scalars|
    requires 1 <= w <= 16 && nChunks >= 1
    ensures r == Msm(SlicedValues(scalars, w, nChunks), bases)
  {
    var nPoints := |scalars|;
    var nBuckets := BucketCount(w);
    var buckets := new int[nBuckets];
    var chunks := new int[nChunks];
    var sliced := new int16[nPoints, nChunks];

    SliceScalars(scalars, w, sliced);

    ComputeChunks(scalars, w, bases, sliced, buckets, chunks);
    r := CombineChunks(chunks, w);
    assert r == Msm(SlicedValues(scalars, w, nChunks), bases) by {
      ChunkInterchange(scalars, bases, w, nChunks);
    }
  }

  /**
   * The MSM of the scalars with the bases.  With no points the result is
   * the identity and with one point the direct scalar multiple; otherwise
   * it is the MSM of what the sliced digits stand for, which is the MSM of
   * the scalars whenever every scalar fits the nChunks windows and emits
   * no carry out of the last one.
   */
  method Run(bases: seq<int>, scalars: seq<nat>, bitsPerChunk: nat, nChunks: nat) returns (r: int)
    requires |bases| == |scalars|
    requires 1 <= bitsPerChunk <= 16 && nChunks >= 1
    ensures |scalars| == 0 ==> r == 0
    ensures |scalars| == 1 ==> r == scalars[0] * bases[0]
    ensures |scalars| >= 2 ==> r == Msm(SlicedValues(scalars, bitsPerChunk, nChunks), bases)
    ensures (forall i :: 0 <= i < |scalars| ==>
               scalars[i] < Pow2(nChunks * bitsPerChunk) && CarryIn(scalars[i], bitsPerChunk, nChunks) == 0)
            ==> r == Msm(scalars, bases)
  {
    var nPoints := |scalars|;
    var w := bitsPerChunk;
    if nPoints == 0 {
      r := 0;
      return;
    }
    if nPoints == 1 {
      r := scalars[0] * bases[0];
      assert scalars[..0] == [];
      return;
    }

    r := Pippenger(bases, scalars, w, nChunks);
    if forall i :: 0 <= i < nPoints ==> scalars[i] < Pow2(nChunks * w) && CarryIn(scalars[i], w, nChunks) == 0 {
      ExactSlicedValues(scalars, w, nChunks);
    }
  }
}
