/**
 * Bucket accumulation and the running-sum reduction of one chunk.  For a
 * chunk, point i with digit d goes into bucket d-1 when d > 0 and is taken
 * out of bucket -d-1 when d < 0; the chunk's value is then the weighted sum
 * of the buckets, bucket k-1 counted k times.
 */
module Buckets {
  import opened Group
  import opened Digits

  /** What a point with digit d and base b adds to bucket k-1 (k >= 1). */
  function Contribution(d: int, b: int, k: int): int
  {
    if d == k then b else if d == -k then -b else 0
  }

  /** The sum of the bases whose digit is k minus the sum of the bases whose digit is -k. */
  function SignedSum(digits: seq<int>, bases: seq<int>, k: int): int
    requires |digits| == |bases|
  {
    if digits == [] then 0
    else SignedSum(digits[..|digits| - 1], bases[..|bases| - 1], k)
         + Contribution(digits[|digits| - 1], bases[|bases| - 1], k)
  }

  /** The bucket array a chunk must end with: bucket k-1 holds SignedSum(.., k). */
  function BucketValues(digits: seq<int>, bases: seq<int>, nBuckets: nat): (r: seq<int>)
    requires |digits| == |bases|
    ensures |r| == nBuckets
  {
    seq(nBuckets, m => SignedSum(digits, bases, m + 1))
  }

  /** The weighted bucket sum, by brute force: the sum of k * buckets[k-1] for k = 1 .. |buckets|. */
  function Weighted(buckets: seq<int>): int
  {
    if buckets == [] then 0
    else Weighted(buckets[..|buckets| - 1]) + |buckets| * buckets[|buckets| - 1]
  }

  /** The plain sum of a sequence of points. */
  function Sum(s: seq<int>): int
  {
    if s == [] then 0 else s[0] + Sum(s[1..])
  }

  /** Adding x to bucket m adds (m+1) * x to the weighted sum. */
  lemma {:induction false} WeightedUpdate(s: seq<int>, m: nat, x: int)
    requires m < |s|
    ensures Weighted(s[m := s[m] + x]) == Weighted(s) + (m + 1) * x
  {
    var n := |s| - 1;
    var t := s[m := s[m] + x];
    if m == n {
      assert t[..n] == s[..n];
      assert |s| * (s[n] + x) == |s| * s[n] + (m + 1) * x;
    } else {
      assert t[..n] == s[..n][m := s[m] + x];
      WeightedUpdate(s[..n], m, x);
    }
  }

  /** Buckets that are all zero weigh nothing. */
  lemma {:induction false} WeightedZero(s: seq<int>)
    requires forall m :: 0 <= m < |s| ==> s[m] == 0
    ensures Weighted(s) == 0
  {
    if s != [] {
      WeightedZero(s[..|s| - 1]);
    }
  }

  /**
   * The bucket method is exact: when every digit lies in [-nBuckets, nBuckets],
   * the weighted sum of the buckets is the MSM of the digits with the bases.
   */
  lemma {:induction false} BucketMethod(digits: seq<int>, bases: seq<int>, nBuckets: nat)
    requires |digits| == |bases|
    requires forall i :: 0 <= i < |digits| ==> -(nBuckets as int) <= digits[i] <= nBuckets
    ensures Weighted(BucketValues(digits, bases, nBuckets)) == Msm(digits, bases)
  {
    var after := BucketValues(digits, bases, nBuckets);
    if digits == [] {
      WeightedZero(after);
    } else {
      var n := |digits| - 1;
      var d, b := digits[n], bases[n];
      BucketMethod(digits[..n], bases[..n], nBuckets);
      var before := BucketValues(digits[..n], bases[..n], nBuckets);
      assert forall m :: 0 <= m < nBuckets ==> after[m] == before[m] + Contribution(d, b, m + 1);
      BucketStep(before, after, d, b);
    }
  }

  /**
   * Adding one point with digit d and base b to the buckets changes their
   * weighted sum by d * b.
   */
  lemma BucketStep(before: seq<int>, after: seq<int>, d: int, b: int)
    requires |before| == |after| && -|before| <= d <= |before|
    requires forall m :: 0 <= m < |after| ==> after[m] == before[m] + Contribution(d, b, m + 1)
    ensures Weighted(after) == Weighted(before) + d * b
  {
    if d == 0 {
      assert after == before;
    } else if d > 0 {
      BucketAdd(before, after, d - 1, b);
    } else {
      assert Weighted(after) == Weighted(before) + (-d) * (-b) by {
        BucketAdd(before, after, -d - 1, -b);
      }
      NegMul(d, b);
    }
  }

  lemma NegMul(x: int, y: int)
    ensures (-x) * (-y) == x * y
  {
  }

  /** Buckets that differ only at m, by x, differ in weighted sum by (m+1) * x. */
  lemma BucketAdd(before: seq<int>, after: seq<int>, m: nat, x: int)
    requires |before| == |after| && m < |before|
    requires after[m] == before[m] + x
    requires forall m' :: 0 <= m' < |after| && m' != m ==> after[m'] == before[m']
    ensures Weighted(after) == Weighted(before) + (m + 1) * x
  {
    assert after == before[m := before[m] + x];
    WeightedUpdate(before, m, x);
  }

  /** The (digit, base) pairs of the points, in order. */
  function Zip(digits: seq<int>, bases: seq<int>): (r: seq<(int, int)>)
    requires |digits| == |bases|
    ensures |r| == |digits|
    ensures forall i :: 0 <= i < |r| ==> r[i] == (digits[i], bases[i])
  {
    seq(|digits|, i requires 0 <= i < |digits| => (digits[i], bases[i]))
  }

  /** Bucket sums split over a concatenation of point lists. */
  lemma {:induction false} SignedSumConcat(d1: seq<int>, b1: seq<int>, d2: seq<int>, b2: seq<int>, k: int)
    requires |d1| == |b1| && |d2| == |b2|
    ensures SignedSum(d1 + d2, b1 + b2, k) == SignedSum(d1, b1, k) + SignedSum(d2, b2, k)
  {
    if d2 == [] {
      assert d1 + d2 == d1 && b1 + b2 == b1;
    } else {
      var n := |d2| - 1;
      assert (d1 + d2)[..|d1| + n] == d1 + d2[..n];
      assert (b1 + b2)[..|b1| + n] == b1 + b2[..n];
      SignedSumConcat(d1, b1, d2[..n], b2[..n], k);
    }
  }

  /** Removing point idx from the list removes exactly its contribution. */
  lemma SignedSumRemove(digits: seq<int>, bases: seq<int>, idx: nat, k: int)
    requires |digits| == |bases| && idx < |digits|
    ensures SignedSum(digits, bases, k)
         == SignedSum(digits[..idx] + digits[idx + 1..], bases[..idx] + bases[idx + 1..], k)
            + Contribution(digits[idx], bases[idx], k)
  {
    assert digits == digits[..idx] + [digits[idx]] + digits[idx + 1..];
    assert bases == bases[..idx] + [bases[idx]] + bases[idx + 1..];
    SignedSumConcat(digits[..idx] + [digits[idx]], bases[..idx] + [bases[idx]], digits[idx + 1..], bases[idx + 1..], k);
    SignedSumConcat(digits[..idx], bases[..idx], [digits[idx]], [bases[idx]], k);
    SignedSumConcat(digits[..idx], bases[..idx], digits[idx + 1..], bases[idx + 1..], k);
    assert SignedSum([digits[idx]], [bases[idx]], k) == Contribution(digits[idx], bases[idx], k);
  }

  /** Taking the same element out of two lists with equal multisets leaves equal multisets. */
  lemma MultisetRemove<T>(a: seq<T>, x: T, b: seq<T>, idx: nat)
    requires idx < |b| && b[idx] == x && multiset(a + [x]) == multiset(b)
    ensures multiset(a) == multiset(b[..idx] + b[idx + 1..])
  {
    assert b == b[..idx] + [x] + b[idx + 1..];
    calc {
      multiset(b[..idx] + b[idx + 1..]) + multiset{x};
      multiset(b[..idx] + [x] + b[idx + 1..]);
      multiset(a + [x]);
      multiset(a) + multiset{x};
    }
    assert multiset(a) == multiset(a) + multiset{x} - multiset{x};
  }

  /**
   * The order in which points are added into the buckets does not matter:
   * two point lists with the same (digit, base) pairs, in any order, fill
   * every bucket with the same value.
   */
  lemma {:induction false} BucketOrderIrrelevant(digits: seq<int>, bases: seq<int>, digits': seq<int>, bases': seq<int>, k: int)
    requires |digits| == |bases| && |digits'| == |bases'|
    requires multiset(Zip(digits, bases)) == multiset(Zip(digits', bases'))
    ensures SignedSum(digits, bases, k) == SignedSum(digits', bases', k)
    decreases |digits|
  {
    if digits == [] {
      assert |Zip(digits', bases')| == |multiset(Zip(digits', bases'))| == 0;
    } else {
      var n := |digits| - 1;
      var x := (digits[n], bases[n]);
      var z' := Zip(digits', bases');
      assert Zip(digits, bases) == Zip(digits[..n], bases[..n]) + [x];
      assert x in multiset(z');
      var idx :| 0 <= idx < |z'| && z'[idx] == x;
      var rd, rb := digits'[..idx] + digits'[idx + 1..], bases'[..idx] + bases'[idx + 1..];
      assert Zip(rd, rb) == z'[..idx] + z'[idx + 1..];
      MultisetRemove(Zip(digits[..n], bases[..n]), x, z', idx);
      BucketOrderIrrelevant(digits[..n], bases[..n], rd, rb, k);
      SignedSumRemove(digits', bases', idx, k);
      assert digits'[idx] == digits[n] && bases'[idx] == bases[n];
      assert SignedSum(digits, bases, k) == SignedSum(digits[..n], bases[..n], k) + Contribution(digits[n], bases[n], k);
    }
  }

  /** The digits of chunk j, one per point: column j of the digit matrix. */
  function Column(sliced: array2<int16>, j: nat): (col: seq<int>)
    reads sliced
    requires j < sliced.Length1
    ensures |col| == sliced.Length0
  {
    seq(sliced.Length0, i requires 0 <= i < sliced.Length0 reads sliced => sliced[i, j] as int)
  }

  /**
   * The fill loop of chunk j: resets every bucket to zero, whatever it
   * held, then adds each point into bucket d-1 for a digit d > 0 and
   * subtracts it from bucket -d-1 for d < 0; a zero digit touches nothing.
   */
  method FillBuckets(sliced: array2<int16>, j: nat, bases: seq<int>, buckets: array<int>)
    requires j < sliced.Length1 && |bases| == sliced.Length0
    requires forall i :: 0 <= i < sliced.Length0 ==> -buckets.Length <= sliced[i, j] as int <= buckets.Length
    modifies buckets
    ensures forall m :: 0 <= m < buckets.Length ==> buckets[m] == SignedSum(Column(sliced, j), bases, m + 1)
  {
    var nBuckets, nPoints := buckets.Length, sliced.Length0;
    ghost var column := Column(sliced, j);
    var i := 0;
    while i < nBuckets
      invariant 0 <= i <= nBuckets
      invariant forall m :: 0 <= m < i ==> buckets[m] == 0
    {
      buckets[i] := 0;
      i := i + 1;
    }
    i := 0;
    while i < nPoints
      invariant 0 <= i <= nPoints
      invariant forall m :: 0 <= m < nBuckets ==> buckets[m] == SignedSum(column[..i], bases[..i], m + 1)
    {
      var bucketIndex := sliced[i, j] as int;
      assert column[..i + 1][..i] == column[..i] && bases[..i + 1][..i] == bases[..i];
      if bucketIndex > 0 {
        buckets[bucketIndex - 1] := buckets[bucketIndex - 1] + bases[i];
      } else if bucketIndex < 0 {
        buckets[-bucketIndex - 1] := buckets[-bucketIndex - 1] - bases[i];
      }
      i := i + 1;
    }
    assert column[..nPoints] == column && bases[..nPoints] == bases;
  }

  /** The arithmetic of one step of the running-sum reduction, on plain integers. */
  lemma RunningSumStep(low: int, b: int, t: int, tmp: int, i: int)
    ensures low + (t + (tmp + b)) + i * (tmp + b) == (low + (i + 1) * b) + t + (i + 1) * tmp
  {
  }

  /**
   * The running-sum reduction: walking down from the top bucket, tmp holds
   * the sum of the buckets seen so far and t the sum of the tmp values, so
   * t ends as the weighted sum of the buckets, with no scalar multiplication.
   */
  method ReduceBuckets(buckets: array<int>) returns (t: int)
    requires buckets.Length >= 1
    ensures t == Weighted(buckets[..])
  {
    var nBuckets := buckets.Length;
    t := buckets[nBuckets - 1];
    var tmp := t;
    var i := nBuckets - 2;
    assert tmp == Sum(buckets[i + 1..]) && Weighted(buckets[..i + 1]) + t + (i + 1) * tmp == Weighted(buckets[..]) by {
      assert buckets[i + 1..] == [buckets[nBuckets - 1]];
      assert buckets[..nBuckets] == buckets[..];
      assert buckets[..nBuckets][..nBuckets - 1] == buckets[..i + 1];
      assert t + (i + 1) * tmp == nBuckets * buckets[nBuckets - 1];
    }
    while i >= 0
      invariant -1 <= i <= nBuckets - 2
      invariant tmp == Sum(buckets[i + 1..])
      invariant Weighted(buckets[..i + 1]) + t + (i + 1) * tmp == Weighted(buckets[..])
    {
      assert buckets[i..] == [buckets[i]] + buckets[i + 1..];
      assert buckets[..i + 1][..i] == buckets[..i];
      RunningSumStep(Weighted(buckets[..i]), buckets[i], t, tmp, i);
      tmp := tmp + buckets[i];
      t := t + tmp;
      i := i - 1;
    }
  }
}
