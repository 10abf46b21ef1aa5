/**
 * The digit slicer of the Pippenger MSM: every scalar is cut into nChunks
 * windows of w bits, and each window, with the carry from the window
 * below, is re-centred into a signed digit in [-2^(w-1), 2^(w-1)).
 */
module Digits {
  import opened Arith

  /** The slot type of the digit matrix (C++ int16_t). */
  newtype int16 = x: int | -0x8000 <= x < 0x8000

  /** nBuckets: the number of buckets one chunk needs, 2^(w-1). */
  function BucketCount(w: nat): (b: nat)
    requires w >= 1
    ensures 2 * b == Pow2(w)
  {
    Pow2(w - 1)
  }

  /** Window j of scalar s: the w bits starting at bit j*w (getBucketIndex). */
  function Window(s: nat, w: nat, j: nat): (v: nat)
    ensures v < Pow2(w)
  {
    (s / Pow2(j * w)) % Pow2(w)
  }

  /** The carry that enters chunk j of s; nothing enters chunk 0. */
  function CarryIn(s: nat, w: nat, j: nat): nat
    requires w >= 1
  {
    if j == 0 then 0
    else if Window(s, w, j - 1) + CarryIn(s, w, j - 1) >= BucketCount(w) then 1
    else 0
  }

  /**
   * The signed digit stored for chunk j of s: window plus incoming carry,
   * moved down by 2^w when it reaches nBuckets.
   */
  function Digit(s: nat, w: nat, j: nat): int
    requires w >= 1
  {
    var v := Window(s, w, j) + CarryIn(s, w, j);
    if v >= BucketCount(w) then v - 2 * BucketCount(w) else v
  }

  /** The value the first k digits of s stand for: sum of Digit(s, w, j) * 2^(j*w), j < k. */
  function DigitSum(s: nat, w: nat, k: nat): int
    requires w >= 1
  {
    if k == 0 then 0 else DigitSum(s, w, k - 1) + Digit(s, w, k - 1) * Pow2((k - 1) * w)
  }

  /** Every carry is 0 or 1 and every digit lies in [-nBuckets, nBuckets - 1]. */
  lemma DigitBounds(s: nat, w: nat, j: nat)
    requires w >= 1
    ensures CarryIn(s, w, j) <= 1
    ensures -(BucketCount(w) as int) <= Digit(s, w, j) < BucketCount(w)
  {
  }

  /** For w <= 16 there are at most 2^15 buckets. */
  lemma BucketCountFits(w: nat)
    requires 1 <= w <= 16
    ensures BucketCount(w) <= 0x8000
  {
    Pow2Monotone(w - 1, 15);
    assert Pow2(5) == 32;
    assert Pow2(15) == 0x8000 by {
      Pow2Add(5, 10);
      Pow2Add(5, 5);
    }
  }

  /** For w <= 16 every digit fits the int16_t slot it is stored in. */
  lemma DigitFitsInt16(s: nat, w: nat, j: nat)
    requires 1 <= w <= 16
    ensures -0x8000 <= Digit(s, w, j) < 0x8000
  {
    DigitBounds(s, w, j);
    BucketCountFits(w);
  }

  /** One chunk loses nothing: digit plus outgoing carry * 2^w is window plus incoming carry. */
  lemma ChunkStep(s: nat, w: nat, j: nat)
    requires w >= 1
    ensures Digit(s, w, j) + CarryIn(s, w, j + 1) * Pow2(w) == Window(s, w, j) + CarryIn(s, w, j)
  {
  }

  /** The arithmetic of one induction step of Reconstruction, on plain integers. */
  lemma ReconstructionStep(ds: int, d: int, cIn: int, cOut: int, win: int, low: int, p: int, q: int)
    requires ds + cIn * p == low
    requires d + cOut * q == win + cIn
    ensures (ds + d * p) + cOut * (p * q) == low + win * p
  {
    calc {
      (ds + d * p) + cOut * (p * q);
      ds + (d + cOut * q) * p;
      ds + (win + cIn) * p;
      (ds + cIn * p) + win * p;
    }
  }

  /**
   * Slicing loses nothing but the carry out of the last chunk: the digits
   * of the low k chunks plus that carry at weight 2^(k*w) give back s
   * modulo 2^(k*w).
   */
  lemma {:induction false} Reconstruction(s: nat, w: nat, k: nat)
    requires w >= 1
    ensures DigitSum(s, w, k) + CarryIn(s, w, k) * Pow2(k * w) == s % Pow2(k * w)
  {
    if k > 0 {
      var j := k - 1;
      var p, q := Pow2(j * w), Pow2(w);
      Reconstruction(s, w, j);
      MulSucc(j, w);
      Pow2Add(j * w, w);
      ModSplit(s, p, q);
      ChunkStep(s, w, j);
      assert DigitSum(s, w, k) == DigitSum(s, w, j) + Digit(s, w, j) * p;
      assert Pow2(k * w) == p * q;
      assert s % Pow2(k * w) == s % p + Window(s, w, j) * p;
      ReconstructionStep(DigitSum(s, w, j), Digit(s, w, j), CarryIn(s, w, j), CarryIn(s, w, k),
                         Window(s, w, j), s % p, p, q);
    }
  }

  /** With no carry out of the last chunk, a scalar below 2^(k*w) is reproduced exactly. */
  lemma ExactWithoutFinalCarry(s: nat, w: nat, k: nat)
    requires w >= 1 && s < Pow2(k * w) && CarryIn(s, w, k) == 0
    ensures DigitSum(s, w, k) == s
  {
    Reconstruction(s, w, k);
    DivModUnique(s, Pow2(k * w), 0, s);
  }

  /** A scalar below 2^(j*w + m), m <= w, has window j below 2^m. */
  lemma TopWindowBelow(s: nat, w: nat, j: nat, m: nat)
    requires m <= w && s < Pow2(j * w + m)
    ensures Window(s, w, j) < Pow2(m)
  {
    var a, b, c := Pow2(j * w), Pow2(m), Pow2(w);
    Pow2Add(j * w, m);
    Pow2Monotone(m, w);
    SmallQuotientMod(s, a, b, c);
    assert Window(s, w, j) == (s / a) % c;
  }

  /** A scalar below 2^(k*w - 2) emits no carry out of chunk k - 1. */
  lemma NoCarryOut(s: nat, w: nat, k: nat)
    requires w >= 2 && k >= 1 && s < Pow2(k * w - 2)
    ensures CarryIn(s, w, k) == 0
  {
    var j := k - 1;
    MulSucc(j, w);
    TopWindowBelow(s, w, j, w - 2);
    DigitBounds(s, w, j);
    assert BucketCount(w) == 2 * Pow2(w - 2);
  }

  /**
   * A scalar whose two top bits are clear (s < 2^(k*w - 2), as for a field
   * element stored with spare bits) never carries out of the last chunk.
   */
  lemma NoFinalCarry(s: nat, w: nat, k: nat)
    requires w >= 2 && k >= 1 && s < Pow2(k * w - 2)
    ensures CarryIn(s, w, k) == 0 && DigitSum(s, w, k) == s
  {
    NoCarryOut(s, w, k);
    Pow2Monotone(k * w - 2, k * w);
    ExactWithoutFinalCarry(s, w, k);
  }

  /**
   * The carry out of the last chunk is dropped: with w = 4 and two chunks
   * the scalar 255 fits the chunks but is sliced into digits worth -1.
   */
  lemma DroppedCarryExample()
    ensures 255 < Pow2(2 * 4)
    ensures Digit(255, 4, 0) == -1 && Digit(255, 4, 1) == 0
    ensures CarryIn(255, 4, 2) == 1 && DigitSum(255, 4, 2) == -1
  {
    assert Pow2(4) == 16 && Pow2(8) == 256 && Pow2(3) == 8;
    assert Window(255, 4, 0) == 15;
    assert Window(255, 4, 1) == 15;
  }

  /**
   * With w = 1 (one bucket) the carry into chunk j is 1 exactly when one of
   * the j low bits of s is set: once a carry starts it never stops.
   */
  lemma {:induction false} WidthOneCarry(s: nat, j: nat)
    ensures CarryIn(s, 1, j) == if s % Pow2(j) == 0 then 0 else 1
  {
    if j > 0 {
      var i := j - 1;
      WidthOneCarry(s, i);
      assert BucketCount(1) == 1;
      ModSplit(s, Pow2(i), 2);
      assert Pow2(j) == Pow2(i) * 2;
      assert i * 1 == i;
      assert Window(s, 1, i) == (s / Pow2(i)) % 2;
    }
  }

  /**
   * With w = 1 every nonzero scalar below 2^k loses a carry out of the last
   * chunk, and its digits stand for s - 2^k instead of s.
   */
  lemma WidthOneDropsCarry(s: nat, k: nat)
    requires 0 < s < Pow2(k)
    ensures CarryIn(s, 1, k) == 1 && DigitSum(s, 1, k) == s - Pow2(k)
  {
    assert k * 1 == k;
    DivModUnique(s, Pow2(k), 0, s);
    WidthOneCarry(s, k);
    Reconstruction(s, 1, k);
  }

  /** Concretely: with w = 1 and three chunks, the scalar 1 is sliced into digits worth -7. */
  lemma WidthOneExample()
    ensures CarryIn(1, 1, 3) == 1 && DigitSum(1, 1, 3) == -7
  {
    assert Pow2(3) == 8;
    WidthOneDropsCarry(1, 3);
  }

  /**
   * The slicing loop: fills the nPoints x nChunks digit matrix, row i
   * holding the digits of scalars[i], carrying from each chunk to the next.
   */
  method SliceScalars(scalars: seq<nat>, w: nat, sliced: array2<int16>)
    requires 1 <= w <= 16
    requires sliced.Length0 == |scalars|
    modifies sliced
    ensures forall i, j :: 0 <= i < sliced.Length0 && 0 <= j < sliced.Length1 ==>
              sliced[i, j] as int == Digit(scalars[i], w, j)
  {
    var nPoints, nChunks := sliced.Length0, sliced.Length1;
    var nBuckets := BucketCount(w);
    var i := 0;
    while i < nPoints
      invariant 0 <= i <= nPoints
      invariant forall ii, jj :: 0 <= ii < i && 0 <= jj < nChunks ==> sliced[ii, jj] as int == Digit(scalars[ii], w, jj)
    {
      var carry := 0;
      var j := 0;
      while j < nChunks
        invariant 0 <= j <= nChunks
        invariant carry == CarryIn(scalars[i], w, j)
        invariant forall ii, jj :: 0 <= ii < i && 0 <= jj < nChunks ==> sliced[ii, jj] as int == Digit(scalars[ii], w, jj)
        invariant forall jj :: 0 <= jj < j ==> sliced[i, jj] as int == Digit(scalars[i], w, jj)
      {
        var bucketIndex: int := Window(scalars[i], w, j) + carry;
        if bucketIndex >= nBuckets {
          bucketIndex := bucketIndex - nBuckets * 2;
          carry := 1;
        } else {
          carry := 0;
        }
        DigitFitsInt16(scalars[i], w, j);
        sliced[i, j] := bucketIndex as int16;
        j := j + 1;
      }
      i := i + 1;
    }
  }
}
