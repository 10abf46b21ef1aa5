/**
 * The chunk combiner: the chunk results, least significant first, are
 * folded into one point by Horner's rule, doubling w times between chunks.
 */
module Combine {
  import opened Arith

  /** The positional value of the chunk results: the sum of chunks[j] * 2^(j*w). */
  function PositionalSum(chunks: seq<int>, w: nat): int
  {
    if chunks == [] then 0
    else PositionalSum(chunks[..|chunks| - 1], w) + chunks[|chunks| - 1] * Pow2((|chunks| - 1) * w)
  }

  /** The arithmetic of one Horner step, on plain integers: r' = r * 2^w + c. */
  lemma HornerStep(low: int, c: int, r: int, p: int, q: int)
    ensures low + p * (r * q + c) == (low + c * p) + (p * q) * r
  {
  }

  /** One doubling: r0 * 2^i + r0 * 2^i == r0 * 2^(i+1). */
  lemma DoubleStep(r0: int, i: nat)
    ensures r0 * Pow2(i) + r0 * Pow2(i) == r0 * Pow2(i + 1)
  {
  }

  /** The doubling loop between two chunks: w doublings multiply the point by 2^w. */
  method DoubleTimes(r: int, w: nat) returns (d: int)
    ensures d == r * Pow2(w)
  {
    d := r;
    var i := 0;
    while i < w
      invariant 0 <= i <= w
      invariant d == r * Pow2(i)
    {
      DoubleStep(r, i);
      d := d + d;
      i := i + 1;
    }
  }

  /**
   * The combine loop: starts from the most significant chunk and, for each
   * lower chunk, doubles bitsPerChunk times and adds the chunk, leaving the
   * positional value of all chunk results.
   */
  method CombineChunks(chunks: array<int>, bitsPerChunk: nat) returns (r: int)
    requires chunks.Length >= 1
    ensures r == PositionalSum(chunks[..], bitsPerChunk)
  {
    var nChunks := chunks.Length;
    var w := bitsPerChunk;
    r := chunks[nChunks - 1];
    var j := nChunks - 2;
    assert chunks[..nChunks][..nChunks - 1] == chunks[..nChunks - 1];
    assert chunks[..nChunks] == chunks[..];
    while j >= 0
      invariant -1 <= j <= nChunks - 2
      invariant PositionalSum(chunks[..j + 1], w) + Pow2((j + 1) * w) * r == PositionalSum(chunks[..], w)
    {
      ghost var r0 := r;
      r := DoubleTimes(r, w);
      r := r + chunks[j];
      assert PositionalSum(chunks[..j], w) + Pow2(j * w) * r == PositionalSum(chunks[..], w) by {
        assert chunks[..j + 1][..j] == chunks[..j];
        MulSucc(j, w);
        Pow2Add(j * w, w);
        HornerStep(PositionalSum(chunks[..j], w), chunks[j], r0, Pow2(j * w), Pow2(w));
      }
      j := j - 1;
    }
  }
}
