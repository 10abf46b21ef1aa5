/**
 * The curve group, modelled as the integers under addition: a point is an
 * int, zero is 0, add and sub are + and -, doubling is r + r, and the
 * scalar multiple of a point b by s is s * b.  The reference MSM is the
 * plain sum of scalar multiples.
 */
module Group {

  /** The reference multi-scalar multiplication: the sum of scalars[i] * points[i]. */
  function Msm(scalars: seq<int>, points: seq<int>): int
    requires |scalars| == |points|
  {
    if scalars == [] then 0
    else Msm(scalars[..|scalars| - 1], points[..|points| - 1]) + scalars[|scalars| - 1] * points[|points| - 1]
  }

  /** The MSM is linear in the scalars: scalars xs + c*ys give Msm(xs) + c*Msm(ys). */
  lemma {:induction false} MsmLinear(xs: seq<int>, ys: seq<int>, zs: seq<int>, c: int, points: seq<int>)
    requires |xs| == |ys| == |zs| == |points|
    requires forall i :: 0 <= i < |zs| ==> zs[i] == xs[i] + c * ys[i]
    ensures Msm(zs, points) == Msm(xs, points) + c * Msm(ys, points)
  {
    if zs != [] {
      var n := |zs| - 1;
      MsmLinear(xs[..n], ys[..n], zs[..n], c, points[..n]);
      var x, y, b := xs[n], ys[n], points[n];
      assert (x + c * y) * b == x * b + c * (y * b);
      assert c * Msm(ys, points) == c * Msm(ys[..n], points[..n]) + c * (y * b);
    }
  }

  /** All-zero scalars give the identity. */
  lemma {:induction false} MsmZero(zs: seq<int>, points: seq<int>)
    requires |zs| == |points|
    requires forall i :: 0 <= i < |zs| ==> zs[i] == 0
    ensures Msm(zs, points) == 0
  {
    if zs != [] {
      MsmZero(zs[..|zs| - 1], points[..|points| - 1]);
    }
  }
}
