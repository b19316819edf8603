/** The fixed convolution masks and the arithmetic of weighted sums over a
    square neighbourhood. */
module Kernels {

  /** A small matrix of integers, indexed `[row][col]`. */
  type Matrix = seq<seq<int>>

  /** The 5x5 Gaussian mask `Mask` and its divisor. */
  const GaussMask: Matrix := [
    [2, 4, 5, 4, 2],
    [4, 9, 12, 9, 4],
    [5, 12, 15, 12, 5],
    [4, 9, 12, 9, 4],
    [2, 4, 5, 4, 2]
  ]
  const GaussDivisor := 159

  /** The 3x3 Sobel masks `GxMask` and `GyMask`. */
  const GxMask: Matrix := [[-1, 0, 1], [-2, 0, 2], [-1, 0, 1]]
  const GyMask: Matrix := [[-1, -2, -1], [0, 0, 0], [1, 2, 1]]

  predicate IsSquare(m: Matrix, n: nat)
  {
    |m| == n && forall a :: 0 <= a < n ==> |m[a]| == n
  }

  predicate SameShape(m1: Matrix, m2: Matrix)
  {
    |m1| == |m2| && forall a :: 0 <= a < |m1| ==> |m1[a]| == |m2[a]|
  }

  /** Sum of the first `n` entries of a row, accumulated left to right. */
  function RowSum(s: seq<int>, n: nat): int
    requires n <= |s|
  {
    if n == 0 then 0 else RowSum(s, n - 1) + s[n - 1]
  }

  /** Sum of the first `k` rows of a matrix, accumulated row by row. */
  function PartialSum(m: Matrix, k: nat): int
    requires k <= |m|
  {
    if k == 0 then 0 else PartialSum(m, k - 1) + RowSum(m[k - 1], |m[k - 1]|)
  }

  /** Sum of all entries. */
  function Total(m: Matrix): int
  {
    PartialSum(m, |m|)
  }

  /** Entry-wise product of a mask and a neighbourhood. */
  function Product(mask: Matrix, win: Matrix): (p: Matrix)
    requires SameShape(mask, win)
    ensures SameShape(p, mask)
  {
    seq(|mask|, a requires 0 <= a < |mask| =>
      seq(|mask[a]|, b requires 0 <= b < |mask[a]| => mask[a][b] * win[a][b]))
  }

  /** Every entry multiplied by `c`. */
  function Scale(c: int, m: Matrix): (r: Matrix)
    ensures SameShape(r, m)
  {
    seq(|m|, a requires 0 <= a < |m| =>
      seq(|m[a]|, b requires 0 <= b < |m[a]| => c * m[a][b]))
  }

  /** The positive and the negative weights of a mask. */
  function PosPart(m: Matrix): (p: Matrix)
    ensures SameShape(p, m)
  {
    seq(|m|, a requires 0 <= a < |m| =>
      seq(|m[a]|, b requires 0 <= b < |m[a]| => if m[a][b] > 0 then m[a][b] else 0))
  }

  function NegPart(m: Matrix): (p: Matrix)
    ensures SameShape(p, m)
  {
    seq(|m|, a requires 0 <= a < |m| =>
      seq(|m[a]|, b requires 0 <= b < |m[a]| => if m[a][b] < 0 then -m[a][b] else 0))
  }

  /** Sums are monotone in the entries. */
  lemma {:induction false} RowSumMono(s: seq<int>, t: seq<int>, n: nat)
    requires n <= |s| == |t|
    requires forall i :: 0 <= i < |s| ==> s[i] <= t[i]
    ensures RowSum(s, n) <= RowSum(t, n)
  {
    if n > 0 {
      RowSumMono(s, t, n - 1);
    }
  }

  lemma {:induction false} PartialSumMono(m: Matrix, w: Matrix, k: nat)
    requires SameShape(m, w) && k <= |m|
    requires forall a, b :: 0 <= a < |m| && 0 <= b < |m[a]| ==> m[a][b] <= w[a][b]
    ensures PartialSum(m, k) <= PartialSum(w, k)
  {
    if k > 0 {
      PartialSumMono(m, w, k - 1);
      RowSumMono(m[k - 1], w[k - 1], |m[k - 1]|);
    }
  }

  /** Scaling every entry by `c` scales the sum by `c`. */
  lemma {:induction false} RowSumScale(c: int, s: seq<int>, t: seq<int>, n: nat)
    requires n <= |s| == |t|
    requires forall i :: 0 <= i < |s| ==> t[i] == c * s[i]
    ensures RowSum(t, n) == c * RowSum(s, n)
  {
    if n > 0 {
      RowSumScale(c, s, t, n - 1);
      assert c * RowSum(s, n) == c * RowSum(s, n - 1) + c * s[n - 1];
    }
  }

  lemma {:induction false} PartialSumScale(c: int, m: Matrix, w: Matrix, k: nat)
    requires SameShape(m, w) && k <= |m|
    requires forall a, b :: 0 <= a < |m| && 0 <= b < |m[a]| ==> w[a][b] == c * m[a][b]
    ensures PartialSum(w, k) == c * PartialSum(m, k)
  {
    if k > 0 {
      PartialSumScale(c, m, w, k - 1);
      RowSumScale(c, m[k - 1], w[k - 1], |m[k - 1]|);
      assert c * PartialSum(m, k) == c * PartialSum(m, k - 1) + c * RowSum(m[k - 1], |m[k - 1]|);
    }
  }

  /** A weight times a sample in `[0, hi]` lies between the weight's negative
      part times `-hi` and its positive part times `hi`. */
  lemma TapBounds(w: int, x: int, hi: int)
    requires 0 <= x <= hi
    ensures -hi * (if w < 0 then -w else 0) <= w * x <= hi * (if w > 0 then w else 0)
  {
    if w > 0 {
      assert w * x <= w * hi;
    } else {
      assert (-w) * x <= (-w) * hi;
    }
  }

  /** A weighted sum of samples in `[0, hi]` lies between `-hi` times the
      negative weights and `hi` times the positive weights. */
  lemma WeightedSumBounds(mask: Matrix, win: Matrix, hi: int)
    requires SameShape(mask, win)
    requires hi >= 0
    requires forall a, b :: 0 <= a < |win| && 0 <= b < |win[a]| ==> 0 <= win[a][b] <= hi
    ensures -hi * Total(NegPart(mask)) <= Total(Product(mask, win)) <= hi * Total(PosPart(mask))
  {
    var p, pos, neg := Product(mask, win), PosPart(mask), NegPart(mask);
    var upper, lower := Scale(hi, pos), Scale(-hi, neg);
    forall a, b | 0 <= a < |p| && 0 <= b < |p[a]|
      ensures lower[a][b] <= p[a][b] <= upper[a][b]
    {
      TapBounds(mask[a][b], win[a][b], hi);
    }
    PartialSumMono(p, upper, |p|);
    PartialSumMono(lower, p, |p|);
    PartialSumScale(hi, pos, upper, |p|);
    PartialSumScale(-hi, neg, lower, |p|);
  }

  /** Over a constant neighbourhood the weighted sum is the constant times
      the sum of the weights. */
  lemma WeightedSumOfConstant(mask: Matrix, win: Matrix, c: int)
    requires SameShape(mask, win)
    requires forall a, b :: 0 <= a < |win| && 0 <= b < |win[a]| ==> win[a][b] == c
    ensures Total(Product(mask, win)) == c * Total(mask)
  {
    var p := Product(mask, win);
    forall a, b | 0 <= a < |p| && 0 <= b < |p[a]|
      ensures p[a][b] == c * mask[a][b]
    {
    }
    PartialSumScale(c, mask, p, |p|);
  }

  /** The Gaussian weights are non-negative and sum to the divisor 159. */
  lemma GaussWeights()
    ensures IsSquare(GaussMask, 5)
    ensures Total(GaussMask) == GaussDivisor
    ensures Total(PosPart(GaussMask)) == GaussDivisor
    ensures Total(NegPart(GaussMask)) == 0
  {
    PartialSumScale(1, GaussMask, PosPart(GaussMask), 5);
    PartialSumScale(0, GaussMask, NegPart(GaussMask), 5);
  }

  /** Each Sobel mask sums to zero and has positive and negative weights
      summing to 4 each. */
  lemma SobelWeights()
    ensures IsSquare(GxMask, 3) && IsSquare(GyMask, 3)
    ensures Total(GxMask) == 0 && Total(GyMask) == 0
    ensures Total(PosPart(GxMask)) == 4 && Total(NegPart(GxMask)) == 4
    ensures Total(PosPart(GyMask)) == 4 && Total(NegPart(GyMask)) == 4
  {
    var gxPos, gxNeg := PosPart(GxMask), NegPart(GxMask);
    var gyPos, gyNeg := PosPart(GyMask), NegPart(GyMask);
    Total3(gxPos);
    Total3(gxNeg);
    Total3(gyPos);
    Total3(gyNeg);
    assert gxPos[0] == [0, 0, 1] && gxPos[1] == [0, 0, 2] && gxPos[2] == [0, 0, 1];
    assert gxNeg[0] == [1, 0, 0] && gxNeg[1] == [2, 0, 0] && gxNeg[2] == [1, 0, 0];
    assert gyPos[0] == [0, 0, 0] && gyPos[1] == [0, 0, 0] && gyPos[2] == [1, 2, 1];
    assert gyNeg[0] == [1, 2, 1] && gyNeg[1] == [0, 0, 0] && gyNeg[2] == [0, 0, 0];
  }

  /** The sum of a 3x3 matrix, written out. */
  lemma Total3(m: Matrix)
    requires IsSquare(m, 3)
    ensures Total(m) == m[0][0] + m[0][1] + m[0][2] + m[1][0] + m[1][1] + m[1][2] + m[2][0] + m[2][1] + m[2][2]
  {
    forall a | 0 <= a < 3
      ensures RowSum(m[a], 3) == m[a][0] + m[a][1] + m[a][2]
    {
      assert RowSum(m[a], 1) == m[a][0];
    }
    assert PartialSum(m, 1) == RowSum(m[0], 3);
    assert PartialSum(m, 2) == PartialSum(m, 1) + RowSum(m[1], 3);
    assert Total(m) == PartialSum(m, 2) + RowSum(m[2], 3);
  }
}
