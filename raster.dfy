/** What the two convolution passes compute at one pixel, as functions of the
    input buffer: the zero-padded 5x5 Gaussian sum and its quotient by 159,
    the two 3x3 Sobel responses and the truncated gradient magnitude. */
module Raster {
  import opened PgmTypes
  import opened Kernels

  /** The sample at row `y`, column `x` of an `M`-wide, `N`-high row-major
      buffer: entry `M * y + x`. */
  function Sample(img: seq<byte>, M: nat, N: nat, y: int, x: int): byte
    requires |img| == M * N
    requires 0 <= y < N && 0 <= x < M
  {
    FlatIndexInRange(M, N, y, x);
    img[M * y + x]
  }

  /** The sample at (y, x), or 0 when (y, x) lies outside the image (the
      blur's zero padding). */
  function Padded(img: seq<byte>, M: nat, N: nat, y: int, x: int): (v: int)
    requires |img| == M * N
    ensures 0 <= v <= 255
  {
    if 0 <= y < N && 0 <= x < M then Sample(img, M, N, y, x) else 0
  }

  /** Inside the image the padded read is the buffer entry `M * y + x`. */
  lemma PaddedInside(img: seq<byte>, M: nat, N: nat, y: int, x: int)
    requires |img| == M * N
    requires 0 <= y < N && 0 <= x < M
    ensures 0 <= M * y + x < M * N
    ensures Padded(img, M, N, y, x) == img[M * y + x]
  {
    FlatIndexInRange(M, N, y, x);
  }

  /** The (2r+1)x(2r+1) neighbourhood centred on (row, col), zero padded. */
  function Window(img: seq<byte>, M: nat, N: nat, row: int, col: int, r: nat): (w: Matrix)
    requires |img| == M * N
    ensures IsSquare(w, 2 * r + 1)
    ensures forall a, b :: 0 <= a < 2 * r + 1 && 0 <= b < 2 * r + 1 ==>
      w[a][b] == Padded(img, M, N, row - r + a, col - r + b)
  {
    seq(2 * r + 1, a requires 0 <= a < 2 * r + 1 =>
      seq(2 * r + 1, b requires 0 <= b < 2 * r + 1 => Padded(img, M, N, row - r + a, col - r + b)))
  }

  /** Every entry of a window lies in 0..255. */
  lemma WindowInRange(img: seq<byte>, M: nat, N: nat, row: int, col: int, r: nat)
    requires |img| == M * N
    ensures forall a, b :: 0 <= a < |Window(img, M, N, row, col, r)| && 0 <= b < |Window(img, M, N, row, col, r)[a]| ==>
      0 <= Window(img, M, N, row, col, r)[a][b] <= 255
  {
  }

  /** The accumulator `newPixel` of the blur: the Gaussian-weighted sum of the
      zero-padded 5x5 neighbourhood. It never exceeds 255 * 159. */
  function GaussSum(img: seq<byte>, M: nat, N: nat, row: int, col: int): (s: int)
    requires |img| == M * N
    ensures 0 <= s <= 255 * GaussDivisor
  {
    var w := Window(img, M, N, row, col, 2);
    GaussWeights();
    WindowInRange(img, M, N, row, col, 2);
    WeightedSumBounds(GaussMask, w, 255);
    Total(Product(GaussMask, w))
  }

  /** The blurred sample `newPixel / 159`; its range is that of a byte, so the
      narrowing to `unsigned char` loses nothing. */
  function BlurAt(img: seq<byte>, M: nat, N: nat, row: int, col: int): (v: int)
    requires |img| == M * N
    ensures 0 <= v <= 255
  {
    GaussSum(img, M, N, row, col) / GaussDivisor
  }

  /** The horizontal Sobel response `Gx` at (row, col); |Gx| <= 4 * 255. */
  function SobelX(filt: seq<byte>, M: nat, N: nat, row: int, col: int): (g: int)
    requires |filt| == M * N
    ensures -1020 <= g <= 1020
  {
    var w := Window(filt, M, N, row, col, 1);
    SobelWeights();
    WindowInRange(filt, M, N, row, col, 1);
    WeightedSumBounds(GxMask, w, 255);
    Total(Product(GxMask, w))
  }

  /** The vertical Sobel response `Gy` at (row, col); |Gy| <= 4 * 255. */
  function SobelY(filt: seq<byte>, M: nat, N: nat, row: int, col: int): (g: int)
    requires |filt| == M * N
    ensures -1020 <= g <= 1020
  {
    var w := Window(filt, M, N, row, col, 1);
    SobelWeights();
    WindowInRange(filt, M, N, row, col, 1);
    WeightedSumBounds(GyMask, w, 255);
    Total(Product(GyMask, w))
  }

  /** The integer square root, rounded down: what `(unsigned char)sqrt(v)`
      keeps of an exact integer argument before any narrowing. */
  function FloorSqrt(v: nat): (r: nat)
    ensures r * r <= v < (r + 1) * (r + 1)
  {
    if v < 4 then
      if v == 0 then 0 else 1
    else
      var h := FloorSqrt(v / 4);
      SqrtStep(v, h);
      if (2 * h + 1) * (2 * h + 1) <= v then 2 * h + 1 else 2 * h
  }

  /** The root of `v / 4`, doubled, is within one of the root of `v`. */
  lemma SqrtStep(v: nat, h: nat)
    requires h * h <= v / 4 < (h + 1) * (h + 1)
    ensures (2 * h) * (2 * h) <= v < (2 * h + 2) * (2 * h + 2)
  {
    var q, hh, hh1 := v / 4, h * h, (h + 1) * (h + 1);
    assert 4 * q <= v < 4 * q + 4;
    assert (2 * h) * (2 * h) == 4 * hh;
    assert (2 * h + 2) * (2 * h + 2) == 4 * hh1;
  }

  /** The gradient magnitude floor(sqrt(Gx^2 + Gy^2)); at most 1442. */
  function Magnitude(filt: seq<byte>, M: nat, N: nat, row: int, col: int): (m: nat)
    requires |filt| == M * N
    ensures m * m <= 2 * 1020 * 1020
  {
    var gx, gy := SobelX(filt, M, N, row, col), SobelY(filt, M, N, row, col);
    assert gx * gx <= 1020 * 1020 && gy * gy <= 1020 * 1020 by {
      SquareBound(gx, 1020);
      SquareBound(gy, 1020);
    }
    FloorSqrt(gx * gx + gy * gy)
  }

  lemma SquareBound(g: int, k: int)
    requires 0 <= k && -k <= g <= k
    ensures g * g <= k * k
  {
    if g < 0 {
      assert g * g == (-g) * (-g);
    }
  }

  /** The pixels Sobel computes: rows 1..N-2 and columns 1..M-2. */
  predicate IsInterior(M: nat, N: nat, row: int, col: int)
  {
    1 <= row < N - 1 && 1 <= col < M - 1
  }

  /** A pixel whose zero-padded 5x5 neighbourhood is the constant `c` blurs
      to exactly `c`, because the weights sum to the divisor. */
  lemma BlurOfConstant(img: seq<byte>, M: nat, N: nat, row: int, col: int, c: int)
    requires |img| == M * N
    requires forall y, x :: row - 2 <= y <= row + 2 && col - 2 <= x <= col + 2 ==> Padded(img, M, N, y, x) == c
    ensures BlurAt(img, M, N, row, col) == c
  {
    var w := Window(img, M, N, row, col, 2);
    forall a, b | 0 <= a < |w| && 0 <= b < |w[a]|
      ensures w[a][b] == c
    {
      assert w[a][b] == Padded(img, M, N, row - 2 + a, col - 2 + b);
    }
    GaussWeights();
    WeightedSumOfConstant(GaussMask, w, c);
    assert GaussSum(img, M, N, row, col) == c * GaussDivisor;
  }

  /** An all-zero image blurs to zero everywhere. */
  lemma BlurOfZero(img: seq<byte>, M: nat, N: nat, row: int, col: int)
    requires |img| == M * N
    requires forall k :: 0 <= k < |img| ==> img[k] == 0
    ensures BlurAt(img, M, N, row, col) == 0
  {
    forall y, x | row - 2 <= y <= row + 2 && col - 2 <= x <= col + 2
      ensures Padded(img, M, N, y, x) == 0
    {
      if 0 <= y < N && 0 <= x < M {
        FlatIndexInRange(M, N, y, x);
      }
    }
    BlurOfConstant(img, M, N, row, col, 0);
  }

  /** Both Sobel responses vanish on a constant 3x3 neighbourhood, since each
      mask sums to zero; the magnitude there is 0. */
  lemma SobelOfConstant(filt: seq<byte>, M: nat, N: nat, row: int, col: int, c: int)
    requires |filt| == M * N
    requires forall y, x :: row - 1 <= y <= row + 1 && col - 1 <= x <= col + 1 ==> Padded(filt, M, N, y, x) == c
    ensures SobelX(filt, M, N, row, col) == 0 && SobelY(filt, M, N, row, col) == 0
    ensures Magnitude(filt, M, N, row, col) == 0
  {
    var w := Window(filt, M, N, row, col, 1);
    forall a, b | 0 <= a < |w| && 0 <= b < |w[a]|
      ensures w[a][b] == c
    {
      assert w[a][b] == Padded(filt, M, N, row - 1 + a, col - 1 + b);
    }
    SobelWeights();
    WeightedSumOfConstant(GxMask, w, c);
    WeightedSumOfConstant(GyMask, w, c);
  }
}
