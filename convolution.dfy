/** `Gaussian_Blur` and `Sobel` of the run-time sized pipeline: nested loops
    over the row-major buffers `frame1`, `filt` and `gradient`, each proved
    to produce, pixel by pixel, the value the Raster functions define. */
module Convolution {
  import opened PgmTypes
  import opened Kernels
  import opened Raster

  /** The two offset loops of `Gaussian_Blur` for one output pixel: the
      accumulator `newPixel`, with out-of-image neighbours read as 0. */
  method BlurSum(frame1: array<byte>, M: nat, N: nat, row: nat, col: nat) returns (newPixel: int)
    requires frame1.Length == M * N
    ensures newPixel == GaussSum(frame1[..], M, N, row, col)
  {
    ghost var img := frame1[..];
    ghost var p := Product(GaussMask, Window(img, M, N, row, col, 2));
    newPixel := 0;
    for rowOffset := -2 to 3
      invariant newPixel == PartialSum(p, rowOffset + 2)
    {
      for colOffset := -2 to 3
        invariant newPixel == PartialSum(p, rowOffset + 2) + RowSum(p[rowOffset + 2], colOffset + 2)
      {
        BlurTap(img, M, N, row, col, rowOffset, colOffset);
        var pix: byte;
        if row + rowOffset < 0 || row + rowOffset >= N || col + colOffset < 0 || col + colOffset >= M {
          pix := 0;
        } else {
          pix := frame1[M * (row + rowOffset) + col + colOffset];
        }
        newPixel := newPixel + pix * GaussMask[rowOffset + 2][colOffset + 2];
      }
    }
  }

  /** `Gaussian_Blur`: every entry of `filt` becomes the blurred sample of
      `frame1` at the same row and column; `frame1` is left as it was. */
  method GaussianBlur(frame1: array<byte>, filt: array<byte>, M: nat, N: nat)
    requires frame1.Length == M * N && filt.Length == M * N
    requires frame1 != filt
    modifies filt
    ensures frame1[..] == old(frame1[..])
    ensures forall k :: 0 <= k < M * N ==> filt[k] == BlurAt(frame1[..], M, N, k / M, k % M)
  {
    for row := 0 to N
      invariant M * row <= M * N
      invariant forall k :: 0 <= k < M * row ==> filt[k] == BlurAt(frame1[..], M, N, k / M, k % M)
    {
      RowFits(M, N, row);
      for col := 0 to M
        invariant forall k :: 0 <= k < M * row + col ==> filt[k] == BlurAt(frame1[..], M, N, k / M, k % M)
      {
        var newPixel := BlurSum(frame1, M, N, row, col);
        FlatIndexDecode(M, row, col);
        filt[M * row + col] := newPixel / 159;
      }
      assert M * row + M == M * (row + 1);
    }
  }

  /** The offset loops of `Sobel` for one interior pixel: the accumulators
      `Gx` and `Gy`. The loop bounds keep every read inside the image. */
  method SobelSums(filt: array<byte>, M: nat, N: nat, row: nat, col: nat) returns (Gx: int, Gy: int)
    requires filt.Length == M * N
    requires IsInterior(M, N, row, col)
    ensures Gx == SobelX(filt[..], M, N, row, col)
    ensures Gy == SobelY(filt[..], M, N, row, col)
  {
    ghost var img := filt[..];
    ghost var px := Product(GxMask, Window(img, M, N, row, col, 1));
    ghost var py := Product(GyMask, Window(img, M, N, row, col, 1));
    Gx, Gy := 0, 0;
    for rowOffset := -1 to 2
      invariant Gx == PartialSum(px, rowOffset + 1)
      invariant Gy == PartialSum(py, rowOffset + 1)
    {
      for colOffset := -1 to 2
        invariant Gx == PartialSum(px, rowOffset + 1) + RowSum(px[rowOffset + 1], colOffset + 1)
        invariant Gy == PartialSum(py, rowOffset + 1) + RowSum(py[rowOffset + 1], colOffset + 1)
      {
        SobelTap(img, M, N, row, col, rowOffset, colOffset);
        Gx := Gx + filt[M * (row + rowOffset) + col + colOffset] * GxMask[rowOffset + 1][colOffset + 1];
        Gy := Gy + filt[M * (row + rowOffset) + col + colOffset] * GyMask[rowOffset + 1][colOffset + 1];
      }
    }
  }

  /** Rows before `row`, or row `row` before column `col`: the pixels a
      row-major scan has visited. */
  predicate Visited(y: int, x: int, row: int, col: int)
  {
    y < row || (y == row && x < col)
  }

  /** The gradient sample at (y, x) once the scan has reached (row, col):
      a visited interior pixel holds the magnitude when that fits in a byte;
      every other pixel still holds its old value `was`. */
  predicate SobelDone(filt: seq<byte>, M: nat, N: nat, y: int, x: int, was: byte, now: byte, row: int, col: int)
    requires |filt| == M * N
  {
    if IsInterior(M, N, y, x) && Visited(y, x, row, col) then
      Magnitude(filt, M, N, y, x) <= 255 ==> now == Magnitude(filt, M, N, y, x)
    else
      now == was
  }

  /** `Sobel`: every interior pixel of `gradient` becomes the truncated
      gradient magnitude of `filt` there, provided that magnitude fits in a
      byte (a larger one is converted to `unsigned char` with undefined
      behaviour, so the stored value is left unspecified); every border pixel
      keeps its old value, and `filt` is not changed. */
  method Sobel(filt: array<byte>, gradient: array<byte>, M: nat, N: nat)
    requires filt.Length == M * N && gradient.Length == M * N
    requires filt != gradient
    modifies gradient
    ensures filt[..] == old(filt[..])
    ensures forall y, x :: 0 <= y < N && 0 <= x < M && !IsInterior(M, N, y, x) ==>
      Sample(gradient[..], M, N, y, x) == Sample(old(gradient[..]), M, N, y, x)
    ensures forall y, x :: 0 <= y < N && 0 <= x < M && IsInterior(M, N, y, x) ==>
      (Magnitude(filt[..], M, N, y, x) <= 255 ==> Sample(gradient[..], M, N, y, x) == Magnitude(filt[..], M, N, y, x))
  {
    ghost var img, g0 := filt[..], gradient[..];
    var row := 1;
    while row < N - 1
      invariant 1 <= row
      invariant filt[..] == img
      invariant forall y, x :: 0 <= y < N && 0 <= x < M ==>
        SobelDone(img, M, N, y, x, Sample(g0, M, N, y, x), Sample(gradient[..], M, N, y, x), row, 0)
    {
      var col := 1;
      while col < M - 1
        invariant 1 <= col && (M >= 2 ==> col <= M - 1)
        invariant filt[..] == img
        invariant forall y, x :: 0 <= y < N && 0 <= x < M ==>
          SobelDone(img, M, N, y, x, Sample(g0, M, N, y, x), Sample(gradient[..], M, N, y, x), row, col)
      {
        var Gx, Gy := SobelSums(filt, M, N, row, col);
        assert Gx * Gx + Gy * Gy >= 0;
        var magnitude := FloorSqrt(Gx * Gx + Gy * Gy);
        FlatIndexInRange(M, N, row, col);
        ghost var before := gradient[..];
        if magnitude <= 255 {
          gradient[M * row + col] := magnitude;
        } else {
          var unspecified :| 0 <= unspecified < 256;
          gradient[M * row + col] := unspecified;
        }
        forall y, x | 0 <= y < N && 0 <= x < M && (y != row || x != col)
          ensures Sample(gradient[..], M, N, y, x) == Sample(before, M, N, y, x)
        {
          FlatIndexInRange(M, N, y, x);
          if M * y + x == M * row + col {
            FlatIndexInjective(M, y, x, row, col);
          }
        }
        col := col + 1;
      }
      row := row + 1;
    }
  }

  /** Entry (dr + r, dc + r) of a mask-times-window product is the weight
      times the padded sample at offset (dr, dc) from the centre. */
  lemma WindowTap(img: seq<byte>, M: nat, N: nat, row: int, col: int, r: nat, mask: Matrix, dr: int, dc: int)
    requires |img| == M * N
    requires IsSquare(mask, 2 * r + 1)
    requires dr + r >= 0 && dc + r >= 0 && dr <= r && dc <= r
    ensures Product(mask, Window(img, M, N, row, col, r))[dr + r][dc + r]
      == Padded(img, M, N, row + dr, col + dc) * mask[dr + r][dc + r]
  {
    var w := Window(img, M, N, row, col, r);
    assert w[dr + r][dc + r] == Padded(img, M, N, row - r + (dr + r), col - r + (dc + r));
  }

  /** One step of the Sobel offset loops: at an interior centre the read at
      offset (dr, dc) is inside the buffer, and it contributes its weighted
      value to both products. */
  lemma SobelTap(img: seq<byte>, M: nat, N: nat, row: int, col: int, dr: int, dc: int)
    requires |img| == M * N
    requires IsInterior(M, N, row, col)
    requires -1 <= dr <= 1 && -1 <= dc <= 1
    ensures 0 <= M * (row + dr) + col + dc < M * N
    ensures Product(GxMask, Window(img, M, N, row, col, 1))[dr + 1][dc + 1]
      == img[M * (row + dr) + col + dc] * GxMask[dr + 1][dc + 1]
    ensures Product(GyMask, Window(img, M, N, row, col, 1))[dr + 1][dc + 1]
      == img[M * (row + dr) + col + dc] * GyMask[dr + 1][dc + 1]
  {
    PaddedInside(img, M, N, row + dr, col + dc);
    WindowTap(img, M, N, row, col, 1, GxMask, dr, dc);
    WindowTap(img, M, N, row, col, 1, GyMask, dr, dc);
  }

  /** One step of the blur's offset loops: a neighbour inside the image is
      read from the buffer, one outside contributes 0. */
  lemma BlurTap(img: seq<byte>, M: nat, N: nat, row: int, col: int, dr: int, dc: int)
    requires |img| == M * N
    requires -2 <= dr <= 2 && -2 <= dc <= 2
    ensures 0 <= row + dr < N && 0 <= col + dc < M ==>
      0 <= M * (row + dr) + col + dc < M * N &&
      Product(GaussMask, Window(img, M, N, row, col, 2))[dr + 2][dc + 2]
        == img[M * (row + dr) + col + dc] * GaussMask[dr + 2][dc + 2]
    ensures !(0 <= row + dr < N && 0 <= col + dc < M) ==>
      Product(GaussMask, Window(img, M, N, row, col, 2))[dr + 2][dc + 2] == 0
  {
    GaussWeights();
    WindowTap(img, M, N, row, col, 2, GaussMask, dr, dc);
    if 0 <= row + dr < N && 0 <= col + dc < M {
      PaddedInside(img, M, N, row + dr, col + dc);
    }
  }
}
