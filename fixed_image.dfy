/** The fixed-size pipeline: the same stages over three static buffers of
    `M * N` samples with `M = N = 512` fixed at compile time. Static storage
    starts out zero, and `Sobel` never writes the border of `gradient`, so
    the border of the edge image stays zero. */
module FixedImage {
  import opened PgmTypes
  import opened Raster
  import opened Reader
  import opened Writer
  import Convolution
  import RoundTrip

  /** The compile-time width (columns) and height (rows). */
  const M: nat := 512
  const N: nat := 512

  /** The three static buffers `frame1`, `filt` and `gradient`. */
  class Buffers {
    var frame1: array<byte>
    var filt: array<byte>
    var gradient: array<byte>

    /** Three distinct buffers of `M * N` samples each. */
    predicate Valid()
      reads this
    {
      frame1.Length == M * N && filt.Length == M * N && gradient.Length == M * N &&
      frame1 != filt && filt != gradient && frame1 != gradient
    }

    /** Row 0, row `N - 1`, column 0 and column `M - 1` of `gradient` hold 0. */
    predicate BorderZero()
      requires Valid()
      reads this, gradient
    {
      forall y, x :: 0 <= y < N && 0 <= x < M && !IsInterior(M, N, y, x) ==> Sample(gradient[..], M, N, y, x) == 0
    }

    /** Static storage: every sample of every buffer starts at 0. */
    constructor ()
      ensures Valid() && BorderZero()
      ensures fresh(frame1) && fresh(filt) && fresh(gradient)
      ensures forall k :: 0 <= k < M * N ==> frame1[k] == 0 && filt[k] == 0 && gradient[k] == 0
    {
      frame1 := new byte[M * N](_ => 0);
      filt := new byte[M * N](_ => 0);
      gradient := new byte[M * N](_ => 0);
      new;
      forall y, x | 0 <= y < N && 0 <= x < M
        ensures Sample(gradient[..], M, N, y, x) == 0
      {
        FlatIndexInRange(M, N, y, x);
      }
    }

    /** `read_image`: exactly `M * N` samples are stored, whatever width and
        height the header announces; a P5 file is always read in full. */
    method ReadImage(data: seq<byte>, temp0: int) returns (outcome: Result<seq<byte>>)
      requires Valid()
      modifies frame1
      ensures outcome == ReadPgm(data, M, N, temp0)
      ensures outcome.Ok? ==> |outcome.value| == M * N && frame1[..] == outcome.value
      ensures IsP5(OpenFileSpec(data).magic) ==> outcome.Ok?
    {
      outcome := Reader.ReadImage(data, M, N, frame1, temp0);
      if outcome.Ok? {
        ReadPgmLength(data, M, N, temp0);
      }
      ReadPgmDispatch(data, M, N, temp0);
    }

    /** `Gaussian_Blur`: every sample of `filt` becomes the blurred sample of
        `frame1` at the same row and column, a value between 0 and 255. */
    method GaussianBlur()
      requires Valid()
      modifies filt
      ensures forall k :: 0 <= k < M * N ==> filt[k] == BlurAt(frame1[..], M, N, k / M, k % M)
      ensures forall k :: 0 <= k < M * N ==> 0 <= filt[k] <= 255
    {
      Convolution.GaussianBlur(frame1, filt, M, N);
    }

    /** `Sobel`: only `filt` is read; each pixel of rows and columns 1 to 510
        becomes the truncated gradient magnitude when that fits in a byte,
        and the zero border of `gradient` stays zero. */
    method Sobel()
      requires Valid() && BorderZero()
      modifies gradient
      ensures BorderZero()
      ensures forall y, x :: 0 <= y < N && 0 <= x < M && IsInterior(M, N, y, x) ==>
        (Magnitude(filt[..], M, N, y, x) <= 255 ==> Sample(gradient[..], M, N, y, x) == Magnitude(filt[..], M, N, y, x))
    {
      Convolution.Sobel(filt, gradient, M, N);
    }
  }

  /** `write_image2` for a buffer of the fixed size. */
  method WriteImage(img: array<byte>) returns (out: string)
    requires img.Length == M * N
    ensures out == PgmText(img[..], M, N)
    ensures out[..|Header(M, N)|] == "P2\n512 512\n255\n"
  {
    out := Writer.WriteImage(img, M, N);
    FixedHeader();
  }

  /** The header is always the same three lines. */
  lemma FixedHeader()
    ensures Header(M, N) == "P2\n512 512\n255\n"
  {
    assert Dec(512) == Dec(51) + ['2'];
    assert Dec(51) == Dec(5) + ['1'];
    assert Dec(255) == Dec(25) + ['5'];
    assert Dec(25) == Dec(2) + ['5'];
  }

  /** Since 512 is a multiple of 32, a row is written as 16 lines of 32
      four-character fields, each line closed by its own newline and no
      newline added at the end of the row. */
  lemma FixedLine(img: seq<byte>, j: nat)
    requires |img| == M * N && j < N
    ensures RowEnd(M) == ""
    ensures |Line(img, M, N, j)| == 16 * 129
    ensures Count(Line(img, M, N, j), '\n') == 16
    ensures forall k :: 0 <= k < |Line(img, M, N, j)| ==> (Line(img, M, N, j)[k] == '\n' <==> k % 129 == 128)
  {
    RowTextLayout(img, M, N, j, M);
    assert Line(img, M, N, j) == RowText(img, M, N, j, M) + RowEnd(M);
    assert RowText(img, M, N, j, M) + [] == RowText(img, M, N, j, M);
  }

  /** Reading back a written image, with the width and height fixed at 512,
      yields the buffer that was written. */
  lemma FixedRoundTrip(img: seq<byte>, temp0: int)
    requires |img| == M * N
    ensures ReadPgm(RoundTrip.Encode(PgmText(img, M, N)), M, N, temp0) == Ok(img)
  {
    RoundTrip.ReadWritten(img, M, N, temp0);
  }
}
