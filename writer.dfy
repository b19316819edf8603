/** `write_image2`: a buffer written out as a plain (P2) PGM file. The file
    is modelled as the string of characters `fprintf` emits, in order. */
module Writer {
  import opened PgmTypes
  import opened Raster

  /** The character of decimal digit `d`. */
  function DigitChar(d: nat): (c: char)
    requires d < 10
    ensures '0' <= c <= '9' && c as int - '0' as int == d
  {
    ('0' as int + d) as char
  }

  /** What `%d` prints for a non-negative value: its decimal digits, most
      significant first, with no leading zero. */
  function Dec(v: nat): (s: string)
    ensures 1 <= |s|
    ensures forall k :: 0 <= k < |s| ==> '0' <= s[k] <= '9'
    ensures s[0] == '0' <==> v == 0
  {
    if v < 10 then [DigitChar(v)] else Dec(v / 10) + [DigitChar(v % 10)]
  }

  /** A value below 1000 takes one, two or three digits. */
  lemma DecLength(v: nat)
    requires v < 1000
    ensures |Dec(v)| == if v < 10 then 1 else if v < 100 then 2 else 3
  {
    if v >= 10 {
      DecLength(v / 10);
    }
  }

  function Spaces(n: nat): (s: string)
    ensures |s| == n && forall k :: 0 <= k < n ==> s[k] == ' '
  {
    seq(n, _ => ' ')
  }

  /** `fprintf("%3d ", v)` for a sample: the digits right-aligned in three
      columns, then one space. Every field is four characters wide. */
  function Field(v: byte): (s: string)
    ensures |s| == 4 && s[3] == ' '
    ensures forall k :: 0 <= k < 4 ==> s[k] != '\n'
  {
    DecLength(v);
    Spaces(3 - |Dec(v)|) + Dec(v) + " "
  }

  /** The newline after the sample in column `i` when `i % 32 == 31`. */
  function Brk(i: nat): string
  {
    if i % 32 == 31 then "\n" else ""
  }

  /** The newline closing a row whose width is not a multiple of 32. */
  function RowEnd(M: nat): string
  {
    if M % 32 != 0 then "\n" else ""
  }

  /** The output for the first `i` samples of row `j`. */
  function RowText(img: seq<byte>, M: nat, N: nat, j: nat, i: nat): string
    requires |img| == M * N && j < N && i <= M
  {
    if i == 0 then [] else RowText(img, M, N, j, i - 1) + Field(Sample(img, M, N, j, i - 1)) + Brk(i - 1)
  }

  /** The whole output for row `j`. */
  function Line(img: seq<byte>, M: nat, N: nat, j: nat): string
    requires |img| == M * N && j < N
  {
    RowText(img, M, N, j, M) + RowEnd(M)
  }

  /** The output for the first `j` rows. */
  function BodyText(img: seq<byte>, M: nat, N: nat, j: nat): string
    requires |img| == M * N && j <= N
  {
    if j == 0 then [] else BodyText(img, M, N, j - 1) + Line(img, M, N, j - 1)
  }

  /** The three header lines: magic, width and height, maximum value. */
  function Header(M: nat, N: nat): string
  {
    "P2\n" + Dec(M) + " " + Dec(N) + "\n" + Dec(255) + "\n"
  }

  function PgmText(img: seq<byte>, M: nat, N: nat): string
    requires |img| == M * N
  {
    Header(M, N) + BodyText(img, M, N, N)
  }

  /** `write_image2`: the header, then the samples row by row. */
  method WriteImage(img: array<byte>, M: nat, N: nat) returns (out: string)
    requires img.Length == M * N
    ensures out == PgmText(img[..], M, N)
  {
    out := "P2\n";
    out := out + Dec(M) + " " + Dec(N) + "\n";
    out := out + Dec(255) + "\n";
    for j := 0 to N
      invariant out == Header(M, N) + BodyText(img[..], M, N, j)
    {
      ghost var body := BodyText(img[..], M, N, j);
      out := WriteRow(img, M, N, j, out);
      Assoc(Header(M, N), body, Line(img[..], M, N, j));
    }
  }

  /** One pass of the outer loop of `write_image2`: row `j` appended to
      `out`. */
  method WriteRow(img: array<byte>, M: nat, N: nat, j: nat, before: string) returns (out: string)
    requires img.Length == M * N && j < N
    ensures out == before + Line(img[..], M, N, j)
  {
    out := before;
    for i := 0 to M
      invariant out == before + RowText(img[..], M, N, j, i)
    {
      FlatIndexInRange(M, N, j, i);
      ghost var done := RowText(img[..], M, N, j, i);
      out := out + Field(img[M * j + i]);
      if i % 32 == 31 {
        out := out + "\n";
      }
      Assoc3(before, done, Field(img[M * j + i]), Brk(i));
    }
    if M % 32 != 0 {
      out := out + "\n";
    }
  }

  lemma Assoc(a: string, b: string, c: string)
    ensures a + b + c == a + (b + c)
  {
  }

  lemma Assoc3(a: string, b: string, c: string, d: string)
    ensures a + b + c + d == a + (b + c + d)
  {
  }

  /** How often `c` occurs in `s`. */
  function Count(s: string, c: char): (n: nat)
    ensures n <= |s|
  {
    if s == [] then 0 else Count(s[..|s| - 1], c) + (if s[|s| - 1] == c then 1 else 0)
  }

  lemma {:induction false} CountAppend(s: string, t: string, c: char)
    ensures Count(s + t, c) == Count(s, c) + Count(t, c)
    decreases |t|
  {
    if t != [] {
      assert (s + t)[..|s + t| - 1] == s + t[..|t| - 1];
      assert (s + t)[|s + t| - 1] == t[|t| - 1];
      CountAppend(s, t[..|t| - 1], c);
    } else {
      assert s + t == s;
    }
  }

  /** Inside a row, the first `i` fields take `4 * i` characters plus one
      newline after every 32nd field, and the newlines sit exactly at the
      positions 128, 257, 386, ...: 32 fields of four characters per line. */
  lemma {:induction false} RowTextLayout(img: seq<byte>, M: nat, N: nat, j: nat, i: nat)
    requires |img| == M * N && j < N && i <= M
    ensures |RowText(img, M, N, j, i)| == 4 * i + i / 32
    ensures forall k :: 0 <= k < |RowText(img, M, N, j, i)| ==>
      (RowText(img, M, N, j, i)[k] == '\n' <==> k % 129 == 128)
    ensures Count(RowText(img, M, N, j, i), '\n') == i / 32
  {
    if i > 0 {
      RowTextLayout(img, M, N, j, i - 1);
      var prev, f := RowText(img, M, N, j, i - 1), Field(Sample(img, M, N, j, i - 1));
      var q, r := (i - 1) / 32, (i - 1) % 32;
      DivStep(i - 1, q, r);
      FieldStep(prev, f, Brk(i - 1), q, r);
    }
  }

  /** Appending one field, and the newline after every 32nd, keeps the
      layout of a row. */
  lemma FieldStep(prev: string, f: string, b: string, q: nat, r: nat)
    requires |f| == 4 && forall k :: 0 <= k < 4 ==> f[k] != '\n'
    requires r < 32 && b == if r == 31 then "\n" else ""
    requires |prev| == 129 * q + 4 * r && Count(prev, '\n') == q
    requires forall k :: 0 <= k < |prev| ==> (prev[k] == '\n' <==> k % 129 == 128)
    ensures |prev + f + b| == 129 * q + 4 * r + 4 + |b|
    ensures Count(prev + f + b, '\n') == q + |b|
    ensures forall k :: 0 <= k < |prev + f + b| ==> ((prev + f + b)[k] == '\n' <==> k % 129 == 128)
  {
    var row := prev + f + b;
    forall k | 0 <= k < |row|
      ensures row[k] == '\n' <==> k % 129 == 128
    {
      if k < |prev| {
        assert row[k] == prev[k];
      } else if k < |prev| + 4 {
        assert row[k] == f[k - |prev|];
        ModOf(k, q, 4 * r + (k - |prev|));
      } else {
        ModOf(k, q, 128);
      }
    }
    CountAppend(prev, f, '\n');
    CountAppend(prev + f, b, '\n');
    CountNone(f, '\n');
  }

  /** Splitting `n` into 32 * q + r: the length and the newline count of the
      first `n + 1` fields. */
  lemma DivStep(n: nat, q: nat, r: nat)
    requires q == n / 32 && r == n % 32
    ensures 4 * n + q == 129 * q + 4 * r
    ensures (n + 1) / 32 == q + (if r == 31 then 1 else 0)
  {
  }

  lemma ModOf(k: int, q: int, t: int)
    requires 0 <= t < 129 && k == 129 * q + t
    ensures k % 129 == t
  {
  }

  lemma {:induction false} CountNone(s: string, c: char)
    requires forall k :: 0 <= k < |s| ==> s[k] != c
    ensures Count(s, c) == 0
    decreases |s|
  {
    if s != [] {
      CountNone(s[..|s| - 1], c);
    }
  }

  /** A row of width `M` takes `4 * M` characters and `(M + 31) / 32`
      newlines, the last of them its final character, right after the space
      of the last field: a non-empty row ends in exactly one newline. */
  lemma LineLayout(img: seq<byte>, M: nat, N: nat, j: nat)
    requires |img| == M * N && j < N
    ensures |Line(img, M, N, j)| == 4 * M + (M + 31) / 32
    ensures Count(Line(img, M, N, j), '\n') == (M + 31) / 32
    ensures M > 0 ==> Line(img, M, N, j)[|Line(img, M, N, j)| - 1] == '\n'
    ensures M > 0 ==> Line(img, M, N, j)[|Line(img, M, N, j)| - 2] == ' '
  {
    RowTextLayout(img, M, N, j, M);
    CountAppend(RowText(img, M, N, j, M), RowEnd(M), '\n');
    if M > 0 {
      var prev, f := RowText(img, M, N, j, M - 1), Field(Sample(img, M, N, j, M - 1));
      LastColumn(M);
      LineTail(prev, f, Brk(M - 1), RowEnd(M));
    }
  }

  /** The last column gets the in-row newline exactly when the row-end one
      is left out. */
  lemma LastColumn(M: nat)
    requires M > 0
    ensures (M - 1) % 32 == 31 <==> M % 32 == 0
  {
    var q, r := (M - 1) / 32, (M - 1) % 32;
    assert M == 32 * q + r + 1;
    if r == 31 {
      assert M == 32 * (q + 1);
    } else {
      assert M % 32 == r + 1;
    }
  }

  /** A row closed by exactly one of its two possible newlines ends in the
      last field's space and that newline. */
  lemma LineTail(prev: string, f: string, b: string, e: string)
    requires |f| == 4 && f[3] == ' '
    requires (b == "\n" && e == "") || (b == "" && e == "\n")
    ensures |prev + f + b + e| >= 2
    ensures (prev + f + b + e)[|prev + f + b + e| - 1] == '\n'
    ensures (prev + f + b + e)[|prev + f + b + e| - 2] == ' '
  {
    var s := prev + f + b + e;
    assert s == prev + f + "\n";
  }

  /** The body holds `N` rows of equal length. */
  lemma {:induction false} BodyLength(img: seq<byte>, M: nat, N: nat, j: nat)
    requires |img| == M * N && j <= N
    ensures |BodyText(img, M, N, j)| == j * LineWidth(M)
  {
    if j > 0 {
      BodyLength(img, M, N, j - 1);
      LineLength(img, M, N, j - 1);
      MulStep(j, LineWidth(M));
    }
  }

  lemma LineLength(img: seq<byte>, M: nat, N: nat, j: nat)
    requires |img| == M * N && j < N
    ensures |Line(img, M, N, j)| == LineWidth(M)
  {
    RowTextLayout(img, M, N, j, M);
    if M > 0 {
      LastColumn(M);
    }
  }

  /** The characters one row takes: four per field plus its newlines. */
  function LineWidth(M: nat): nat
  {
    4 * M + (M + 31) / 32
  }

  lemma MulStep(j: nat, w: nat)
    requires j > 0
    ensures j * w == (j - 1) * w + w
  {
  }
}
