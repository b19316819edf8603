/** Reading back what `write_image2` writes: the P2 text, taken byte for
    byte, is opened by `openfile` with the written width, height and maximum
    value, and `read_image` stores exactly the buffer that was written. */
module RoundTrip {
  import opened PgmTypes
  import opened Raster
  import opened Scanner
  import opened Reader
  import opened Writer

  /** The byte a character of the output is stored as. */
  function Code(c: char): byte
  {
    (c as int) % 256
  }

  /** The bytes of a written text, in order. */
  function Encode(s: string): (d: seq<byte>)
    ensures |d| == |s| && forall i :: 0 <= i < |s| ==> d[i] == Code(s[i])
  {
    seq(|s|, i requires 0 <= i < |s| => Code(s[i]))
  }

  /** The text `s` is stored in `data` from offset `a` on: its first
      character at `a`, the rest from `a + 1` on. */
  predicate At(data: seq<byte>, a: nat, s: string)
    decreases |s|
  {
    if s == [] then a <= |data| else a < |data| && data[a] == Code(s[0]) && At(data, a + 1, s[1..])
  }

  /** A stored text fits in the data. */
  lemma {:induction false} AtBound(data: seq<byte>, a: nat, s: string)
    requires At(data, a, s)
    ensures a + |s| <= |data|
    decreases |s|
  {
    if s != [] {
      AtBound(data, a + 1, s[1..]);
    }
  }

  /** One character of a stored text. */
  lemma {:induction false} AtChar(data: seq<byte>, a: nat, s: string, i: nat)
    requires At(data, a, s) && i < |s|
    ensures a + i < |data| && data[a + i] == Code(s[i])
    decreases i
  {
    if i > 0 {
      AtChar(data, a + 1, s[1..], i - 1);
    }
  }

  /** A stored concatenation is its two parts stored one after the other. */
  lemma {:induction false} Split(data: seq<byte>, a: nat, x: string, y: string)
    requires At(data, a, x + y)
    ensures At(data, a, x) && At(data, a + |x|, y)
    decreases |x|
  {
    if x == [] {
      assert x + y == y;
      AtBound(data, a, y);
    } else {
      assert (x + y)[0] == x[0] && (x + y)[1..] == x[1..] + y;
      Split(data, a + 1, x[1..], y);
    }
  }

  /** Two adjacent stored texts are their concatenation stored. */
  lemma {:induction false} Join(data: seq<byte>, a: nat, x: string, y: string)
    requires At(data, a, x) && At(data, a + |x|, y)
    ensures At(data, a, x + y)
    decreases |x|
  {
    if x == [] {
      assert x + y == y;
    } else {
      assert (x + y)[0] == x[0] && (x + y)[1..] == x[1..] + y;
      Join(data, a + 1, x[1..], y);
    }
  }

  /** The bytes of a text hold every suffix of that text at its offset. */
  lemma {:induction false} EncodeAt(t: string, k: nat)
    requires k <= |t|
    ensures At(Encode(t), k, t[k..])
    decreases |t| - k
  {
    if k < |t| {
      EncodeAt(t, k + 1);
      assert t[k..][0] == t[k] && t[k..][1..] == t[k + 1..];
    }
  }

  /** The digits `%d` prints for `v`, read back as a digit run, give `v`. */
  lemma {:induction false} DecAt(data: seq<byte>, s: nat, v: nat)
    requires At(data, s, Dec(v))
    ensures s + |Dec(v)| <= |data|
    ensures AllDigits(data[s..s + |Dec(v)|])
    ensures DecValue(data[s..s + |Dec(v)|]) == v
    decreases v
  {
    if v < 10 {
      OneDigitAt(data, s, v, s + |Dec(v)|);
    } else {
      var u := v / 10;
      DecPrefixAt(data, s, v, u);
      DecAt(data, s, u);
      MoreDigitsAt(data, s, v, u, s + |Dec(u)|, s + |Dec(v)|);
    }
  }

  /** `DecAt` for a single digit. */
  lemma {:induction false} OneDigitAt(data: seq<byte>, s: nat, v: nat, e: nat)
    requires v < 10 && At(data, s, Dec(v)) && e == s + |Dec(v)|
    ensures e <= |data| && AllDigits(data[s..e]) && DecValue(data[s..e]) == v
  {
    DigitsAt(data, s, Dec(v));
    assert Dec(v) == [] + [DigitChar(v)];
    SnocAt(data, s, [], DigitChar(v), e);
    assert data[s..e - 1] == [];
  }

  /** The digits of `u = v / 10` begin the stored digits of `v`. */
  lemma {:induction false} DecPrefixAt(data: seq<byte>, s: nat, v: nat, u: nat)
    requires 10 <= v && u == v / 10 && At(data, s, Dec(v))
    ensures At(data, s, Dec(u))
  {
    assert Dec(v) == Dec(u) + [DigitChar(v % 10)];
    Split(data, s, Dec(u), [DigitChar(v % 10)]);
  }

  /** `DecAt` for `v` from `DecAt` for `u = v / 10`: the digits of `u`
      end at `e1`, the last digit of `v` follows. */
  lemma {:induction false} MoreDigitsAt(data: seq<byte>, s: nat, v: nat, u: nat, e1: nat, e: nat)
    requires 10 <= v && u == v / 10 && At(data, s, Dec(v)) && e1 == s + |Dec(u)| && e == s + |Dec(v)|
    requires e1 <= |data| && AllDigits(data[s..e1]) && DecValue(data[s..e1]) == u
    ensures e <= |data| && AllDigits(data[s..e]) && DecValue(data[s..e]) == v
  {
    DigitsAt(data, s, Dec(v));
    var c := DigitChar(v % 10);
    assert Dec(v) == Dec(u) + [c];
    SnocAt(data, s, Dec(u), c, e);
    assert data[s..e - 1] == data[s..e1];
  }

  /** A stored run of decimal digits is a digit run of the data. */
  lemma {:induction false} DigitsAt(data: seq<byte>, s: nat, d: string)
    requires At(data, s, d)
    requires forall i :: 0 <= i < |d| ==> '0' <= d[i] <= '9'
    ensures s + |d| <= |data| && AllDigits(data[s..s + |d|])
  {
    AtBound(data, s, d);
    var run := data[s..s + |d|];
    forall i | 0 <= i < |run|
      ensures IsDigit(run[i])
    {
      AtChar(data, s, d, i);
    }
  }

  /** Reading one more stored digit `c` multiplies the value by ten and adds
      the digit. */
  lemma {:induction false} SnocAt(data: seq<byte>, s: nat, pre: string, c: char, e: nat)
    requires At(data, s, pre + [c]) && '0' <= c <= '9' && e == s + |pre| + 1 && e <= |data|
    requires AllDigits(data[s..e])
    ensures AllDigits(data[s..e - 1])
    ensures DecValue(data[s..e]) == 10 * DecValue(data[s..e - 1]) + (c as int - '0' as int)
  {
    var run := data[s..e];
    AtChar(data, s, pre + [c], |pre|);
    assert run[..|pre|] == data[s..e - 1];
  }

  // The body: where each stored field starts, and what `%d` reads there.
  //
  // Several lemmas below take an index and its successor as two parameters
  // tied by a `requires` (`x1 == x + 1`, `c1 == c + 1`, `j == y + 1`). The
  // caller passes the very terms the callee's contract is stated in, so the
  // solver matches them directly instead of rewriting arithmetic inside
  // sequence and text terms; this keeps each proof small.

  /** A stored field `"%3d "` of `v`: padding, the digits of `v`, and the
      space that ends them. */
  lemma {:induction false} FieldAt(data: seq<byte>, a: nat, v: byte)
    requires At(data, a, Field(v))
    ensures 1 <= |Dec(v)| <= 3 && a + 4 <= |data|
    ensures forall i :: a <= i < a + 3 - |Dec(v)| ==> IsSpace(data[i])
    ensures AllDigits(data[a + 3 - |Dec(v)|..a + 3])
    ensures DecValue(data[a + 3 - |Dec(v)|..a + 3]) == v
    ensures data[a + 3] == ' ' as int
  {
    DecLength(v);
    FieldPieces(data, a, v, a + 3 - |Dec(v)|, a + 3);
    SpacesAt(data, a, 3 - |Dec(v)|, a + 3 - |Dec(v)|);
    DigitsEndAt(data, a + 3 - |Dec(v)|, v, a + 3);
    BlankAt(data, a + 3);
  }

  /** The padding, the digits and the closing space of a stored field;
      the digits start at `b` and the space is at `e`. */
  lemma {:induction false} FieldPieces(data: seq<byte>, a: nat, v: byte, b: nat, e: nat)
    requires At(data, a, Field(v)) && |Dec(v)| <= 3 && b == a + 3 - |Dec(v)| && e == a + 3
    ensures At(data, a, Spaces(3 - |Dec(v)|)) && At(data, b, Dec(v)) && At(data, e, " ")
  {
    Pieces(data, a, Spaces(3 - |Dec(v)|), Dec(v), " ", b, e);
  }

  /** Stored padding is white space. */
  lemma {:induction false} SpacesAt(data: seq<byte>, a: nat, n: nat, b: nat)
    requires At(data, a, Spaces(n)) && b == a + n
    ensures b <= |data| && forall i :: a <= i < b ==> IsSpace(data[i])
  {
    AtBound(data, a, Spaces(n));
    forall i | a <= i < b
      ensures IsSpace(data[i])
    {
      AtChar(data, a, Spaces(n), i - a);
    }
  }

  /** `DecAt` with the end of the digits named `e`. */
  lemma {:induction false} DigitsEndAt(data: seq<byte>, s: nat, v: nat, e: nat)
    requires At(data, s, Dec(v)) && e == s + |Dec(v)|
    ensures e <= |data| && AllDigits(data[s..e]) && DecValue(data[s..e]) == v
  {
    DecAt(data, s, v);
  }

  /** A stored single space. */
  lemma {:induction false} BlankAt(data: seq<byte>, e: nat)
    requires At(data, e, " ")
    ensures e < |data| && data[e] == ' ' as int
  {
    AtChar(data, e, " ", 0);
  }

  /** `fscanf("%d")` from white space before a stored field reads the
      field's value and stops on the space after its digits. */
  lemma {:induction false} ReadField(data: seq<byte>, p: nat, a: nat, v: byte, q: nat)
    requires At(data, a, Field(v)) && p <= a <= |data| && q == a + 3
    requires forall i :: p <= i < a ==> IsSpace(data[i])
    ensures ReadSample(data, p) == Number(v, q)
  {
    FieldAt(data, a, v);
    ReadSampleOver(data, p, a + 3 - |Dec(v)|, q);
  }

  /** Stored newlines are white space. */
  lemma {:induction false} NewlinesAt(data: seq<byte>, a: nat, s: string)
    requires At(data, a, s) && forall x :: 0 <= x < |s| ==> s[x] == '\n'
    ensures a + |s| <= |data|
    ensures forall x :: a <= x < a + |s| ==> IsSpace(data[x])
  {
    AtBound(data, a, s);
    forall x | a <= x < a + |s|
      ensures IsSpace(data[x])
    {
      AtChar(data, a, s, x - a);
    }
  }

  /** The three pieces of a stored `x + y + z`. */
  lemma {:induction false} Pieces(data: seq<byte>, a: nat, x: string, y: string, z: string, b: nat, c: nat)
    requires At(data, a, x + y + z) && b == a + |x| && c == b + |y|
    ensures At(data, a, x) && At(data, b, y) && At(data, c, z)
  {
    Split(data, a, x + y, z);
    Split(data, a, x, y);
  }

  /** Offset of the field for (row `y`, column `x`) when the body is stored
      from offset `h` on: the rows before it, then the fields before it in
      its row. */
  function FieldStart(img: seq<byte>, M: nat, N: nat, h: nat, y: nat, x: nat): nat
    requires |img| == M * N && y < N && x <= M
  {
    h + |BodyText(img, M, N, y)| + |RowText(img, M, N, y, x)|
  }

  /** The first `j` rows of a stored body are stored too, for any `i`
      rows up to `j`. */
  lemma {:induction false} BodyPrefix(img: seq<byte>, M: nat, N: nat, data: seq<byte>, h: nat, j: nat, i: nat)
    requires |img| == M * N && i <= j <= N
    requires At(data, h, BodyText(img, M, N, j))
    ensures At(data, h, BodyText(img, M, N, i))
    decreases j
  {
    if i < j {
      var k := j - 1;
      BodyStep(img, M, N, k, j);
      Split(data, h, BodyText(img, M, N, k), RowText(img, M, N, k, M) + RowEnd(M));
      BodyPrefix(img, M, N, data, h, k, i);
    }
  }

  /** The first `j = y + 1` rows: the first `y` rows, then the fields and
      the closing newline of row `y`. */
  lemma {:induction false} BodyStep(img: seq<byte>, M: nat, N: nat, y: nat, j: nat)
    requires |img| == M * N && y < N && j == y + 1
    ensures BodyText(img, M, N, j) == BodyText(img, M, N, y) + (RowText(img, M, N, y, M) + RowEnd(M))
  {
  }

  /** The fields of row `y` of a stored body, from `FieldStart(y, 0)` on. */
  lemma {:induction false} RowStored(img: seq<byte>, M: nat, N: nat, data: seq<byte>, h: nat, y: nat)
    requires |img| == M * N && y < N
    requires At(data, h, BodyText(img, M, N, N))
    ensures At(data, FieldStart(img, M, N, h, y, 0), RowText(img, M, N, y, M))
  {
    LineParts(img, M, N, data, h, y, y + 1);
    assert RowText(img, M, N, y, 0) == [];
  }

  /** The newline closing row `y` of a stored body, and row `j = y + 1`
      starting right after it. */
  lemma {:induction false} RowEndStored(img: seq<byte>, M: nat, N: nat, data: seq<byte>, h: nat, y: nat, j: nat)
    requires |img| == M * N && y < N && j == y + 1
    requires At(data, h, BodyText(img, M, N, N))
    ensures At(data, FieldStart(img, M, N, h, y, M), RowEnd(M))
    ensures h + |BodyText(img, M, N, j)| == FieldStart(img, M, N, h, y, M) + |RowEnd(M)|
  {
    LineParts(img, M, N, data, h, y, j);
  }

  /** Row `y` of a stored body: its fields, then its closing newline, and
      the length of the first `j = y + 1` rows. */
  lemma {:induction false} LineParts(img: seq<byte>, M: nat, N: nat, data: seq<byte>, h: nat, y: nat, j: nat)
    requires |img| == M * N && y < N && j == y + 1
    requires At(data, h, BodyText(img, M, N, N))
    ensures At(data, h + |BodyText(img, M, N, y)|, RowText(img, M, N, y, M))
    ensures At(data, h + |BodyText(img, M, N, y)| + |RowText(img, M, N, y, M)|, RowEnd(M))
    ensures |BodyText(img, M, N, j)| == |BodyText(img, M, N, y)| + |RowText(img, M, N, y, M)| + |RowEnd(M)|
  {
    BodyPrefix(img, M, N, data, h, N, j);
    BodyStep(img, M, N, y, j);
    Split3(data, h, BodyText(img, M, N, y), RowText(img, M, N, y, M), RowEnd(M),
      h + |BodyText(img, M, N, y)|, h + |BodyText(img, M, N, y)| + |RowText(img, M, N, y, M)|);
  }

  /** The last two pieces of a stored `x + (y + z)`. */
  lemma {:induction false} Split3(data: seq<byte>, a: nat, x: string, y: string, z: string, b: nat, c: nat)
    requires At(data, a, x + (y + z)) && b == a + |x| && c == b + |y|
    ensures At(data, b, y) && At(data, c, z)
  {
    Split(data, a, x, y + z);
    Split(data, b, y, z);
  }

  /** The first `x1` fields of a stored row are stored too, for any `x1`
      up to `i`. */
  lemma {:induction false} RowPrefix(img: seq<byte>, M: nat, N: nat, data: seq<byte>, a: nat, y: nat, i: nat, x1: nat)
    requires |img| == M * N && y < N && x1 <= i <= M
    requires At(data, a, RowText(img, M, N, y, i))
    ensures At(data, a, RowText(img, M, N, y, x1))
    decreases i
  {
    if x1 < i {
      var k := i - 1;
      RowStep(img, M, N, y, k, i);
      Pieces(data, a, RowText(img, M, N, y, k), Field(Sample(img, M, N, y, k)), Brk(k),
        a + |RowText(img, M, N, y, k)|, a + |RowText(img, M, N, y, k)| + 4);
      RowPrefix(img, M, N, data, a, y, k, x1);
    }
  }

  /** The first `x1 = x + 1` fields of row `y`: the first `x`, then the
      field in column `x` and the line break after it. */
  lemma {:induction false} RowStep(img: seq<byte>, M: nat, N: nat, y: nat, x: nat, x1: nat)
    requires |img| == M * N && y < N && x < M && x1 == x + 1
    ensures RowText(img, M, N, y, x1) == RowText(img, M, N, y, x) + Field(Sample(img, M, N, y, x)) + Brk(x)
  {
  }

  /** The field for (`y`, `x`) and the line break after it, as stored;
      `x1 = x + 1` counts the fields up to and including it. */
  lemma {:induction false} FieldParts(img: seq<byte>, M: nat, N: nat, data: seq<byte>, h: nat, y: nat, x: nat, x1: nat)
    requires |img| == M * N && y < N && x < M && x1 == x + 1
    requires At(data, h, BodyText(img, M, N, N))
    ensures 0 <= M * y + x < |img|
    ensures At(data, FieldStart(img, M, N, h, y, x), Field(img[M * y + x]))
    ensures At(data, FieldStart(img, M, N, h, y, x) + 4, Brk(x))
  {
    SampleAt(img, M, N, y, x);
    RowStored(img, M, N, data, h, y);
    FieldInRow(img, M, N, data, FieldStart(img, M, N, h, y, 0), y, x, x1, FieldStart(img, M, N, h, y, x), img[M * y + x]);
  }

  /** Within a stored row starting at `a`, the field for column `x`, holding
      `v`, starts at `f`, after the fields of the columns before it. */
  lemma {:induction false} FieldInRow(img: seq<byte>, M: nat, N: nat, data: seq<byte>, a: nat, y: nat, x: nat, x1: nat, f: nat, v: byte)
    requires |img| == M * N && y < N && x < M && x1 == x + 1 && v == Sample(img, M, N, y, x)
    requires At(data, a, RowText(img, M, N, y, M)) && f == a + |RowText(img, M, N, y, x)|
    ensures At(data, f, Field(v)) && At(data, f + 4, Brk(x))
  {
    RowPrefix(img, M, N, data, a, y, M, x1);
    RowStep(img, M, N, y, x, x1);
    Pieces(data, a, RowText(img, M, N, y, x), Field(Sample(img, M, N, y, x)), Brk(x), f, f + 4);
  }

  /** A sample is the buffer entry at its flat index. */
  lemma {:induction false} SampleAt(img: seq<byte>, M: nat, N: nat, y: nat, x: nat)
    requires |img| == M * N && y < N && x < M
    ensures 0 <= M * y + x < |img| && Sample(img, M, N, y, x) == img[M * y + x]
  {
    FlatIndexInRange(M, N, y, x);
  }

  /** The field for (`y`, `x`), flat index `c`, of a stored body. */
  lemma {:induction false} FieldStored(img: seq<byte>, M: nat, N: nat, data: seq<byte>, h: nat, y: nat, x: nat, c: nat)
    requires |img| == M * N && y < N && x < M && c == M * y + x
    requires At(data, h, BodyText(img, M, N, N))
    ensures c < |img|
    ensures At(data, FieldStart(img, M, N, h, y, x), Field(img[c]))
  {
    var x1 := x + 1;
    FieldParts(img, M, N, data, h, y, x, x1);
  }

  /** The line break after the field for (`y`, `x`), and the field in
      column `x1 = x + 1` starting right after it. */
  lemma {:induction false} BrkStored(img: seq<byte>, M: nat, N: nat, data: seq<byte>, h: nat, y: nat, x: nat, x1: nat)
    requires |img| == M * N && y < N && x < M && x1 == x + 1
    requires At(data, h, BodyText(img, M, N, N))
    ensures At(data, FieldStart(img, M, N, h, y, x) + 4, Brk(x))
    ensures FieldStart(img, M, N, h, y, x1) == FieldStart(img, M, N, h, y, x) + 4 + |Brk(x)|
  {
    FieldParts(img, M, N, data, h, y, x, x1);
    RowStep(img, M, N, y, x, x1);
  }

  /** A stored field of `v` at `a`, up to two line breaks `s1` and `s2`,
      then a stored field of `w` at `b`. */
  predicate FieldGap(data: seq<byte>, a: nat, v: byte, s1: string, s2: string, b: nat, w: byte)
  {
    At(data, a, Field(v)) && At(data, a + 4, s1) && At(data, a + 4 + |s1|, s2) &&
    (s1 == "" || s1 == "\n") && (s2 == "" || s2 == "\n") &&
    b == a + 4 + |s1| + |s2| && At(data, b, Field(w))
  }

  /** `%d` from `p`, the space that ends the digits of `v`, across a gap
      reads `w` and stops at `q`, the space that ends its digits. */
  lemma {:induction false} ReadAfterGap(data: seq<byte>, a: nat, v: byte, s1: string, s2: string, b: nat, w: byte, p: nat, q: nat)
    requires FieldGap(data, a, v, s1, s2, b, w)
    requires p == a + 3 && q == b + 3
    ensures p < |data|
    ensures ReadSample(data, p) == Number(w, q)
  {
    FieldAt(data, a, v);
    NewlinesAt(data, a + 4, s1);
    NewlinesAt(data, a + 4 + |s1|, s2);
    ReadField(data, p, b, w, q);
  }

  /** The field in column `l` of row `y`, flat index `k`, and the one in
      column `x = l + 1`, flat index `c = k + 1`, with the line break
      between them. */
  lemma {:induction false} InRow(img: seq<byte>, M: nat, N: nat, data: seq<byte>, h: nat, y: nat, l: nat, x: nat, k: nat, c: nat)
    requires |img| == M * N && y < N && x < M && x == l + 1 && k == M * y + l && c == k + 1
    requires At(data, h, BodyText(img, M, N, N))
    ensures c < |img|
    ensures FieldGap(data, FieldStart(img, M, N, h, y, l), img[k], Brk(l), "", FieldStart(img, M, N, h, y, x), img[c])
  {
    FieldStored(img, M, N, data, h, y, x, c);
    FieldStored(img, M, N, data, h, y, l, k);
    BrkStored(img, M, N, data, h, y, l, x);
    Gaps(l, M);
  }

  /** `%d` from `p`, the end of the digits in column `l`, flat index `k`,
      reads the sample in column `x = l + 1` of the same row, flat index
      `c = k + 1`, and stops at `q`, the end of its digits. */
  lemma {:induction false} ReadInRow(img: seq<byte>, M: nat, N: nat, data: seq<byte>, h: nat, y: nat, l: nat, x: nat, k: nat, c: nat, p: nat, q: nat)
    requires |img| == M * N && y < N && x < M && x == l + 1 && k == M * y + l && c == k + 1
    requires At(data, h, BodyText(img, M, N, N))
    requires p == FieldStart(img, M, N, h, y, l) + 3 && q == FieldStart(img, M, N, h, y, x) + 3
    ensures c < |img| && p <= |data|
    ensures ReadSample(data, p) == Number(img[c], q)
  {
    InRow(img, M, N, data, h, y, l, x, k, c);
    ReadAfterGap(data, FieldStart(img, M, N, h, y, l), img[k], Brk(l), "", FieldStart(img, M, N, h, y, x), img[c], p, q);
  }

  /** Where row `r` ends and row `y = r + 1` begins in a stored body: the
      field in its last column `l`, flat index `k`, the line breaks after
      it, and the field in column `z = 0` of row `y`, flat index `c`. */
  lemma {:induction false} AcrossRows(img: seq<byte>, M: nat, N: nat, data: seq<byte>, h: nat, r: nat, y: nat, l: nat, z: nat, k: nat, c: nat)
    requires |img| == M * N && y < N && y == r + 1 && M == l + 1 && z == 0 && k == M * r + l && c == M * y + z && c == k + 1
    requires At(data, h, BodyText(img, M, N, N))
    ensures c < |img|
    ensures FieldGap(data, FieldStart(img, M, N, h, r, l), img[k], Brk(l), RowEnd(M), FieldStart(img, M, N, h, y, z), img[c])
  {
    FieldStored(img, M, N, data, h, y, z, c);
    FieldStored(img, M, N, data, h, r, l, k);
    BrkStored(img, M, N, data, h, r, l, M);
    RowEndStored(img, M, N, data, h, r, y);
    assert RowText(img, M, N, y, z) == [];
    Gaps(l, M);
  }

  /** `%d` from `p`, the end of the digits of the last sample of row `r`,
      in column `l = M - 1` with flat index `k`, reads the sample in column
      `z = 0` of row `y = r + 1`, flat index `c = k + 1`, and stops at `q`,
      the end of its digits. */
  lemma {:induction false} ReadAcrossRows(img: seq<byte>, M: nat, N: nat, data: seq<byte>, h: nat, r: nat, y: nat, l: nat, z: nat, k: nat, c: nat, p: nat, q: nat)
    requires |img| == M * N && y < N && y == r + 1 && M == l + 1 && z == 0 && k == M * r + l && c == M * y + z && c == k + 1
    requires At(data, h, BodyText(img, M, N, N))
    requires p == FieldStart(img, M, N, h, r, l) + 3 && q == FieldStart(img, M, N, h, y, z) + 3
    ensures c < |img| && p <= |data|
    ensures ReadSample(data, p) == Number(img[c], q)
  {
    AcrossRows(img, M, N, data, h, r, y, l, z, k, c);
    ReadAfterGap(data, FieldStart(img, M, N, h, r, l), img[k], Brk(l), RowEnd(M), FieldStart(img, M, N, h, y, z), img[c], p, q);
  }

  /** The line breaks after a field and at the end of a row are each
      empty or a single newline. */
  lemma Gaps(i: nat, M: nat)
    ensures Brk(i) == "" || Brk(i) == "\n"
    ensures RowEnd(M) == "" || RowEnd(M) == "\n"
  {
  }

  /** `%d` from the start of a stored body reads its first sample. */
  lemma {:induction false} ReadFirst(img: seq<byte>, M: nat, N: nat, data: seq<byte>, h: nat, p: nat, q: nat)
    requires |img| == M * N && 0 < N && 0 < M
    requires At(data, h, BodyText(img, M, N, N))
    requires p == h && q == FieldStart(img, M, N, h, 0, 0) + 3
    ensures 0 < |img| && p <= |data|
    ensures ReadSample(data, p) == Number(img[0], q)
  {
    FieldStored(img, M, N, data, h, 0, 0, 0);
    assert BodyText(img, M, N, 0) == [] && RowText(img, M, N, 0, 0) == [];
    ReadField(data, p, h, img[0], q);
  }

  /** Row of flat index `c` in an image `M` samples wide. */
  function RowOf(M: nat, c: nat): nat
    requires 0 < M
    decreases c
  {
    if c < M then 0 else 1 + RowOf(M, c - M)
  }

  /** Column of flat index `c` in an image `M` samples wide. */
  function ColOf(M: nat, c: nat): nat
    requires 0 < M
    decreases c
  {
    if c < M then c else ColOf(M, c - M)
  }

  /** Row and column recompose the flat index. */
  lemma {:induction false} RowCol(M: nat, c: nat)
    requires 0 < M
    ensures ColOf(M, c) < M && c == M * RowOf(M, c) + ColOf(M, c)
    decreases c
  {
    if c >= M {
      RowCol(M, c - M);
      RowStart(M, RowOf(M, c - M), RowOf(M, c));
    }
  }

  /** The row and column of `M * y + x` are `y` and `x`. */
  lemma {:induction false} RowColOf(M: nat, c: nat, y: nat, x: nat)
    requires x < M && c == M * y + x
    ensures 0 < M && RowOf(M, c) == y && ColOf(M, c) == x
    decreases y
  {
    if y > 0 {
      RowStart(M, y - 1, y);
      RowColOf(M, c - M, y - 1, x);
    }
  }

  /** A flat index of an `M` by `N` image lies in one of its rows. */
  lemma {:induction false} RowBound(M: nat, N: nat, c: nat)
    requires c < M * N
    ensures 0 < M && RowOf(M, c) < N
  {
    RowCol(M, c);
    var r := RowOf(M, c);
    if r >= N {
      MulAtLeast(M, r - N + 1);
      assert false;
    }
  }

  /** Where `%d` stops after reading the field with flat index `c`: on the
      space that ends its digits. */
  function FieldEnd(img: seq<byte>, M: nat, N: nat, h: nat, c: nat): nat
    requires |img| == M * N && c < |img|
  {
    var y, x := RowOf(M, c), ColOf(M, c);
    if y < N && x <= M then FieldStart(img, M, N, h, y, x) + 3 else 0
  }

  /** Where the P2 loop starts its read of the sample with flat index `c`. */
  function Stop(img: seq<byte>, M: nat, N: nat, h: nat, c: nat): nat
    requires |img| == M * N && c <= |img|
  {
    if c == 0 then h else FieldEnd(img, M, N, h, c - 1)
  }

  /** The stop after the sample with flat index `c`, at row `y` and
      column `x`, is the end of its digits. */
  lemma {:induction false} StopIs(img: seq<byte>, M: nat, N: nat, h: nat, c: nat, c1: nat, y: nat, x: nat)
    requires |img| == M * N && c < |img| && y < N && x < M && c == M * y + x && c1 == c + 1
    ensures Stop(img, M, N, h, c1) == FieldStart(img, M, N, h, y, x) + 3
  {
    RowColOf(M, c, y, x);
  }

  /** The stop after the sample with flat index `c`, at row `y` and
      column `x`: `StopIs` stated for `c + 1`. */
  lemma {:induction false} StopNext(img: seq<byte>, M: nat, N: nat, h: nat, c: nat, y: nat, x: nat)
    requires |img| == M * N && c < |img| && y < N && x < M && c == M * y + x
    ensures Stop(img, M, N, h, c + 1) == FieldStart(img, M, N, h, y, x) + 3
  {
    StopIs(img, M, N, h, c, c + 1, y, x);
  }

  /** `ReadStored` for the first sample, `c = 0`. */
  lemma {:induction false} StoredFirst(img: seq<byte>, M: nat, N: nat, data: seq<byte>, h: nat, c: nat, y: nat, x: nat)
    requires |img| == M * N && c < |img| && c == 0 && y == 0 && x == 0
    requires At(data, h, BodyText(img, M, N, N))
    ensures Stop(img, M, N, h, c) <= |data|
    ensures ReadSample(data, Stop(img, M, N, h, c)) == Number(img[c], Stop(img, M, N, h, c + 1))
  {
    RowBound(M, N, c);
    StopNext(img, M, N, h, c, y, x);
    ReadFirst(img, M, N, data, h, Stop(img, M, N, h, c), Stop(img, M, N, h, c + 1));
  }

  /** `ReadStored` for a sample after the first column. */
  lemma {:induction false} StoredInRow(img: seq<byte>, M: nat, N: nat, data: seq<byte>, h: nat, y: nat, l: nat, x: nat, k: nat, c: nat)
    requires |img| == M * N && c < |img| && y < N && x < M && x == l + 1 && c == M * y + x && k + 1 == c
    requires At(data, h, BodyText(img, M, N, N))
    ensures Stop(img, M, N, h, c) <= |data|
    ensures ReadSample(data, Stop(img, M, N, h, c)) == Number(img[c], Stop(img, M, N, h, c + 1))
  {
    StopIs(img, M, N, h, k, c, y, l);
    StopNext(img, M, N, h, c, y, x);
    ReadInRow(img, M, N, data, h, y, l, x, k, c, Stop(img, M, N, h, c), Stop(img, M, N, h, c + 1));
  }

  /** `ReadStored` for the first sample of a row after the first. */
  lemma {:induction false} StoredAcross(img: seq<byte>, M: nat, N: nat, data: seq<byte>, h: nat, r: nat, y: nat, l: nat, z: nat, k: nat, c: nat)
    requires |img| == M * N && c < |img| && y < N && y == r + 1 && M == l + 1 && z == 0 && c == M * y + z && k + 1 == c
    requires At(data, h, BodyText(img, M, N, N))
    ensures Stop(img, M, N, h, c) <= |data|
    ensures ReadSample(data, Stop(img, M, N, h, c)) == Number(img[c], Stop(img, M, N, h, c + 1))
  {
    RowStart(M, r, y);
    StopIs(img, M, N, h, k, c, r, l);
    StopNext(img, M, N, h, c, y, z);
    ReadAcrossRows(img, M, N, data, h, r, y, l, z, k, c, Stop(img, M, N, h, c), Stop(img, M, N, h, c + 1));
  }

  /** `fscanf("%d")` from the stop before the sample with flat index `c`
      reads that sample and stops at the next stop. */
  lemma {:induction false} ReadStored(img: seq<byte>, M: nat, N: nat, data: seq<byte>, h: nat, c: nat)
    requires |img| == M * N && c < |img|
    requires At(data, h, BodyText(img, M, N, N))
    ensures Stop(img, M, N, h, c) <= |data|
    ensures ReadSample(data, Stop(img, M, N, h, c)) == Number(img[c], Stop(img, M, N, h, c + 1))
  {
    RowBound(M, N, c);
    RowCol(M, c);
    var y, x := RowOf(M, c), ColOf(M, c);
    if c == 0 {
      StoredFirst(img, M, N, data, h, c, y, x);
    } else if x > 0 {
      StoredInRow(img, M, N, data, h, y, x - 1, x, c - 1, c);
    } else {
      StoredAcross(img, M, N, data, h, y - 1, y, M - 1, x, c - 1, c);
    }
  }

  /** Row `j = r + 1` starts `M` entries after row `r`. */
  lemma {:induction false} RowStart(M: nat, r: nat, j: nat)
    requires j == r + 1
    ensures 0 <= M * r && M * r + M == M * j
  {
  }

  // The P2 loop over a chain of reads.

  /** Reading `%d` from stop `qs[c]` converts `vals[c]` and stops at
      `qs[c + 1]`, for every sample. */
  predicate Chain(data: seq<byte>, qs: seq<nat>, vals: seq<byte>)
  {
    |qs| == |vals| + 1 && (forall c :: 0 <= c < |qs| ==> qs[c] <= |data|) &&
    forall c :: 0 <= c < |vals| ==> ReadSample(data, qs[c]) == Number(vals[c], qs[c + 1])
  }

  /** A chain after its first read is a chain again. */
  lemma {:induction false} ChainTail(data: seq<byte>, qs: seq<nat>, vals: seq<byte>)
    requires Chain(data, qs, vals) && vals != []
    ensures qs[0] <= |data| && ReadSample(data, qs[0]) == Number(vals[0], qs[1])
    ensures Chain(data, qs[1..], vals[1..])
  {
    var qs', vals' := qs[1..], vals[1..];
    forall c | 0 <= c < |vals'|
      ensures ReadSample(data, qs'[c]) == Number(vals'[c], qs'[c + 1])
    {
      assert qs'[c] == qs[c + 1] && qs'[c + 1] == qs[c + 2] && vals'[c] == vals[c + 1];
    }
  }

  /** One P2 iteration that reads the sample `v` and stops at `q`. */
  lemma {:induction false} ScanStep(data: seq<byte>, p: nat, q: nat, v: byte, n: nat, t: int)
    requires p <= |data| && 0 < n && ReadSample(data, p) == Number(v, q)
    requires P2Scan(data, q, n - 1, v).Ok?
    ensures P2Scan(data, p, n, t).Ok?
    ensures P2Scan(data, p, n, t).value.samples == [v] + P2Scan(data, q, n - 1, v).value.samples
  {
    assert v % 256 == v;
    assert P2Scan(data, p, n, t) == Prepend(v % 256, P2Scan(data, q, n - 1, v));
  }

  /** The P2 loop run from the first stop of a chain stores the chain's
      values, whatever the initial `temp`. */
  lemma {:induction false} ChainScan(data: seq<byte>, qs: seq<nat>, vals: seq<byte>, t: int)
    requires Chain(data, qs, vals)
    ensures P2Scan(data, qs[0], |vals|, t).Ok?
    ensures P2Scan(data, qs[0], |vals|, t).value.samples == vals
    decreases |vals|
  {
    if vals != [] {
      var qs', vals' := qs[1..], vals[1..];
      ChainTail(data, qs, vals);
      ChainScan(data, qs', vals', vals[0]);
      assert qs'[0] == qs[1];
      ScanStep(data, qs[0], qs[1], vals[0], |vals|, t);
      assert vals == [vals[0]] + vals';
    }
  }

  /** Every sample of a stored body is read from its stop, and the loop
      then stands at the next stop. */
  lemma {:induction false} BodyReads(img: seq<byte>, M: nat, N: nat, data: seq<byte>, h: nat)
    requires |img| == M * N
    requires At(data, h, BodyText(img, M, N, N))
    ensures forall c :: 0 <= c < |img| ==>
      Stop(img, M, N, h, c) <= |data| && ReadSample(data, Stop(img, M, N, h, c)) == Number(img[c], Stop(img, M, N, h, c + 1))
  {
    forall c | 0 <= c < |img|
      ensures Stop(img, M, N, h, c) <= |data| &&
        ReadSample(data, Stop(img, M, N, h, c)) == Number(img[c], Stop(img, M, N, h, c + 1))
    {
      ReadStored(img, M, N, data, h, c);
    }
  }

  /** Every stop of a stored body lies inside the data. */
  lemma {:induction false} StopsInside(img: seq<byte>, M: nat, N: nat, data: seq<byte>, h: nat)
    requires |img| == M * N && h <= |data|
    requires At(data, h, BodyText(img, M, N, N))
    ensures forall c :: 0 <= c <= |img| ==> Stop(img, M, N, h, c) <= |data|
  {
    BodyReads(img, M, N, data, h);
    if |img| > 0 {
      var k := |img| - 1;
      ReadStored(img, M, N, data, h, k);
      assert k + 1 == |img|;
    }
  }

  /** The stops of a stored body form a chain whose values are the
      samples. */
  lemma {:induction false} BodyChain(img: seq<byte>, M: nat, N: nat, data: seq<byte>, h: nat)
    requires |img| == M * N && h <= |data|
    requires At(data, h, BodyText(img, M, N, N))
    ensures Chain(data, seq(|img| + 1, c requires 0 <= c <= |img| => Stop(img, M, N, h, c)), img)
  {
    BodyReads(img, M, N, data, h);
    StopsInside(img, M, N, data, h);
  }

  // The header.

  /** A magic of two characters that are not white space once stored, so
      `%s` reads them as one token. "P2" and "P5" are such magics. */
  predicate TwoCharMagic(mg: string)
  {
    |mg| == 2 && !IsSpace(Code(mg[0])) && !IsSpace(Code(mg[1]))
  }

  /** The three header lines of `Header` with the magic `mg`. */
  function HeaderWith(mg: string, M: nat, N: nat): string
  {
    mg + "\n" + Dec(M) + " " + Dec(N) + "\n" + Dec(255) + "\n"
  }

  /** `fscanf("%s")` at the start of a stored header reads its magic. */
  lemma {:induction false} HeaderToken(data: seq<byte>, mg: string)
    requires TwoCharMagic(mg) && At(data, 0, mg + "\n")
    ensures ReadToken(data, 0) == Token(Encode(mg), 2)
  {
    AtChar(data, 0, mg + "\n", 0);
    AtChar(data, 0, mg + "\n", 1);
    AtChar(data, 0, mg + "\n", 2);
    assert SkipSpace(data, 0) == 0;
    assert TokenEnd(data, 2) == 2;
    assert TokenEnd(data, 1) == 2;
    assert TokenEnd(data, 0) == 2;
    assert data[0..2] == Encode(mg);
  }

  /** `getint` from just before a stored decimal that is followed by a
      white-space character `sep` reads its value and consumes `sep`. */
  lemma {:induction false} IntAt(data: seq<byte>, pos: nat, v: nat, sep: string, e: nat)
    requires sep == " " || sep == "\n"
    requires pos < |data| && !IsDigit(data[pos]) && data[pos] != '#' as int
    requires At(data, pos + 1, Dec(v) + sep) && e == pos + 2 + |Dec(v)|
    ensures GetIntSpec(data, pos) == Scanned(v, e)
  {
    Split(data, pos + 1, Dec(v), sep);
    DecAt(data, pos + 1, v);
    SepAt(data, pos + 1 + |Dec(v)|, sep);
    GetIntOver(data, pos, pos + 1, pos + 1 + |Dec(v)|);
  }

  /** A stored separator is a white-space character, not a digit. */
  lemma {:induction false} SepAt(data: seq<byte>, a: nat, sep: string)
    requires sep == " " || sep == "\n"
    requires At(data, a, sep)
    ensures a < |data| && IsSpace(data[a]) && !IsDigit(data[a])
  {
    AtChar(data, a, sep, 0);
  }

  /** `getint` directly at a stored decimal followed by white space. */
  lemma {:induction false} IntHere(data: seq<byte>, pos: nat, v: nat, sep: string, e: nat)
    requires sep == " " || sep == "\n"
    requires At(data, pos, Dec(v) + sep) && e == pos + 1 + |Dec(v)|
    ensures GetIntSpec(data, pos) == Scanned(v, e)
  {
    Split(data, pos, Dec(v), sep);
    DecAt(data, pos, v);
    SepAt(data, pos + |Dec(v)|, sep);
    GetIntOver(data, pos, pos, pos + |Dec(v)|);
  }

  /** A stored header line by line: the magic line, the width with the
      space after it, the height with its newline, the maximum value with
      its newline. */
  lemma {:induction false} HeaderPieces(data: seq<byte>, mg: string, x: string, y: string, z: string, p: nat, q: nat)
    requires |mg| == 2 && At(data, 0, mg + "\n" + x + " " + y + "\n" + z + "\n")
    requires p == 4 + |x| && q == p + 1 + |y|
    ensures At(data, 0, mg + "\n") && At(data, 3, x + " ")
    ensures At(data, p, y + "\n") && At(data, q, z + "\n")
  {
    Split(data, 0, mg + "\n" + x + " " + y + "\n" + z, "\n");
    Split(data, 0, mg + "\n" + x + " " + y + "\n", z);
    Split(data, 0, mg + "\n" + x + " " + y, "\n");
    Split(data, 0, mg + "\n" + x + " ", y);
    Split(data, 0, mg + "\n" + x, " ");
    Split(data, 0, mg + "\n", x);
    Join(data, 3, x, " ");
    Join(data, p, y, "\n");
    Join(data, q, z, "\n");
  }

  /** `openfile` on a stored header returns its magic, the width and height
      written, the maximum value 255, and stops right after the header. */
  lemma {:induction false} ReadHeader(data: seq<byte>, mg: string, M: nat, N: nat)
    requires TwoCharMagic(mg) && At(data, 0, HeaderWith(mg, M, N))
    ensures OpenFileSpec(data) == PgmHeader(Encode(mg), M, N, 255, |HeaderWith(mg, M, N)|)
  {
    var x, y, z := Dec(M), Dec(N), Dec(255);
    var p, q, e := 4 + |x|, 5 + |x| + |y|, 6 + |x| + |y| + |z|;
    HeaderPieces(data, mg, x, y, z, p, q);
    HeaderToken(data, mg);
    AtChar(data, 0, mg + "\n", 2);
    IntAt(data, 2, M, " ", p);
    IntHere(data, p, N, "\n", q);
    IntHere(data, q, 255, "\n", e);
  }

  /** The P2 loop run on a stored body reads back its `M * N` samples,
      whatever the initial `temp`. */
  lemma {:induction false} BodyScan(img: seq<byte>, M: nat, N: nat, data: seq<byte>, h: nat, t: int)
    requires |img| == M * N && h <= |data|
    requires At(data, h, BodyText(img, M, N, N))
    ensures P2Scan(data, h, M * N, t).Ok?
    ensures P2Scan(data, h, M * N, t).value.samples == img
  {
    var qs := seq(|img| + 1, c requires 0 <= c <= |img| => Stop(img, M, N, h, c));
    BodyChain(img, M, N, data, h);
    ChainScan(data, qs, img, t);
    assert qs[0] == h;
  }

  /** The magic "P2" is the plain format and not the raw one. */
  lemma {:induction false} MagicP2()
    ensures TwoCharMagic("P2") && IsP2(Encode("P2")) && !IsP5(Encode("P2"))
  {
    assert Encode("P2")[0] == 'P' as int && Encode("P2")[1] == '2' as int;
  }

  /** The magic "P5" is the raw format. */
  lemma {:induction false} MagicP5()
    ensures TwoCharMagic("P5") && IsP5(Encode("P5")) && !IsP2(Encode("P5"))
  {
    assert Encode("P5")[0] == 'P' as int && Encode("P5")[1] == '5' as int;
  }

  /** `openfile` on the header `write_image2` writes. */
  lemma {:induction false} WrittenHeader(data: seq<byte>, M: nat, N: nat)
    requires At(data, 0, Header(M, N))
    ensures OpenFileSpec(data) == PgmHeader(Encode("P2"), M, N, 255, |Header(M, N)|)
  {
    MagicP2();
    assert Header(M, N) == HeaderWith("P2", M, N);
    ReadHeader(data, "P2", M, N);
  }

  /** The file `write_image2` writes for `img` is read back as `img`. */
  lemma {:induction false} ReadWritten(img: seq<byte>, M: nat, N: nat, temp0: int)
    requires |img| == M * N
    ensures OpenFileSpec(Encode(PgmText(img, M, N))) == PgmHeader(Encode("P2"), M, N, 255, |Header(M, N)|)
    ensures ReadPgm(Encode(PgmText(img, M, N)), M, N, temp0) == Ok(img)
  {
    var data := Encode(PgmText(img, M, N));
    var h, body := Header(M, N), BodyText(img, M, N, N);
    EncodeAt(PgmText(img, M, N), 0);
    assert PgmText(img, M, N)[0..] == h + body;
    Split(data, 0, h, body);
    WrittenHeader(data, M, N);
    MagicP2();
    AtBound(data, |h|, body);
    BodyScan(img, M, N, data, |h|, temp0);
  }

  /** The raw (P5) file of `img`: the header with the magic "P5", then the
      samples as bytes, row after row. */
  function RawFile(img: seq<byte>, M: nat, N: nat): seq<byte>
  {
    Encode(HeaderWith("P5", M, N)) + img
  }

  /** A stored text stays stored when more data follows it. */
  lemma {:induction false} AtExtend(data: seq<byte>, more: seq<byte>, a: nat, s: string)
    requires At(data, a, s)
    ensures At(data + more, a, s)
    decreases |s|
  {
    if s != [] {
      AtExtend(data, more, a + 1, s[1..]);
    }
  }

  /** `read_image` on the raw file of `img` takes the P5 branch and stores
      exactly `img`, with the header M, N, 255. */
  lemma {:induction false} ReadRawWritten(img: seq<byte>, M: nat, N: nat, temp0: int)
    requires |img| == M * N
    ensures OpenFileSpec(RawFile(img, M, N)) == PgmHeader(Encode("P5"), M, N, 255, |HeaderWith("P5", M, N)|)
    ensures ReadPgm(RawFile(img, M, N), M, N, temp0) == Ok(img)
  {
    RawFileHeader(img, M, N);
    MagicP5();
    RawFileBody(img, M, N);
  }

  /** `openfile` on the raw file of `img`. */
  lemma {:induction false} RawFileHeader(img: seq<byte>, M: nat, N: nat)
    ensures OpenFileSpec(RawFile(img, M, N)) == PgmHeader(Encode("P5"), M, N, 255, |HeaderWith("P5", M, N)|)
  {
    var hdr := HeaderWith("P5", M, N);
    EncodeAt(hdr, 0);
    assert hdr[0..] == hdr;
    AtExtend(Encode(hdr), img, 0, hdr);
    MagicP5();
    ReadHeader(RawFile(img, M, N), "P5", M, N);
  }

  /** The P5 loop on the raw file of `img` reads back the bytes of `img`. */
  lemma {:induction false} RawFileBody(img: seq<byte>, M: nat, N: nat)
    requires |img| == M * N
    ensures RawSamples(RawFile(img, M, N), |HeaderWith("P5", M, N)|, M * N) == img
  {
    var data, h := RawFile(img, M, N), |HeaderWith("P5", M, N)|;
    forall k | 0 <= k < M * N
      ensures RawSamples(data, h, M * N)[k] == img[k]
    {
      RawSampleAt(data, h, M * N, k);
    }
  }

  /** The P5 and the P2 loaders agree: the raw file and the plain text of
      the same buffer load into the same buffer, whatever `temp` starts at. */
  lemma {:induction false} LoadersAgree(img: seq<byte>, M: nat, N: nat, t1: int, t2: int)
    requires |img| == M * N
    ensures ReadPgm(RawFile(img, M, N), M, N, t1) == ReadPgm(Encode(PgmText(img, M, N)), M, N, t2)
  {
    ReadRawWritten(img, M, N, t1);
    ReadWritten(img, M, N, t2);
  }
}
