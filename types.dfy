/** Shared vocabulary of the image pipeline: 8-bit samples, error results and
    the row-major index arithmetic `M * row + col` used by every buffer. */
module PgmTypes {

  /** An unsigned 8-bit sample, the C `unsigned char` of the buffers. */
  type byte = x: int | 0 <= x < 256

  /** Why reading an image stops the program (`exit(EXIT_FAILURE)` in the source). */
  datatype Error =
    | BadMagic   // the magic token is neither P5 nor P2
    | Truncated  // `fscanf("%d")` reached end of file before a P2 sample

  datatype Result<T> = Ok(value: T) | Err(error: Error)

  /** Row `j` of an `M`-wide, `N`-high image lies inside the buffer. */
  lemma {:induction false} RowFits(M: nat, N: nat, j: nat)
    requires j < N
    ensures M * j + M <= M * N
    decreases N - j
  {
    if j + 1 < N {
      RowFits(M, N, j + 1);
    }
  }

  /** The flat index of an in-range pixel is in range. */
  lemma FlatIndexInRange(M: nat, N: nat, j: nat, i: nat)
    requires j < N && i < M
    ensures 0 <= M * j + i < M * N
  {
    RowFits(M, N, j);
    assert 0 <= M * j;
  }

  /** The flat index `M * j + i` decodes back to row `j` and column `i`. */
  lemma FlatIndexDecode(M: nat, j: nat, i: nat)
    requires i < M
    ensures (M * j + i) / M == j && (M * j + i) % M == i
  {
    var a := M * j + i;
    var d := a / M - j;
    assert M * d == i - a % M by {
      assert a == M * (a / M) + a % M;
      assert M * (a / M) == M * d + M * j;
    }
    if d > 0 {
      MulAtLeast(M, d);
      assert false;
    } else if d < 0 {
      MulAtLeast(M, -d);
      assert false;
    }
  }

  lemma MulAtLeast(M: nat, d: int)
    requires d >= 1
    ensures M * d >= M
  {
    assert M * d == M * (d - 1) + M;
  }

  /** Distinct pixels have distinct flat indices. */
  lemma FlatIndexInjective(M: nat, y1: nat, x1: nat, y2: nat, x2: nat)
    requires x1 < M && x2 < M
    requires M * y1 + x1 == M * y2 + x2
    ensures y1 == y2 && x1 == x2
  {
    FlatIndexDecode(M, y1, x1);
    FlatIndexDecode(M, y2, x2);
  }
}
