/** `openfile` and `read_image`: the header of a PGM file and the samples
    that follow it, stored row-major into `frame1`. The width and height the
    samples are stored with are the caller's `M` and `N`, not the ones in the
    header. */
module Reader {
  import opened PgmTypes
  import opened Scanner

  /** What `openfile` leaves behind: the magic token (the global `header`),
      the three integers it reads, and the stream position after them. */
  datatype PgmHeader = PgmHeader(magic: seq<byte>, width: int, height: int, maxval: int, next: nat)

  /** `openfile`: one `%s` token, then three `getint` calls. */
  function OpenFileSpec(data: seq<byte>): (h: PgmHeader)
    ensures h.next <= |data|
    ensures h.width >= 0 && h.height >= 0 && h.maxval >= 0
  {
    var t := ReadToken(data, 0);
    var w := GetIntSpec(data, t.next);
    var ht := GetIntSpec(data, w.next);
    var m := GetIntSpec(data, ht.next);
    PgmHeader(t.text, w.value, ht.value, m.value, m.next)
  }

  method OpenFile(data: seq<byte>) returns (h: PgmHeader)
    ensures h == OpenFileSpec(data)
  {
    var header := ReadToken(data, 0);
    var x0, p0 := GetInt(data, header.next);
    var y0, p1 := GetInt(data, p0);
    var x, p2 := GetInt(data, p1);
    h := PgmHeader(header.text, x0, y0, x, p2);
  }

  /** Only the first two characters of the magic token are looked at. */
  predicate IsP5(magic: seq<byte>)
  {
    |magic| >= 2 && magic[0] == 'P' as int && magic[1] == '5' as int
  }

  predicate IsP2(magic: seq<byte>)
  {
    |magic| >= 2 && magic[0] == 'P' as int && magic[1] == '2' as int
  }

  /** A raw (P5) body: `n` successive `getc` results from `pos`, each
      narrowed to `unsigned char`. */
  function RawSamples(data: seq<byte>, pos: nat, n: nat): (s: seq<byte>)
    ensures |s| == n
  {
    if n == 0 then [] else RawSamples(data, pos, n - 1) + [CharAt(data, pos + n - 1) % 256]
  }

  /** The state of the P2 reading loop: the samples stored so far, the read
      position, and the variable `temp` the last conversion left behind. */
  datatype ScanState = ScanState(samples: seq<byte>, next: nat, temp: int)

  /** `n` iterations of the P2 loop from `pos`, with `temp` initially
      `temp0`. A matching failure stores `temp` again, unchanged; end of file
      before a sample stops the program. */
  function P2Scan(data: seq<byte>, pos: nat, n: nat, temp0: int): (r: Result<ScanState>)
    requires pos <= |data|
    ensures r.Ok? ==> |r.value.samples| == n && r.value.next <= |data|
    ensures r.Err? ==> r.error == Truncated
    decreases n
  {
    if n == 0 then Ok(ScanState([], pos, temp0))
    else
      match ReadSample(data, pos)
      case AtEnd => Err(Truncated)
      case NoMatch(q) => Prepend(temp0 % 256, P2Scan(data, q, n - 1, temp0))
      case Number(v, q) => Prepend(v % 256, P2Scan(data, q, n - 1, v))
  }

  /** The sample `b` stored before those of a later scan. */
  function Prepend(b: byte, r: Result<ScanState>): (r': Result<ScanState>)
    ensures r'.Ok? <==> r.Ok?
    ensures r.Err? ==> r' == r
    ensures r.Ok? ==> r'.value == ScanState([b] + r.value.samples, r.value.next, r.value.temp)
  {
    match r
    case Err(e) => Err(e)
    case Ok(st) => Ok(ScanState([b] + st.samples, st.next, st.temp))
  }

  /** `read_image` for an `M`-wide, `N`-high buffer: the samples it stores,
      or why it stops the program. `temp0` stands for the value the
      uninitialised `temp` holds before the first sample. */
  function ReadPgm(data: seq<byte>, M: nat, N: nat, temp0: int): Result<seq<byte>>
  {
    var h := OpenFileSpec(data);
    if IsP5(h.magic) then Ok(RawSamples(data, h.next, M * N))
    else if IsP2(h.magic) then
      match P2Scan(data, h.next, M * N, temp0)
      case Err(e) => Err(e)
      case Ok(st) => Ok(st.samples)
    else Err(BadMagic)
  }

  /** `read_image`: fills `frame1` row-major with the samples `ReadPgm`
      defines. On an error the program exits, so the partly filled buffer is
      of no further interest. */
  method ReadImage(data: seq<byte>, M: nat, N: nat, frame1: array<byte>, temp0: int) returns (outcome: Result<seq<byte>>)
    requires frame1.Length == M * N
    modifies frame1
    ensures outcome == ReadPgm(data, M, N, temp0)
    ensures outcome.Ok? ==> frame1[..] == outcome.value
  {
    var h := OpenFile(data);
    if IsP5(h.magic) {
      ReadRaw(data, h.next, M, N, frame1);
      return Ok(frame1[..]);
    } else if IsP2(h.magic) {
      outcome := ReadPlain(data, h.next, M, N, frame1, temp0);
    } else {
      return Err(BadMagic);
    }
  }

  /** The P5 branch of `read_image`: one `getc` per sample. */
  method ReadRaw(data: seq<byte>, start: nat, M: nat, N: nat, frame1: array<byte>)
    requires start <= |data|
    requires frame1.Length == M * N
    modifies frame1
    ensures frame1[..] == RawSamples(data, start, M * N)
  {
    var pos := start;
    for j := 0 to N
      invariant M * j <= M * N
      invariant pos == if start + M * j < |data| then start + M * j else |data|
      invariant frame1[..M * j] == RawSamples(data, start, M * j)
    {
      RowFits(M, N, j);
      for i := 0 to M
        invariant pos == if start + M * j + i < |data| then start + M * j + i else |data|
        invariant frame1[..M * j + i] == RawSamples(data, start, M * j + i)
      {
        var temp;
        temp, pos := Getc(data, pos);
        frame1[M * j + i] := temp % 256;
        assert frame1[..M * j + i + 1] == frame1[..M * j + i] + [frame1[M * j + i]];
      }
      assert M * j + M == M * (j + 1);
    }
    assert frame1[..] == frame1[..M * N];
  }

  /** The P2 branch of `read_image`: one `fscanf("%d")` per sample, exiting
      at end of file. */
  method ReadPlain(data: seq<byte>, start: nat, M: nat, N: nat, frame1: array<byte>, temp0: int)
    returns (outcome: Result<seq<byte>>)
    requires start <= |data|
    requires frame1.Length == M * N
    modifies frame1
    ensures P2Scan(data, start, M * N, temp0).Err? ==> outcome == Err(Truncated)
    ensures P2Scan(data, start, M * N, temp0).Ok? ==>
      outcome == Ok(P2Scan(data, start, M * N, temp0).value.samples) && frame1[..] == outcome.value
  {
    var pos: nat, temp: int := start, temp0;
    ghost var st := ScanState([], start, temp0);
    for j := 0 to N
      invariant M * j <= M * N
      invariant P2Scan(data, start, M * j, temp0) == Ok(st)
      invariant st.samples == frame1[..M * j] && st.next == pos && st.temp == temp
    {
      RowFits(M, N, j);
      var stop;
      ghost var failedAt;
      stop, pos, temp, st, failedAt := ScanRow(data, start, temp0, frame1, M, M * j, pos, temp, st);
      if stop {
        P2ScanStaysFailed(data, start, failedAt, M * N, temp0);
        return Err(Truncated);
      }
      assert M * j + M == M * (j + 1);
    }
    assert frame1[..] == frame1[..M * N];
    return Ok(frame1[..]);
  }

  /** The inner loop of the P2 branch: the `M` samples of one row, stored
      from entry `base` on. `stop` is set when end of file ends the program
      while reading sample `failedAt - 1`. */
  method ScanRow(data: seq<byte>, start: nat, temp0: int, frame1: array<byte>, M: nat, base: nat, pos: nat, temp: int, ghost st: ScanState)
    returns (stop: bool, pos': nat, temp': int, ghost st': ScanState, ghost failedAt: nat)
    requires start <= |data|
    requires base + M <= frame1.Length
    requires P2Scan(data, start, base, temp0) == Ok(st)
    requires st.samples == frame1[..base] && st.next == pos && st.temp == temp
    modifies frame1
    ensures stop ==> failedAt <= base + M && P2Scan(data, start, failedAt, temp0).Err?
    ensures !stop ==> P2Scan(data, start, base + M, temp0) == Ok(st')
    ensures !stop ==> st'.samples == frame1[..base + M] && st'.next == pos' && st'.temp == temp'
  {
    pos', temp', st' := pos, temp, st;
    var k := base;
    while k < base + M
      invariant base <= k <= base + M
      invariant P2Scan(data, start, k, temp0) == Ok(st')
      invariant st'.samples == frame1[..k] && st'.next == pos' && st'.temp == temp'
    {
      stop, pos', temp', st' := ScanSample(data, start, temp0, frame1, k, pos', temp', st');
      if stop {
        return stop, pos', temp', st', k + 1;
      }
      k := k + 1;
    }
    stop, failedAt := false, 0;
  }

  /** One iteration of the P2 loop: `fscanf("%d", &temp)`, then entry `k`
      of `frame1` becomes `temp`, narrowed. At end of file nothing is stored
      and `stop` is set. `st` and `st'` are the loop's state before and after. */
  method ScanSample(data: seq<byte>, start: nat, temp0: int, frame1: array<byte>, k: nat, pos: nat, temp: int, ghost st: ScanState)
    returns (stop: bool, pos': nat, temp': int, ghost st': ScanState)
    requires start <= |data|
    requires k < frame1.Length
    requires P2Scan(data, start, k, temp0) == Ok(st)
    requires st.samples == frame1[..k] && st.next == pos && st.temp == temp
    modifies frame1
    ensures stop ==> P2Scan(data, start, k + 1, temp0) == Err(Truncated)
    ensures !stop ==> P2Scan(data, start, k + 1, temp0) == Ok(st')
    ensures !stop ==> st'.samples == frame1[..k + 1] && st'.next == pos' && st'.temp == temp'
  {
    P2ScanNext(data, start, k, temp0, st);
    var read := ReadSample(data, pos);
    match read {
      case AtEnd =>
        return true, pos, temp, st;
      case NoMatch(q) =>
        pos', temp' := q, temp;
      case Number(v, q) =>
        pos', temp' := q, v;
    }
    frame1[k] := temp' % 256;
    st' := ScanState(st.samples + [temp' % 256], pos', temp');
    assert frame1[..k + 1] == st.samples + [temp' % 256];
    stop := false;
  }

  /** One iteration of the P2 loop from the state `st`. */
  function P2Step(data: seq<byte>, st: ScanState): (r: Result<ScanState>)
    requires st.next <= |data|
    ensures r.Err? <==> forall k :: st.next <= k < |data| ==> IsSpace(data[k])
    ensures r.Ok? ==> |r.value.samples| == |st.samples| + 1 && r.value.samples[..|st.samples|] == st.samples
  {
    match ReadSample(data, st.next)
    case AtEnd => Err(Truncated)
    case NoMatch(q) => Ok(ScanState(st.samples + [st.temp % 256], q, st.temp))
    case Number(v, q) => Ok(ScanState(st.samples + [v % 256], q, v))
  }

  /** The scan of `n + 1` samples is the scan of `n` followed by one more
      iteration. */
  lemma {:induction false} P2ScanNext(data: seq<byte>, pos: nat, n: nat, temp0: int, st: ScanState)
    requires pos <= |data|
    requires P2Scan(data, pos, n, temp0) == Ok(st)
    ensures st.next <= |data|
    ensures P2Scan(data, pos, n + 1, temp0) == P2Step(data, st)
    decreases n, 1
  {
    if n == 0 {
      assert st == ScanState([], pos, temp0);
      match ReadSample(data, pos)
      case AtEnd =>
      case NoMatch(q) =>
        assert [temp0 % 256] + [] == [] + [temp0 % 256];
      case Number(v, q) =>
        assert [v % 256] + [] == [] + [v % 256];
    } else {
      match ReadSample(data, pos)
      case AtEnd =>
      case NoMatch(q) =>
        ScanNextAfter(data, pos, q, n, temp0, temp0, temp0 % 256, st);
      case Number(v, q) =>
        ScanNextAfter(data, pos, q, n, temp0, v, v % 256, st);
    }
  }

  /** The inductive step of `P2ScanNext`, once the first sample `b` has been
      read and the scan goes on from `q` with `temp` equal to `t`. */
  lemma {:induction false} ScanNextAfter(data: seq<byte>, pos: nat, q: nat, n: nat, temp0: int, t: int, b: byte, st: ScanState)
    requires pos <= q <= |data| && n > 0
    requires P2Scan(data, pos, n, temp0) == Prepend(b, P2Scan(data, q, n - 1, t))
    requires P2Scan(data, pos, n + 1, temp0) == Prepend(b, P2Scan(data, q, n, t))
    requires P2Scan(data, pos, n, temp0) == Ok(st)
    ensures st.next <= |data|
    ensures P2Scan(data, pos, n + 1, temp0) == P2Step(data, st)
    decreases n, 0
  {
    var rest := P2Scan(data, q, n - 1, t).value;
    assert st == ScanState([b] + rest.samples, rest.next, rest.temp);
    P2ScanNext(data, q, n - 1, t, rest);
    PrependStep(data, b, rest);
  }

  /** Storing `b` first commutes with one more iteration at the end. */
  lemma PrependStep(data: seq<byte>, b: byte, st: ScanState)
    requires st.next <= |data|
    ensures Prepend(b, P2Step(data, st)) == P2Step(data, ScanState([b] + st.samples, st.next, st.temp))
  {
    var x := match ReadSample(data, st.next)
      case AtEnd => 0
      case NoMatch(_) => st.temp % 256
      case Number(v, _) => v % 256;
    assert [b] + (st.samples + [x]) == ([b] + st.samples) + [x];
  }

  /** Once the P2 loop has stopped at end of file, reading more samples
      stops it too. */
  lemma {:induction false} P2ScanStaysFailed(data: seq<byte>, pos: nat, n: nat, m: nat, temp0: int)
    requires pos <= |data|
    requires n <= m
    requires P2Scan(data, pos, n, temp0).Err?
    ensures P2Scan(data, pos, m, temp0).Err?
    decreases n, 1
  {
    match ReadSample(data, pos)
    case AtEnd =>
    case NoMatch(q) =>
      StaysFailedAfter(data, q, n, m, temp0, temp0 % 256);
    case Number(v, q) =>
      StaysFailedAfter(data, q, n, m, v, v % 256);
  }

  /** The inductive step of `P2ScanStaysFailed`, once the first sample `b`
      has been read and the scan goes on from `q` with `temp` equal to `t`. */
  lemma {:induction false} StaysFailedAfter(data: seq<byte>, q: nat, n: nat, m: nat, t: int, b: byte)
    requires q <= |data| && 0 < n <= m
    requires Prepend(b, P2Scan(data, q, n - 1, t)).Err?
    ensures Prepend(b, P2Scan(data, q, m - 1, t)).Err?
    decreases n, 0
  {
    P2ScanStaysFailed(data, q, n - 1, m - 1, t);
  }

  /** A successful read stores exactly `M * N` samples, whatever width and
      height the header announces. */
  lemma ReadPgmLength(data: seq<byte>, M: nat, N: nat, temp0: int)
    requires ReadPgm(data, M, N, temp0).Ok?
    ensures |ReadPgm(data, M, N, temp0).value| == M * N
  {
  }

  /** The magic token decides the outcome: P5 always succeeds, P2 fails only
      by reaching end of file, and any other token is refused. */
  lemma ReadPgmDispatch(data: seq<byte>, M: nat, N: nat, temp0: int)
    ensures ReadPgm(data, M, N, temp0) == Err(BadMagic) <==>
      !IsP5(OpenFileSpec(data).magic) && !IsP2(OpenFileSpec(data).magic)
    ensures IsP5(OpenFileSpec(data).magic) ==> ReadPgm(data, M, N, temp0).Ok?
    ensures ReadPgm(data, M, N, temp0).Err? ==> ReadPgm(data, M, N, temp0).error in {BadMagic, Truncated}
  {
  }

  /** A P5 sample is the byte at its offset after the header, or 255 once the
      data is exhausted (`getc` returns -1, which narrows to 255). */
  lemma {:induction false} RawSampleAt(data: seq<byte>, pos: nat, n: nat, k: nat)
    requires k < n
    ensures RawSamples(data, pos, n)[k] == if pos + k < |data| then data[pos + k] else 255
    decreases n
  {
    if k < n - 1 {
      RawSampleAt(data, pos, n - 1, k);
    }
  }

  /** `n` copies of `b`. */
  function Repeat(b: byte, n: nat): (s: seq<byte>)
    ensures |s| == n && forall k :: 0 <= k < n ==> s[k] == b
  {
    if n == 0 then [] else [b] + Repeat(b, n - 1)
  }

  /** A P2 body that starts with a character no number can start with is
      never read past: every sample is the initial `temp`, narrowed. */
  lemma {:induction false} P2Stuck(data: seq<byte>, pos: nat, n: nat, temp0: int)
    requires pos < |data|
    requires !IsSpace(data[pos]) && !IsDigit(data[pos])
    ensures P2Scan(data, pos, n, temp0) == Ok(ScanState(Repeat(temp0 % 256, n), pos, temp0))
  {
    if n > 0 {
      P2Stuck(data, pos, n - 1, temp0);
      assert SkipSpace(data, pos) == pos;
    }
  }
}
