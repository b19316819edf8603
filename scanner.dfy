/** Reading a character stream: the source's own `getint`, and the two
    `fscanf` conversions the reader relies on (`%s` for the magic token and a
    plain decimal `%d` for P2 samples). A stream is the file's bytes `data`
    together with a read position; reading at `|data|` yields `EOF`. */
module Scanner {
  import opened PgmTypes

  /** What `getc` returns once the stream is exhausted. */
  const EOF := -1

  /** The character `getc` returns at position `pos`. */
  function CharAt(data: seq<byte>, pos: nat): int
  {
    if pos < |data| then data[pos] else EOF
  }

  /** One `getc`: the character at `pos` and the position after it (a read
      at end of file does not move). */
  method Getc(data: seq<byte>, pos: nat) returns (c: int, next: nat)
    requires pos <= |data|
    ensures c == CharAt(data, pos)
    ensures next == if pos < |data| then pos + 1 else pos
  {
    c := CharAt(data, pos);
    next := if pos < |data| then pos + 1 else pos;
  }

  predicate IsDigit(c: int)
  {
    '0' as int <= c <= '9' as int
  }

  /** `isspace` in the "C" locale: space, tab, newline, vertical tab, form
      feed and carriage return. */
  predicate IsSpace(c: int)
  {
    c == ' ' as int || '\t' as int <= c <= '\r' as int
  }

  predicate AllDigits(s: seq<byte>)
  {
    forall k :: 0 <= k < |s| ==> IsDigit(s[k])
  }

  /** The value of a run of decimal digits, most significant first. */
  function DecValue(s: seq<byte>): (v: nat)
    requires AllDigits(s)
  {
    if s == [] then 0 else 10 * DecValue(s[..|s| - 1]) + (s[|s| - 1] - '0' as int)
  }

  /** The first newline at or after `i`, or the end of the data: where a
      `#` comment that starts before `i` stops. */
  function LineEnd(data: seq<byte>, i: nat): (e: nat)
    requires i <= |data|
    ensures i <= e <= |data|
    ensures e < |data| ==> data[e] == '\n' as int
    ensures forall k :: i <= k < e ==> data[k] != '\n' as int
    decreases |data| - i
  {
    if i == |data| || data[i] == '\n' as int then i else LineEnd(data, i + 1)
  }

  /** The end of the digit run starting at `i`: the first non-digit at or
      after `i`, or the end of the data. */
  function DigitEnd(data: seq<byte>, i: nat): (e: nat)
    requires i <= |data|
    ensures i <= e <= |data|
    ensures e < |data| ==> !IsDigit(data[e])
    ensures AllDigits(data[i..e])
    decreases |data| - i
  {
    if i == |data| || !IsDigit(data[i]) then i else DigitEnd(data, i + 1)
  }

  /** Where the skipping phase of `getint` stops when its current character
      is the one at `i`: the first digit that is not inside a `#` comment, or
      the end of the data. A comment runs from `#` to the next newline. */
  function FirstDigit(data: seq<byte>, i: nat): (s: nat)
    requires i <= |data|
    ensures i <= s <= |data|
    ensures s < |data| ==> IsDigit(data[s])
    decreases |data| - i
  {
    if i == |data| then i
    else if data[i] == '#' as int then
      var e := LineEnd(data, i + 1);
      if e == |data| then e else FirstDigit(data, e + 1)
    else if IsDigit(data[i]) then i
    else FirstDigit(data, i + 1)
  }

  /** A value read from the stream and the position after the read. */
  datatype Scanned = Scanned(value: int, next: nat)

  /** `getint` started at position `pos`: the value of the first digit run
      outside comments and the position just past the one character that
      ended it; 0 and the end of the data when no digit is left. */
  function GetIntSpec(data: seq<byte>, pos: nat): (r: Scanned)
    requires pos <= |data|
    ensures pos <= r.next <= |data|
    ensures r.value >= 0
  {
    var s := FirstDigit(data, pos);
    if s == |data| then Scanned(0, |data|)
    else
      var e := DigitEnd(data, s);
      Scanned(DecValue(data[s..e]), if e < |data| then e + 1 else e)
  }

  /** The comment block of `getint`, entered with `pos` just after a `#`:
      characters are read up to and including the next newline, or up to the
      end of the data; `c` is that newline or `EOF`. */
  method ReadComment(data: seq<byte>, pos: nat) returns (c: int, next: nat)
    requires pos <= |data|
    ensures c == CharAt(data, LineEnd(data, pos))
    ensures next == if LineEnd(data, pos) < |data| then LineEnd(data, pos) + 1 else |data|
  {
    ghost var e := LineEnd(data, pos);
    next := pos;
    while true
      invariant pos <= next <= e
      invariant LineEnd(data, next) == e
      decreases |data| - next
    {
      c, next := Getc(data, next);
      if c == '\n' as int || c == EOF {
        break;
      }
    }
  }

  /** `getint`: skip to the first digit outside a comment, then accumulate
      the digit run; the character that ends the run is consumed. */
  method GetInt(data: seq<byte>, start: nat) returns (i: int, pos: nat)
    requires start <= |data|
    ensures Scanned(i, pos) == GetIntSpec(data, start)
  {
    var c;
    c, pos := SkipToDigit(data, start);
    if c == EOF {
      return 0, pos;
    }
    i, pos := ReadDigits(data, c, pos);
  }

  /** The skipping loop of `getint`: it stops on the first digit outside a
      comment, just after reading it, or at the end of the data. */
  method SkipToDigit(data: seq<byte>, start: nat) returns (c: int, pos: nat)
    requires start <= |data|
    ensures c == CharAt(data, FirstDigit(data, start))
    ensures pos == if FirstDigit(data, start) < |data| then FirstDigit(data, start) + 1 else |data|
  {
    c, pos := Getc(data, start);
    ghost var at := start;
    while true
      invariant start <= at <= |data|
      invariant c == CharAt(data, at)
      invariant pos == if at < |data| then at + 1 else at
      invariant FirstDigit(data, at) == FirstDigit(data, start)
      decreases |data| - at
    {
      if c == '#' as int {
        ghost var e := LineEnd(data, at + 1);
        c, pos := ReadComment(data, pos);
        CommentStep(data, at);
        at := e;
      }
      if c == EOF || IsDigit(c) {
        SkipStop(data, at);
        break;
      }
      SkipStep(data, at);
      c, pos := Getc(data, pos);
      at := at + 1;
    }
  }

  /** Skipping stops at once on a digit or at the end of the data. */
  lemma SkipStop(data: seq<byte>, i: nat)
    requires i <= |data|
    requires i == |data| || IsDigit(data[i])
    ensures FirstDigit(data, i) == i
  {
  }

  /** A character that is neither a digit nor `#` does not change where the
      skipping stops. */
  lemma SkipStep(data: seq<byte>, i: nat)
    requires i < |data| && !IsDigit(data[i]) && data[i] != '#' as int
    ensures FirstDigit(data, i) == FirstDigit(data, i + 1)
  {
  }

  /** Neither does a whole comment: skipping from its `#` stops where
      skipping from the newline that closes it stops. */
  lemma CommentStep(data: seq<byte>, i: nat)
    requires i < |data| && data[i] == '#' as int
    ensures FirstDigit(data, i) == FirstDigit(data, LineEnd(data, i + 1))
  {
    var e := LineEnd(data, i + 1);
    if e < |data| {
      assert FirstDigit(data, e) == FirstDigit(data, e + 1);
    }
  }

  /** The accumulation loop of `getint`, entered with the digit `first` just
      read from position `start - 1`: the value of the run starting there and
      the position past the character that ends it. */
  method ReadDigits(data: seq<byte>, first: int, start: nat) returns (i: int, pos: nat)
    requires 0 < start <= |data| && first == data[start - 1] && IsDigit(first)
    ensures i == DecValue(data[start - 1..DigitEnd(data, start - 1)])
    ensures pos == if DigitEnd(data, start - 1) < |data| then DigitEnd(data, start - 1) + 1 else |data|
  {
    ghost var s := start - 1;
    var c := first;
    pos := start;
    ghost var at := s;
    i := 0;
    while true
      invariant s <= at < |data| && IsDigit(data[at]) && c == data[at] && pos == at + 1
      invariant AllDigits(data[s..at])
      invariant DigitEnd(data, at) == DigitEnd(data, s)
      invariant i == DecValue(data[s..at])
      decreases |data| - at
    {
      DecValueStep(data, s, at);
      i := (i * 10) + (c - '0' as int);
      c, pos := Getc(data, pos);
      at := at + 1;
      if c == EOF {
        return i, pos;
      }
      if !IsDigit(c) {
        break;
      }
    }
  }

  /** Extending a digit run by one digit: the value is shifted one decimal
      place and the digit added. */
  lemma DecValueStep(data: seq<byte>, s: nat, e: nat)
    requires s <= e < |data|
    requires AllDigits(data[s..e]) && IsDigit(data[e])
    ensures AllDigits(data[s..e + 1])
    ensures DecValue(data[s..e + 1]) == 10 * DecValue(data[s..e]) + (data[e] - '0' as int)
  {
    assert data[s..e + 1][..e - s] == data[s..e];
  }

  /** The first non-space at or after `i`, or the end of the data. */
  function SkipSpace(data: seq<byte>, i: nat): (s: nat)
    requires i <= |data|
    ensures i <= s <= |data|
    ensures s < |data| ==> !IsSpace(data[s])
    ensures forall k :: i <= k < s ==> IsSpace(data[k])
    decreases |data| - i
  {
    if i == |data| || !IsSpace(data[i]) then i else SkipSpace(data, i + 1)
  }

  /** The first space at or after `i`, or the end of the data. */
  function TokenEnd(data: seq<byte>, i: nat): (e: nat)
    requires i <= |data|
    ensures i <= e <= |data|
    ensures e < |data| ==> IsSpace(data[e])
    ensures forall k :: i <= k < e ==> !IsSpace(data[k])
    decreases |data| - i
  {
    if i == |data| || IsSpace(data[i]) then i else TokenEnd(data, i + 1)
  }

  /** A token read by `fscanf("%s")` and the position after it. */
  datatype Token = Token(text: seq<byte>, next: nat)

  /** `fscanf("%s")` from `pos`: leading white space is skipped, the token is
      the following run of non-space characters, and the space that ends it
      is left unread. */
  function ReadToken(data: seq<byte>, pos: nat): (t: Token)
    requires pos <= |data|
    ensures pos <= t.next <= |data|
    ensures forall k :: 0 <= k < |t.text| ==> !IsSpace(t.text[k])
    ensures t.next < |data| ==> IsSpace(data[t.next])
    ensures t.text == [] <==> forall k :: pos <= k < |data| ==> IsSpace(data[k])
  {
    var s := SkipSpace(data, pos);
    var e := TokenEnd(data, s);
    Token(data[s..e], e)
  }

  /** The outcome of one `fscanf("%d")`: a converted value, a matching
      failure at a character that cannot start a number (left unread), or end
      of file before any number. */
  datatype SampleRead =
    | Number(value: nat, next: nat)
    | NoMatch(at: nat)
    | AtEnd

  /** `fscanf("%d")` restricted to unsigned decimals: skip white space, then
      read the digit run; the character after it is left unread. */
  function ReadSample(data: seq<byte>, pos: nat): (r: SampleRead)
    requires pos <= |data|
    ensures r.Number? ==> pos < r.next <= |data|
    ensures r.NoMatch? ==> pos <= r.at < |data| && !IsSpace(data[r.at]) && !IsDigit(data[r.at])
    ensures r.AtEnd? <==> forall k :: pos <= k < |data| ==> IsSpace(data[k])
  {
    var s := SkipSpace(data, pos);
    if s == |data| then AtEnd
    else if IsDigit(data[s]) then
      var e := DigitEnd(data, s);
      Number(DecValue(data[s..e]), e)
    else NoMatch(s)
  }

  // Properties of the skipping phase of `getint`.

  /** Characters that are neither digits nor `#` are passed over. */
  lemma {:induction false} SkipPlain(data: seq<byte>, i: nat, j: nat)
    requires i <= j <= |data|
    requires forall k :: i <= k < j ==> !IsDigit(data[k]) && data[k] != '#' as int
    ensures FirstDigit(data, i) == FirstDigit(data, j)
    decreases j - i
  {
    if i < j {
      SkipPlain(data, i + 1, j);
    }
  }

  /** A comment from `#` at `i` to the newline at `e` is passed over whole,
      digits in it included. */
  lemma SkipComment(data: seq<byte>, i: nat, e: nat)
    requires i < e < |data|
    requires data[i] == '#' as int && data[e] == '\n' as int
    requires forall k :: i < k < e ==> data[k] != '\n' as int
    ensures FirstDigit(data, i) == FirstDigit(data, e + 1)
  {
  }

  /** A comment that is never closed hides everything after it: `getint`
      then reports 0 at the end of the data. */
  lemma UnclosedComment(data: seq<byte>, pos: nat, i: nat)
    requires pos <= i < |data|
    requires forall k :: pos <= k < i ==> !IsDigit(data[k]) && data[k] != '#' as int
    requires data[i] == '#' as int
    requires forall k :: i < k < |data| ==> data[k] != '\n' as int
    ensures GetIntSpec(data, pos) == Scanned(0, |data|)
  {
    SkipPlain(data, pos, i);
  }

  /** `getint` on a stream whose next digits, after characters that are
      neither digits nor `#`, are the run `data[s..e]`: it returns the run's
      value and consumes the one character that ends it. */
  lemma GetIntOver(data: seq<byte>, pos: nat, s: nat, e: nat)
    requires pos <= s < e <= |data|
    requires forall k :: pos <= k < s ==> !IsDigit(data[k]) && data[k] != '#' as int
    requires AllDigits(data[s..e])
    requires e == |data| || !IsDigit(data[e])
    ensures GetIntSpec(data, pos) == Scanned(DecValue(data[s..e]), if e < |data| then e + 1 else e)
  {
    SkipPlain(data, pos, s);
    assert IsDigit(data[s]) by {
      assert data[s..e][0] == data[s];
    }
    DigitEndAt(data, s, e);
  }

  /** A digit run followed by a non-digit ends exactly there. */
  lemma {:induction false} DigitEndAt(data: seq<byte>, s: nat, e: nat)
    requires s <= e <= |data|
    requires AllDigits(data[s..e])
    requires e == |data| || !IsDigit(data[e])
    ensures DigitEnd(data, s) == e
    decreases e - s
  {
    if s < e {
      assert IsDigit(data[s..e][0]);
      assert data[s + 1..e] == data[s..e][1..];
      DigitEndAt(data, s + 1, e);
    }
  }

  /** White space followed by a digit run: `fscanf("%d")` converts the run
      and stops at the non-digit after it. */
  lemma ReadSampleOver(data: seq<byte>, pos: nat, s: nat, e: nat)
    requires pos <= s < e <= |data|
    requires forall k :: pos <= k < s ==> IsSpace(data[k])
    requires AllDigits(data[s..e])
    requires e == |data| || !IsDigit(data[e])
    ensures ReadSample(data, pos) == Number(DecValue(data[s..e]), e)
  {
    SpaceRun(data, pos, s);
    assert IsDigit(data[s]) by {
      assert data[s..e][0] == data[s];
    }
    DigitEndAt(data, s, e);
  }

  /** Spaces up to a non-space at `s` are skipped exactly to `s`. */
  lemma {:induction false} SpaceRun(data: seq<byte>, i: nat, s: nat)
    requires i <= s < |data|
    requires forall k :: i <= k < s ==> IsSpace(data[k])
    requires !IsSpace(data[s]) || IsDigit(data[s])
    ensures !IsSpace(data[s]) ==> SkipSpace(data, i) == s
    decreases s - i
  {
    if i < s {
      SpaceRun(data, i + 1, s);
    }
  }
}
