/**
 The scanning loops of the parser, with their fast paths: the 16-byte range search (used when
 `simd` is set, as it is for SSE 4.2 builds) and the loop unrolled eight times (used otherwise).
 Each is proved to compute what the plain function of `HttpSyntax` says, byte by byte.
 */
module Scanners {
  import opened Bytes
  import opened HttpSyntax

  /** A range table is a list of pairs of bounds. */
  predicate InRange(ranges: seq<byte>, j: nat, b: byte)
    requires 2 * j + 1 < |ranges|
  {
    ranges[2 * j] <= b <= ranges[2 * j + 1]
  }

  predicate InRanges(ranges: seq<byte>, b: byte) {
    exists j :: 0 <= j < |ranges| / 2 && InRange(ranges, j, b)
  }

  const TEXT_RANGES: seq<byte> := [0, 8, 10, 31, 127, 127]
  const TOKEN_RANGES: seq<byte> := [0, 32, 127, 127]
  const NAME_RANGES: seq<byte> := [0, 32, 34, 34, 40, 41, 44, 44, 47, 47, 58, 64, 91, 93, 123, 255]

  /** The tables let the fast path skip only bytes at which the byte loop would go on. */
  lemma RangesCoverStops(b: byte)
    ensures Stops(EndOfText, b) ==> InRanges(TEXT_RANGES, b)
    ensures Stops(EndOfToken, b) ==> InRanges(TOKEN_RANGES, b)
    ensures Stops(EndOfName, b) ==> InRanges(NAME_RANGES, b)
  {
    assert InRange(TEXT_RANGES, 0, b) || InRange(TEXT_RANGES, 1, b) || InRange(TEXT_RANGES, 2, b) ||
           !Stops(EndOfText, b);
    assert InRange(TOKEN_RANGES, 0, b) || InRange(TOKEN_RANGES, 1, b) || !Stops(EndOfToken, b);
    assert InRange(NAME_RANGES, 0, b) || InRange(NAME_RANGES, 1, b) || InRange(NAME_RANGES, 2, b)
        || InRange(NAME_RANGES, 3, b) || InRange(NAME_RANGES, 4, b) || InRange(NAME_RANGES, 5, b)
        || InRange(NAME_RANGES, 6, b) || InRange(NAME_RANGES, 7, b) || !Stops(EndOfName, b);
  }

  /** The table for text lines holds nothing else: a hit ends the text at once. */
  lemma TextRangesExact(b: byte)
    requires InRanges(TEXT_RANGES, b)
    ensures Stops(EndOfText, b)
  {
    var j :| 0 <= j < 3 && InRange(TEXT_RANGES, j, b);
    assert j == 0 || j == 1 || j == 2;
  }

  lemma {:induction false} FindSkip(c: Stop, s: seq<byte>, i: nat, k: nat)
    requires i <= k <= |s| && forall x :: i <= x < k ==> !Stops(c, s[x])
    ensures Find(c, s, i) == Find(c, s, k)
    decreases k - i
  {
    if i < k {
      FindSkip(c, s, i + 1, k);
    }
  }

  lemma FindHere(c: Stop, s: seq<byte>, i: nat)
    requires i <= |s|
    ensures i == |s| || Stops(c, s[i]) ==> Find(c, s, i) == i
    ensures i < |s| && !Stops(c, s[i]) ==> Find(c, s, i) == Find(c, s, i + 1)
  {
  }

  /** The range search of one 16-byte block: the offset of the first byte in a range, or 16. */
  function FirstInRanges(ranges: seq<byte>, block: seq<byte>): (r: nat)
    ensures r <= |block|
    ensures forall k :: 0 <= k < r ==> !InRanges(ranges, block[k])
    ensures r < |block| ==> InRanges(ranges, block[r])
  {
    if block == [] || InRanges(ranges, block[0]) then 0 else 1 + FirstInRanges(ranges, block[1..])
  }

  /** `findchar_fast`. */
  method FindCharFast(s: seq<byte>, start: nat, ranges: seq<byte>, simd: bool) returns (i: nat, found: bool)
    requires start <= |s|
    ensures start <= i <= |s|
    ensures forall k :: start <= k < i ==> !InRanges(ranges, s[k])
    ensures found ==> i < |s| && InRanges(ranges, s[i])
    ensures !simd ==> i == start && !found
    ensures simd && !found ==> |s| - i < 16
  {
    hide InRanges, FirstInRanges;
    i, found := start, false;
    if simd && |s| - i >= 16 {
      var left := (|s| - i) / 16 * 16;
      while true
        invariant start <= i <= |s| && 0 < left <= |s| - i < left + 16 && left % 16 == 0
        invariant forall k :: start <= k < i ==> !InRanges(ranges, s[k])
        decreases left
      {
        var block := s[i..i + 16];
        var r := FirstInRanges(ranges, block);
        assert forall k :: i <= k < i + r ==> s[k] == block[k - i];
        if r != 16 {
          i := i + r;
          found := true;
          break;
        }
        i := i + 16;
        left := left - 16;
        if left == 0 {
          break;
        }
      }
    }
  }

  /** After the fast path, the byte loop has the same work left to do. */
  lemma FastSkips(c: Stop, ranges: seq<byte>, s: seq<byte>, start: nat, i: nat)
    requires start <= i <= |s|
    requires (c, ranges) in {(EndOfText, TEXT_RANGES), (EndOfToken, TOKEN_RANGES), (EndOfName, NAME_RANGES)}
    requires forall k :: start <= k < i ==> !InRanges(ranges, s[k])
    ensures Find(c, s, start) == Find(c, s, i)
  {
    hide InRanges;
    forall k | start <= k < i
      ensures !Stops(c, s[k])
    {
      RangesCoverStops(s[k]);
    }
    FindSkip(c, s, start, i);
  }

  /** A printable ASCII byte; other bytes that do not end a text are HT and those above DEL. */
  predicate IsPrintable(b: byte) {
    32 <= b < 127
  }

  /** The search for the end of a text line in builds without SSE: eight bytes a round while eight
      are left, then byte by byte. */
  method ScanTextUnrolled(s: seq<byte>, start: nat) returns (i: nat)
    requires start <= |s|
    ensures i == Find(EndOfText, s, start)
  {
    hide Find;
    i := start;
    while |s| - i >= 8
      invariant start <= i <= |s|
      invariant Find(EndOfText, s, i) == Find(EndOfText, s, start)
      decreases |s| - i
    {
      var step := 0;
      ghost var round := i;
      while step < 8 && IsPrintable(s[i])
        invariant step <= 8 && i == round + step && |s| - i >= 8 - step
        invariant Find(EndOfText, s, i) == Find(EndOfText, s, start)
        invariant step == 0 ==> i < |s|
        decreases 8 - step
      {
        FindHere(EndOfText, s, i);
        i := i + 1;
        step := step + 1;
      }
      if step == 8 {
        continue;
      }
      FindHere(EndOfText, s, i);
      if (s[i] < 32 && s[i] != HT) || s[i] == DEL {
        return;
      }
      i := i + 1;
    }
    i := ScanText(s, i);
  }

  /** The byte loop for the end of a text line. */
  method ScanText(s: seq<byte>, start: nat) returns (i: nat)
    requires start <= |s|
    ensures i == Find(EndOfText, s, start)
  {
    hide Find;
    i := start;
    while i < |s|
      invariant start <= i <= |s|
      invariant Find(EndOfText, s, i) == Find(EndOfText, s, start)
    {
      FindHere(EndOfText, s, i);
      if !IsPrintable(s[i]) {
        if (s[i] < 32 && s[i] != HT) || s[i] == DEL {
          return;
        }
      }
      i := i + 1;
    }
    FindHere(EndOfText, s, i);
  }

  /** `get_token_to_eol`, in both builds. */
  method GetTokenToEol(s: seq<byte>, start: nat, simd: bool) returns (r: Outcome<Slice>)
    requires start <= |s|
    ensures r == TextLine(s, start)
  {
    hide Find, InRanges;
    var i;
    if simd {
      var found;
      i, found := FindCharFast(s, start, TEXT_RANGES, simd);
      FastSkips(EndOfText, TEXT_RANGES, s, start, i);
      if found {
        TextRangesExact(s[i]);
        FindHere(EndOfText, s, i);
      } else {
        i := ScanText(s, i);
      }
    } else {
      i := ScanTextUnrolled(s, start);
    }
    if i == |s| {
      return More;
    }
    if s[i] == CR {
      i := i + 1;
      if i == |s| {
        return More;
      }
      if s[i] != LF {
        return Bad;
      }
      i := i + 1;
      return Ok(i, Slice(start, i - 2 - start));
    } else if s[i] == LF {
      return Ok(i + 1, Slice(start, i - start));
    } else {
      return Bad;
    }
  }

  /** `ADVANCE_TOKEN`. */
  method AdvanceToken(s: seq<byte>, start: nat, simd: bool) returns (r: Outcome<Slice>)
    requires start <= |s|
    ensures r == Token(s, start)
  {
    hide Find, InRanges;
    var i, found := FindCharFast(s, start, TOKEN_RANGES, simd);
    FastSkips(EndOfToken, TOKEN_RANGES, s, start, i);
    if !found {
      FindHere(EndOfToken, s, i);
      if i == |s| {
        return More;
      }
    }
    while true
      invariant start <= i < |s|
      invariant Find(EndOfToken, s, i) == Find(EndOfToken, s, start)
      decreases |s| - i
    {
      FindHere(EndOfToken, s, i);
      if s[i] == SP {
        break;
      } else if !IsPrintable(s[i]) {
        if s[i] < 32 || s[i] == DEL {
          return Bad;
        }
      }
      i := i + 1;
      FindHere(EndOfToken, s, i);
      if i == |s| {
        return More;
      }
    }
    r := Ok(i, Slice(start, i - start));
  }

  /** The loops that skip spaces look at the byte behind the input, which counts as a non-space. */
  method SkipSpaces(s: seq<byte>, start: nat) returns (i: nat)
    requires start < |s|
    ensures i == Find(NonSpace, s, start + 1)
  {
    hide Find;
    i := start + 1;
    while i < |s| && s[i] == SP
      invariant start < i <= |s|
      invariant Find(NonSpace, s, i) == Find(NonSpace, s, start + 1)
    {
      FindHere(NonSpace, s, i);
      i := i + 1;
    }
    FindHere(NonSpace, s, i);
  }

  /** The name of a header line, up to and including the colon and the blanks behind it. */
  method ParseName(s: seq<byte>, start: nat, simd: bool) returns (r: Outcome<Slice>)
    requires start < |s|
    ensures r == FieldName(s, start)
  {
    hide Find, InRanges;
    var i, found := FindCharFast(s, start, NAME_RANGES, simd);
    FastSkips(EndOfName, NAME_RANGES, s, start, i);
    if !found {
      FindHere(EndOfName, s, i);
      if i == |s| {
        return More;
      }
    }
    while true
      invariant start <= i < |s|
      invariant Find(EndOfName, s, i) == Find(EndOfName, s, start)
      decreases |s| - i
    {
      FindHere(EndOfName, s, i);
      if s[i] == COLON {
        break;
      } else if !IsTokenChar(s[i]) {
        return Bad;
      }
      i := i + 1;
      FindHere(EndOfName, s, i);
      if i == |s| {
        return More;
      }
    }
    var nameLen := i - start;
    if nameLen == 0 {
      return Bad;
    }
    i := i + 1;
    ghost var v := i;
    while true
      invariant v <= i <= |s|
      invariant Find(NonBlank, s, i) == Find(NonBlank, s, v)
      decreases |s| - i
    {
      FindHere(NonBlank, s, i);
      if i == |s| {
        return More;
      }
      if !(s[i] == SP || s[i] == HT) {
        break;
      }
      i := i + 1;
    }
    r := Ok(i, Slice(start, nameLen));
  }

  /** `is_complete`. */
  method IsComplete(s: seq<byte>, lastLen: nat) returns (r: Outcome<()>)
    requires lastLen <= |s|
    ensures r == Complete(s, CompleteStart(lastLen), 0)
  {
    hide Complete;
    var count := 0;
    var i := if lastLen < 3 then 0 else lastLen - 3;
    ghost var start := i;
    while true
      invariant i <= |s| && count <= 1
      invariant Complete(s, i, count) == Complete(s, start, 0)
      decreases |s| - i
    {
      CompleteStep(s, i, count);
      if i == |s| {
        return More;
      }
      if s[i] == CR {
        i := i + 1;
        if i == |s| {
          return More;
        }
        if s[i] != LF {
          return Bad;
        }
        i := i + 1;
        count := count + 1;
      } else if s[i] == LF {
        i := i + 1;
        count := count + 1;
      } else {
        i := i + 1;
        count := 0;
      }
      if count == 2 {
        return Ok(i, ());
      }
    }
  }

  lemma CompleteStep(s: seq<byte>, i: nat, count: nat)
    requires i <= |s| && count <= 1
    ensures i == |s| ==> Complete(s, i, count) == More
    ensures i < |s| ==>
              match Newline(s, i)
              case More => Complete(s, i, count) == More
              case Ok(pos, _) => Complete(s, i, count) == if count == 1 then Ok(pos, ()) else Complete(s, pos, 1)
              case Bad => Complete(s, i, count) == if s[i] == CR then Bad else Complete(s, i + 1, 0)
  {
  }
}
