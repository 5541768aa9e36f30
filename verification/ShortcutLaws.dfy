/**
 The `last_len` shortcut: before parsing again, the parser first looks for an empty line starting
 three bytes before the end of what it has already seen. For successes this changes nothing; for the
 other two verdicts it changes something in exactly the cases described here.
 */
module ShortcutLaws {
  import opened Bytes
  import opened HttpSyntax
  import opened ParserLaws

  /** `phr_parse_request` and `phr_parse_response` with their `last_len` argument. */
  function RequestSince(s: seq<byte>, max: nat, lastLen: nat): Outcome<RequestHead>
    requires lastLen <= |s|
  {
    if lastLen == 0 then Request(s, max)
    else
      match Complete(s, CompleteStart(lastLen), 0)
      case More => More
      case Bad => Bad
      case Ok(_, _) => Request(s, max)
  }

  function ResponseSince(s: seq<byte>, max: nat, lastLen: nat): Outcome<ResponseHead>
    requires lastLen <= |s|
  {
    if lastLen == 0 then Response(s, max)
    else
      match Complete(s, CompleteStart(lastLen), 0)
      case More => More
      case Bad => Bad
      case Ok(_, _) => Response(s, max)
  }

  /** In s[a..b] every CR is followed by an LF. */
  predicate Closed(s: seq<byte>, a: nat, b: nat) {
    b <= |s| && forall k :: a <= k < b && s[k] == CR ==> k + 1 < b && s[k + 1] == LF
  }

  /** The LF before the last one, when an empty line ends at `p`. */
  predicate EmptyLineEnds(s: seq<byte>, q: nat, p: nat) {
    && q < p <= |s| && s[q] == LF && s[p - 1] == LF
    && (p == q + 2 || (p == q + 3 && s[q + 1] == CR))
  }

  lemma ClosedJoin(s: seq<byte>, a: nat, b: nat, c: nat)
    requires a <= b <= c && Closed(s, a, b) && Closed(s, b, c)
    ensures Closed(s, a, c)
  {
  }

  lemma NewlineClosed(s: seq<byte>, i: nat)
    requires i <= |s| && Newline(s, i).Ok?
    ensures Closed(s, i, Newline(s, i).pos)
  {
  }

  lemma FindClosed(c: Stop, s: seq<byte>, i: nat)
    requires i <= |s|
    ensures Closed(s, i, Find(c, s, i))
  {
    forall k | i <= k < Find(c, s, i)
      ensures s[k] != CR
    {
      assert !Stops(c, s[k]);
    }
  }

  lemma TextLineClosed(s: seq<byte>, i: nat)
    requires i <= |s| && TextLine(s, i).Ok?
    ensures Closed(s, i, TextLine(s, i).pos)
  {
    hide Find;
    var e := Find(EndOfText, s, i);
    FindClosed(EndOfText, s, i);
    NewlineClosed(s, e);
    NewlineMore(s, e);
    ClosedJoin(s, i, e, TextLine(s, i).pos);
  }

  lemma FieldNameClosed(s: seq<byte>, i: nat)
    requires i <= |s| && FieldName(s, i).Ok?
    ensures Closed(s, i, FieldName(s, i).pos)
  {
    hide Find;
    var e := Find(EndOfName, s, i);
    var v := Find(NonBlank, s, e + 1);
    FindClosed(EndOfName, s, i);
    FindClosed(NonBlank, s, e + 1);
    assert s[e] == COLON;
    ClosedJoin(s, i, e, e + 1);
    ClosedJoin(s, i, e + 1, v);
  }

  lemma HeaderLineClosed(s: seq<byte>, i: nat, first: bool)
    requires i < |s| && HeaderLine(s, i, first).Ok?
    ensures Closed(s, i, HeaderLine(s, i, first).pos)
  {
    hide Closed, TextLine, FieldName, TrimmedLen;
    if !first && IsBlank(s[i]) {
      TextLineClosed(s, i);
    } else {
      var v := FieldName(s, i).pos;
      FieldNameBounds(s, i);
      FieldNameClosed(s, i);
      TextLineClosed(s, v);
      TextLineShape(s, v);
      ClosedJoin(s, i, v, HeaderLine(s, i, first).pos);
    }
  }

  /** Header lines end with an empty line, and contain no lone CR. */
  lemma {:induction false} HeadersClosed(s: seq<byte>, i: nat, n: nat, max: nat)
    requires 0 < i <= |s| && s[i - 1] == LF && Headers(s, i, n, max).Ok?
    ensures Closed(s, i, Headers(s, i, n, max).pos)
    ensures exists q: nat :: i - 1 <= q && EmptyLineEnds(s, q, Headers(s, i, n, max).pos)
    decreases |s| - i
  {
    hide Closed, HeaderLine;
    var end := Headers(s, i, n, max).pos;
    if AtNewline(s, i) {
      NewlineClosed(s, i);
      assert EmptyLineEnds(s, i - 1, end);
    } else {
      HeaderLineBounds(s, i, n == 0);
      HeaderLineClosed(s, i, n == 0);
      var j := HeaderLine(s, i, n == 0).pos;
      HeadersClosed(s, j, n + 1, max);
      HeadersBounds(s, j, n + 1, max);
      ClosedJoin(s, i, j, end);
    }
  }

  lemma VersionClosed(s: seq<byte>, i: nat)
    requires i <= |s| && Version(s, i).Ok?
    ensures Closed(s, i, Version(s, i).pos)
  {
    forall k | i <= k < i + 8
      ensures s[k] != CR
    {
      if k < i + 7 { assert s[k] == s[i..i + 7][k - i] == HTTP_1[k - i]; }
    }
  }

  lemma TokenClosed(s: seq<byte>, i: nat)
    requires i <= |s| && Token(s, i).Ok?
    ensures Closed(s, i, Find(NonSpace, s, Token(s, i).pos + 1))
    ensures i < Find(NonSpace, s, Token(s, i).pos + 1) <= |s|
  {
    hide Find;
    var e := Find(EndOfToken, s, i);
    var p := Find(NonSpace, s, e + 1);
    FindClosed(EndOfToken, s, i);
    FindClosed(NonSpace, s, e + 1);
    ClosedJoin(s, i, e, e + 1);
    ClosedJoin(s, i, e + 1, p);
  }

  lemma RequestLineClosed(s: seq<byte>, i: nat)
    requires i <= |s| && RequestLine(s, i).Ok?
    ensures Closed(s, i, RequestLine(s, i).pos)
  {
    hide Closed, Token;
    TokenBounds(s, i);
    TokenClosed(s, i);
    var p := Find(NonSpace, s, Token(s, i).pos + 1);
    TokenBounds(s, p);
    TokenClosed(s, p);
    ClosedJoin(s, i, p, RequestLine(s, i).pos);
  }

  lemma RequestClosed(s: seq<byte>, max: nat)
    requires Request(s, max).Ok?
    ensures Closed(s, 0, Request(s, max).pos)
    ensures exists q: nat :: EmptyLineEnds(s, q, Request(s, max).pos)
  {
    hide Closed, LeadingNewline, RequestLine, Version, Newline, Headers;
    var i, v, e, h := SplitRequest(s, max);
    LeadingClosed(s);
    RequestLineClosed(s, i);
    VersionClosed(s, v);
    NewlineClosed(s, e);
    NewlineMore(s, e);
    HeadersClosed(s, h, 0, max);
    ClosedJoin(s, 0, i, v);
    ClosedJoin(s, 0, v, e);
    ClosedJoin(s, 0, e, h);
    ClosedJoin(s, 0, h, Request(s, max).pos);
  }

  lemma LeadingClosed(s: seq<byte>)
    requires LeadingNewline(s).Ok?
    ensures Closed(s, 0, LeadingNewline(s).pos)
  {
  }

  lemma ReasonClosed(s: seq<byte>, i: nat)
    requires i <= |s| && Reason(s, i).Ok?
    ensures Closed(s, i, Reason(s, i).pos)
    ensures s[Reason(s, i).pos - 1] == LF
  {
    TextLineClosed(s, i);
    NewlineMore(s, Find(EndOfText, s, i));
  }

  lemma ResponseClosed(s: seq<byte>, max: nat)
    requires Response(s, max).Ok?
    ensures Closed(s, 0, Response(s, max).pos)
    ensures exists q: nat :: EmptyLineEnds(s, q, Response(s, max).pos)
  {
    hide Closed, Find, Version, Status, Reason, Headers;
    var e, c, r, h := SplitResponse(s, max);
    VersionClosed(s, 0);
    SpacesClosed(s, e);
    StatusClosed(s, c);
    ReasonClosed(s, r);
    HeadersClosed(s, h, 0, max);
    ClosedJoin(s, 0, e, c);
    ClosedJoin(s, 0, c, r);
    ClosedJoin(s, 0, r, h);
    ClosedJoin(s, 0, h, Response(s, max).pos);
  }

  lemma SpacesClosed(s: seq<byte>, e: nat)
    requires e < |s| && s[e] == SP
    ensures Closed(s, e, Find(NonSpace, s, e + 1))
  {
    FindClosed(NonSpace, s, e + 1);
  }

  lemma StatusClosed(s: seq<byte>, i: nat)
    requires i <= |s| && Status(s, i).Ok?
    ensures Closed(s, i, Status(s, i).pos)
  {
  }

  // ---------- what the completeness check answers ----------

  predicate LoneCrAt(s: seq<byte>, k: nat) {
    k + 1 < |s| && s[k] == CR && s[k + 1] != LF
  }

  /** From `i` on, some CR is followed by a byte other than LF. */
  predicate LoneCr(s: seq<byte>, i: nat) {
    exists k :: i <= k < |s| && LoneCrAt(s, k)
  }

  predicate EmptyLine(s: seq<byte>, i: nat) {
    EmptyLineWithin(s, i, |s|)
  }

  predicate EmptyLineWithin(s: seq<byte>, i: nat, end: nat) {
    exists q, p :: i <= q < p <= end && EmptyLineEnds(s, q, p)
  }

  /** From `i` on, a lone CR comes before any empty line. */
  predicate LoneCrFirst(s: seq<byte>, i: nat) {
    exists k :: i <= k < |s| && LoneCrAt(s, k) && !EmptyLineWithin(s, i, k)
  }

  /** Positions at which neither a lone CR stands nor an empty line begins do not matter. */
  lemma Skip(s: seq<byte>, a: nat, b: nat)
    requires a <= b
    requires forall k :: a <= k < b ==> !LoneCrAt(s, k)
    requires forall k, p :: a <= k < b && k < p <= |s| ==> !EmptyLineEnds(s, k, p)
    ensures LoneCr(s, a) <==> LoneCr(s, b)
    ensures forall end: nat :: end <= |s| ==> (EmptyLineWithin(s, a, end) <==> EmptyLineWithin(s, b, end))
    ensures LoneCrFirst(s, a) <==> LoneCrFirst(s, b)
  {
    hide LoneCrAt, EmptyLineEnds;
  }

  /** The three answers of the check: more, if there is neither a lone CR nor an empty line; malformed,
      if a lone CR comes first. With `count` at 1, the LF in front of `i` may begin the empty line. */
  lemma {:induction false} CompleteExactly(s: seq<byte>, i: nat, count: nat)
    requires count <= i <= |s| && count <= 1 && (count == 1 ==> s[i - 1] == LF)
    ensures Complete(s, i, count).More? <==> !LoneCr(s, i - count) && !EmptyLine(s, i - count)
    ensures Complete(s, i, count).Bad? <==> LoneCrFirst(s, i - count)
    decreases |s| - i
  {
    hide LoneCr, EmptyLineWithin, LoneCrFirst;
    match Newline(s, i)
    case Ok(pos, _) =>
      if count == 1 {
        FoundEmptyLine(s, i - 1, pos);
      } else {
        Skip(s, i, pos - 1);
        CompleteExactly(s, pos, 1);
      }
    case More =>
      NothingLeft(s, i - count);
    case Bad =>
      if s[i] == CR {
        FoundLoneCr(s, i - count, i);
      } else {
        Skip(s, i - count, i + 1);
        CompleteExactly(s, i + 1, 0);
      }
  }

  lemma NothingLeft(s: seq<byte>, a: nat)
    requires a <= |s| <= a + 2 && (a < |s| ==> s[|s| - 1] in {CR, LF})
    requires |s| == a + 2 ==> s[a] == LF && s[a + 1] == CR
    ensures !LoneCr(s, a) && !EmptyLine(s, a) && !LoneCrFirst(s, a)
  {
  }

  lemma FoundEmptyLine(s: seq<byte>, q: nat, p: nat)
    requires EmptyLineEnds(s, q, p)
    ensures EmptyLine(s, q) && !LoneCrFirst(s, q)
  {
    forall k | q <= k < |s| && LoneCrAt(s, k)
      ensures EmptyLineWithin(s, q, k)
    {
      assert p <= k;
    }
  }

  lemma FoundLoneCr(s: seq<byte>, a: nat, k: nat)
    requires a <= k <= a + 1 && LoneCrAt(s, k)
    ensures LoneCr(s, a) && LoneCrFirst(s, a)
  {
  }

  /** The check finds the empty line that ends at `p`, if it starts early enough to see the two
      line endings around it and no lone CR comes before. */
  lemma CompleteFinds(s: seq<byte>, i: nat, q: nat, p: nat)
    requires i <= q && Closed(s, i, p) && EmptyLineEnds(s, q, p)
    ensures Complete(s, i, 0).Ok?
  {
    CompleteExactly(s, i, 0);
    assert EmptyLineWithin(s, i, |s|);
    forall k | i <= k < |s| && LoneCrAt(s, k)
      ensures EmptyLineWithin(s, i, k)
    {
      assert p <= k;
    }
  }

  /** If the first `lastLen` bytes alone ask for more, parsing with the shortcut succeeds exactly
      when parsing without it does, with the same length, slices and headers. */
  lemma RequestShortcutExact(s: seq<byte>, max: nat, lastLen: nat)
    requires 0 < lastLen <= |s| && Request(s[..lastLen], max).More?
    ensures RequestSince(s, max, lastLen).Ok? <==> Request(s, max).Ok?
    ensures Request(s, max).Ok? ==> RequestSince(s, max, lastLen) == Request(s, max)
  {
    hide Closed, Request, Complete;
    if Request(s, max).Ok? {
      var p := Request(s, max).pos;
      RequestLocal(s, s, max) by { AgreeSelf(s, max); }
      if p <= lastLen {
        RequestLocal(s, s[..lastLen], max);
        assert false;
      }
      RequestClosed(s, max);
      var q: nat :| EmptyLineEnds(s, q, p);
      ClosedSuffix(s, CompleteStart(lastLen), p);
      CompleteFinds(s, CompleteStart(lastLen), q, p);
    }
  }

  lemma AgreeSelf(s: seq<byte>, max: nat)
    requires Request(s, max).Ok?
    ensures Agree(s, s, Request(s, max).pos)
  {
    var i, v, e, h := SplitRequest(s, max);
  }

  lemma AgreeSelfResponse(s: seq<byte>, max: nat)
    requires Response(s, max).Ok?
    ensures Agree(s, s, Response(s, max).pos)
  {
    var e, c, r, h := SplitResponse(s, max);
  }

  lemma ClosedSuffix(s: seq<byte>, i: nat, p: nat)
    requires Closed(s, 0, p)
    ensures Closed(s, i, p)
  {
  }

  lemma ResponseShortcutExact(s: seq<byte>, max: nat, lastLen: nat)
    requires 0 < lastLen <= |s| && Response(s[..lastLen], max).More?
    ensures ResponseSince(s, max, lastLen).Ok? <==> Response(s, max).Ok?
    ensures Response(s, max).Ok? ==> ResponseSince(s, max, lastLen) == Response(s, max)
  {
    hide Closed, Response, Complete;
    if Response(s, max).Ok? {
      var p := Response(s, max).pos;
      ResponseLocal(s, s, max) by { AgreeSelfResponse(s, max); }
      if p <= lastLen {
        ResponseLocal(s, s[..lastLen], max);
        assert false;
      }
      ResponseClosed(s, max);
      var q: nat :| EmptyLineEnds(s, q, p);
      ClosedSuffix(s, CompleteStart(lastLen), p);
      CompleteFinds(s, CompleteStart(lastLen), q, p);
    }
  }

  // ---------- when the shortcut changes the verdict ----------

  /** The inputs on which the shortcut does not matter, given the verdict of the plain parser: a
      rejection needs a lone CR or an empty line behind the point where the check starts, and a request
      for more must not have a lone CR there before any empty line. */
  predicate ShortcutAgrees<T>(plain: Outcome<T>, s: seq<byte>, lastLen: nat) {
    var start := if lastLen < 3 then 0 else lastLen - 3;
    match plain
    case Ok(_, _) => true
    case Bad => LoneCr(s, start) || EmptyLine(s, start)
    case More => !LoneCrFirst(s, start)
  }

  /** Exactly when parsing with the shortcut gives the same as parsing without it, given that an accepted
      head was not complete in the bytes seen before; and where it does
      not, a rejection has become "more", or "more" a rejection. */
  lemma RequestShortcutAgrees(s: seq<byte>, max: nat, lastLen: nat)
    requires 0 < lastLen <= |s| && (Request(s, max).Ok? ==> Request(s[..lastLen], max).More?)
    ensures RequestSince(s, max, lastLen) == Request(s, max) <==> ShortcutAgrees(Request(s, max), s, lastLen)
    ensures !ShortcutAgrees(Request(s, max), s, lastLen) ==>
              RequestSince(s, max, lastLen) == if Request(s, max).Bad? then More else Bad
  {
    hide Request, Complete, LoneCr, LoneCrFirst, EmptyLineWithin;
    if Request(s, max).Ok? { RequestShortcutExact(s, max, lastLen); }
    CompleteExactly(s, CompleteStart(lastLen), 0);
  }

  lemma ResponseShortcutAgrees(s: seq<byte>, max: nat, lastLen: nat)
    requires 0 < lastLen <= |s| && (Response(s, max).Ok? ==> Response(s[..lastLen], max).More?)
    ensures ResponseSince(s, max, lastLen) == Response(s, max) <==> ShortcutAgrees(Response(s, max), s, lastLen)
    ensures !ShortcutAgrees(Response(s, max), s, lastLen) ==>
              ResponseSince(s, max, lastLen) == if Response(s, max).Bad? then More else Bad
  {
    hide Response, Complete, LoneCr, LoneCrFirst, EmptyLineWithin;
    if Response(s, max).Ok? { ResponseShortcutExact(s, max, lastLen); }
    CompleteExactly(s, CompleteStart(lastLen), 0);
  }

  /** A lone CR in an input that is not accepted yet cannot be made good by any later bytes. */
  lemma RequestDoomed(s: seq<byte>, t: seq<byte>, max: nat)
    requires LoneCr(s, 0) && !Request(s, max).Ok? && Extends(s, t)
    ensures !Request(t, max).Ok?
  {
    hide Request;
    var k :| 0 <= k < |s| && LoneCrAt(s, k);
    if Request(t, max).Ok? {
      RequestClosed(t, max);
      assert t[k] == CR && t[k + 1] != LF;
      RequestLocal(t, s, max);
    }
  }

  lemma ResponseDoomed(s: seq<byte>, t: seq<byte>, max: nat)
    requires LoneCr(s, 0) && !Response(s, max).Ok? && Extends(s, t)
    ensures !Response(t, max).Ok?
  {
    hide Response;
    var k :| 0 <= k < |s| && LoneCrAt(s, k);
    if Response(t, max).Ok? {
      ResponseClosed(t, max);
      assert t[k] == CR && t[k + 1] != LF;
      ResponseLocal(t, s, max);
    }
  }

  /** A rejection by the shortcut is as final as one by the parser, also where it comes earlier: no
      extension of the input is accepted. */
  lemma RequestShortcutRejects(s: seq<byte>, t: seq<byte>, max: nat, lastLen: nat)
    requires 0 < lastLen <= |s| && Request(s[..lastLen], max).More? && RequestSince(s, max, lastLen).Bad?
    requires Extends(s, t)
    ensures !Request(t, max).Ok?
  {
    hide Request, Complete, EmptyLineWithin;
    RequestShortcutExact(s, max, lastLen);
    CompleteExactly(s, CompleteStart(lastLen), 0);
    if Request(s, max).Bad? {
      RequestRejects(s, t, max);
    } else {
      RequestDoomed(s, t, max);
    }
  }

  lemma ResponseShortcutRejects(s: seq<byte>, t: seq<byte>, max: nat, lastLen: nat)
    requires 0 < lastLen <= |s| && Response(s[..lastLen], max).More? && ResponseSince(s, max, lastLen).Bad?
    requires Extends(s, t)
    ensures !Response(t, max).Ok?
  {
    hide Response, Complete, EmptyLineWithin;
    ResponseShortcutExact(s, max, lastLen);
    CompleteExactly(s, CompleteStart(lastLen), 0);
    if Response(s, max).Bad? {
      ResponseRejects(s, t, max);
    } else {
      ResponseDoomed(s, t, max);
    }
  }

  // ---------- both differences do occur ----------

  /** "A" and a control byte: malformed, but the shortcut goes on asking for more. */
  lemma ShortcutDelaysRejection(max: nat)
    ensures var s: seq<byte> := [65, 1];
            Request(s[..1], max).More? && Request(s, max).Bad? && RequestSince(s, max, 1).More?
  {
    var s: seq<byte> := [65, 1];
    var t: seq<byte> := [65];
    assert s[..1] == t;
    assert Find(EndOfToken, t, 0) == 1;
    assert Find(EndOfToken, s, 0) == 1;
    CompleteExactly(s, 0, 0);
  }

  /** "A B ", CR and "X": the parser still waits for a version, the shortcut already refuses. */
  lemma ShortcutHastensRejection(max: nat)
    ensures var s: seq<byte> := [65, 32, 66, 32, 13, 88];
            Request(s[..1], max).More? && Request(s, max).More? && RequestSince(s, max, 1).Bad?
  {
    hide Complete;
    var s: seq<byte> := [65, 32, 66, 32, 13, 88];
    var t: seq<byte> := [65];
    assert s[..1] == t;
    assert Find(EndOfToken, t, 0) == 1;
    assert Find(EndOfToken, s, 0) == 1 && Find(NonSpace, s, 2) == 2;
    assert Find(EndOfToken, s, 2) == 3 && Find(NonSpace, s, 4) == 4;
    CompleteExactly(s, 0, 0);
    assert LoneCrAt(s, 4);
  }

  /** The same for responses: nine bytes that are no version, and a lone CR in fewer bytes. */
  lemma ResponseShortcutDiffers(max: nat)
    ensures var s: seq<byte> := [65, 65, 65, 65, 65, 65, 65, 65, 65];
            Response(s[..1], max).More? && Response(s, max).Bad? && ResponseSince(s, max, 1).More?
    ensures var s: seq<byte> := [13, 88];
            Response(s[..1], max).More? && Response(s, max).More? && ResponseSince(s, max, 1).Bad?
  {
    hide Complete;
    var s: seq<byte> := [65, 65, 65, 65, 65, 65, 65, 65, 65];
    assert s[0..7][0] != HTTP_1[0];
    CompleteExactly(s, 0, 0);
    var t: seq<byte> := [13, 88];
    CompleteExactly(t, 0, 0);
    assert LoneCrAt(t, 0);
  }
}
