/**
 Laws of the incremental parser: its verdicts are stable when bytes are appended, an accepted head
 depends on its own bytes only, every strict prefix of it asks for more, and the shortcut for
 already seen bytes is exact.

 `Agree(s, t, n)` says that two inputs start with the same `n` bytes. Each `...Local` lemma says two
 things about one piece of the grammar: success depends only on the bytes it looked at, and a
 rejection survives any extension of the input.
 */
module ParserLaws {
  import opened Bytes
  import opened HttpSyntax

  predicate Agree(s: seq<byte>, t: seq<byte>, n: nat) {
    n <= |s| && n <= |t| && forall k :: 0 <= k < n ==> s[k] == t[k]
  }

  predicate Extends(s: seq<byte>, t: seq<byte>) {
    Agree(s, t, |s|)
  }

  lemma {:induction false} FindLocal(c: Stop, s: seq<byte>, t: seq<byte>, i: nat)
    requires i <= |s|
    requires Find(c, s, i) < |s| && Agree(s, t, Find(c, s, i) + 1)
    ensures Find(c, t, i) == Find(c, s, i)
    decreases |s| - i
  {
    if !Stops(c, s[i]) {
      FindLocal(c, s, t, i + 1);
    }
  }

  lemma NewlineLocal(s: seq<byte>, t: seq<byte>, i: nat)
    requires i <= |s| && i <= |t|
    ensures Newline(s, i).Ok? && Agree(s, t, Newline(s, i).pos) ==> Newline(t, i) == Newline(s, i)
    ensures Newline(s, i).Bad? && Extends(s, t) ==> Newline(t, i).Bad?
  {
  }

  lemma TextLineLocal(s: seq<byte>, t: seq<byte>, i: nat)
    requires i <= |s| && i <= |t|
    ensures TextLine(s, i).Ok? && Agree(s, t, TextLine(s, i).pos) ==> TextLine(t, i) == TextLine(s, i)
    ensures TextLine(s, i).Bad? && Extends(s, t) ==> TextLine(t, i).Bad?
  {
    var e := Find(EndOfText, s, i);
    if e < |s| && Agree(s, t, e + 1) {
      FindLocal(EndOfText, s, t, i);
      NewlineLocal(s, t, e);
    }
  }

  lemma TokenLocal(s: seq<byte>, t: seq<byte>, i: nat)
    requires i <= |s| && i <= |t|
    ensures Token(s, i).Ok? && Agree(s, t, Token(s, i).pos + 1) ==> Token(t, i) == Token(s, i)
    ensures Token(s, i).Bad? && Extends(s, t) ==> Token(t, i).Bad?
  {
    var e := Find(EndOfToken, s, i);
    if e < |s| && Agree(s, t, e + 1) {
      FindLocal(EndOfToken, s, t, i);
    }
  }

  lemma VersionLocal(s: seq<byte>, t: seq<byte>, i: nat)
    requires i <= |s| && i <= |t|
    ensures Version(s, i).Ok? && Agree(s, t, Version(s, i).pos + 1) ==> Version(t, i) == Version(s, i)
    ensures Version(s, i).Bad? && Extends(s, t) ==> Version(t, i).Bad?
  {
    if |s| - i >= 9 && Agree(s, t, i + 9) {
      assert s[i..i + 7] == t[i..i + 7];
    }
  }

  lemma {:induction false} TrimmedLenLocal(s: seq<byte>, t: seq<byte>, start: nat, len: nat)
    requires Agree(s, t, start + len)
    ensures TrimmedLen(t, start, len) == TrimmedLen(s, start, len)
  {
    if len > 0 {
      TrimmedLenLocal(s, t, start, len - 1);
    }
  }

  lemma ValueLocal(s: seq<byte>, t: seq<byte>, i: nat)
    requires i <= |s| && i <= |t|
    ensures Value(s, i).Ok? && Agree(s, t, Value(s, i).pos) ==> Value(t, i) == Value(s, i)
    ensures Value(s, i).Bad? && Extends(s, t) ==> Value(t, i).Bad?
  {
    TextLineLocal(s, t, i);
    match TextLine(s, i)
    case Ok(pos, text) =>
      if Agree(s, t, pos) { TrimmedLenLocal(s, t, text.start, text.len); }
    case _ =>
  }

  lemma FieldNameLocal(s: seq<byte>, t: seq<byte>, i: nat)
    requires i <= |s| && i <= |t|
    ensures FieldName(s, i).Ok? && Agree(s, t, FieldName(s, i).pos + 1) ==> FieldName(t, i) == FieldName(s, i)
    ensures FieldName(s, i).Bad? && Extends(s, t) ==> FieldName(t, i).Bad?
  {
    var e := Find(EndOfName, s, i);
    if e < |s| && Agree(s, t, e + 1) {
      FindLocal(EndOfName, s, t, i);
      if s[e] == COLON {
        var v := Find(NonBlank, s, e + 1);
        if v < |s| && Agree(s, t, v + 1) {
          FindLocal(NonBlank, s, t, e + 1);
        }
      }
    }
  }

  lemma ValueAdvances(s: seq<byte>, i: nat)
    requires i <= |s|
    ensures Value(s, i).Ok? ==> i < Value(s, i).pos <= |s|
  {
  }

  lemma HeaderLineLocal(s: seq<byte>, t: seq<byte>, i: nat, first: bool)
    requires i < |s| && i < |t| && s[i] == t[i]
    ensures HeaderLine(s, i, first).Ok? && Agree(s, t, HeaderLine(s, i, first).pos) ==>
              HeaderLine(t, i, first) == HeaderLine(s, i, first)
    ensures HeaderLine(s, i, first).Bad? && Extends(s, t) ==> HeaderLine(t, i, first).Bad?
  {
    hide Value, FieldName;
    if !first && IsBlank(s[i]) {
      ValueLocal(s, t, i);
    } else {
      FieldNameLocal(s, t, i);
      if FieldName(s, i).Ok? {
        FieldNameBounds(s, i);
        var v := FieldName(s, i).pos;
        ValueAdvances(s, v);
        if v <= |t| {
          ValueLocal(s, t, v);
        }
      }
    }
  }

  lemma FieldNameBounds(s: seq<byte>, i: nat)
    requires i <= |s|
    ensures FieldName(s, i).Ok? ==> i < FieldName(s, i).pos < |s|
  {
  }

  lemma {:induction false} HeadersBounds(s: seq<byte>, i: nat, n: nat, max: nat)
    requires i <= |s|
    ensures Headers(s, i, n, max).Ok? ==> i < Headers(s, i, n, max).pos <= |s|
    decreases |s| - i
  {
    hide HeaderLine;
    if !AtNewline(s, i) && n != max && HeaderLine(s, i, n == 0).Ok? {
      HeaderLineBounds(s, i, n == 0);
      HeadersBounds(s, HeaderLine(s, i, n == 0).pos, n + 1, max);
    }
  }

  lemma {:induction false} HeadersLocal(s: seq<byte>, t: seq<byte>, i: nat, n: nat, max: nat)
    requires i <= |s| && i <= |t|
    ensures Headers(s, i, n, max).Ok? && Agree(s, t, Headers(s, i, n, max).pos) ==>
              Headers(t, i, n, max) == Headers(s, i, n, max)
    ensures Headers(s, i, n, max).Bad? && Extends(s, t) ==> Headers(t, i, n, max).Bad?
    decreases |s| - i
  {
    hide HeaderLine, Newline;
    var r := Headers(s, i, n, max);
    HeadersBounds(s, i, n, max);
    if r.More? || i == |s| || i == |t| || s[i] != t[i] {
      NewlineLocal(s, t, i);
      NewlineMore(s, i);
    } else if AtNewline(s, i) {
      NewlineLocal(s, t, i);
    } else if n != max {
      HeaderLineLocal(s, t, i, n == 0);
      HeaderLineBounds(s, i, n == 0);
      HeaderLineBounds(t, i, n == 0);
      var h := HeaderLine(s, i, n == 0);
      if h.Ok? {
        HeadersBounds(s, h.pos, n + 1, max);
      }
      if h.Ok? && h.pos <= |t| {
        HeadersLocal(s, t, h.pos, n + 1, max);
      }
    }
  }

  lemma NewlineMore(s: seq<byte>, i: nat)
    requires i <= |s|
    ensures i == |s| ==> Newline(s, i).More?
    ensures Newline(s, i).Ok? ==> i < Newline(s, i).pos <= |s| && s[Newline(s, i).pos - 1] == LF
  {
  }

  lemma LeadingLocal(s: seq<byte>, t: seq<byte>)
    ensures LeadingNewline(s).Ok? && Agree(s, t, LeadingNewline(s).pos + 1) ==> LeadingNewline(t) == LeadingNewline(s)
    ensures LeadingNewline(s).Bad? && Extends(s, t) ==> LeadingNewline(t).Bad?
  {
  }

  lemma RequestLineBounds(s: seq<byte>, i: nat)
    requires i <= |s|
    ensures RequestLine(s, i).Ok? ==>
              var (m, t) := RequestLine(s, i).value;
              i < RequestLine(s, i).pos <= |s| && m.In(s) && t.In(s)
  {
  }

  /** The second half of a request line: spaces, the target, spaces. */
  function Target(s: seq<byte>, e: nat): Outcome<Slice>
    requires e < |s|
  {
    match Token(s, Find(NonSpace, s, e + 1))
    case More => More
    case Bad => Bad
    case Ok(f, t) => Ok(Find(NonSpace, s, f + 1), t)
  }

  lemma TargetLocal(s: seq<byte>, t: seq<byte>, e: nat)
    requires e < |s| && e < |t|
    ensures Target(s, e).Ok? && Target(s, e).pos < |s| && Agree(s, t, Target(s, e).pos + 1) ==>
              Target(t, e) == Target(s, e)
    ensures Target(s, e).Bad? && Extends(s, t) ==> Target(t, e).Bad?
    ensures Target(s, e).Ok? && Extends(s, t) ==> Target(t, e).Ok? && Target(t, e).value == Target(s, e).value
  {
    hide Token, Find;
    TokenBounds(s, Find(NonSpace, s, e + 1));
    if Find(NonSpace, s, e + 1) == |s| { TokenEnd(s, |s|); }
    var p := Find(NonSpace, s, e + 1);
    if p < |s| && Agree(s, t, p + 1) {
      FindLocal(NonSpace, s, t, e + 1);
      TokenLocal(s, t, p);
      if Token(s, p).Ok? {
        var f := Token(s, p).pos;
        var v := Find(NonSpace, s, f + 1);
        if v < |s| && Agree(s, t, v + 1) {
          FindLocal(NonSpace, s, t, f + 1);
        }
      }
    }
  }

  lemma TokenEnd(s: seq<byte>, i: nat)
    requires i == |s|
    ensures Token(s, i).More?
  {
  }

  lemma TargetBounds(s: seq<byte>, e: nat)
    requires e < |s|
    ensures Target(s, e).Ok? ==> e < Target(s, e).pos <= |s|
  {
  }

  lemma TokenBounds(s: seq<byte>, i: nat)
    requires i <= |s|
    ensures Token(s, i).Ok? ==> i <= Token(s, i).pos < |s|
  {
  }

  lemma RequestLineIs(s: seq<byte>, i: nat)
    requires i <= |s|
    ensures Token(s, i).Ok? ==> Token(s, i).pos < |s|
    ensures RequestLine(s, i) ==
            match Token(s, i)
            case More => More
            case Bad => Bad
            case Ok(e, m) =>
              match Target(s, e)
              case More => More
              case Bad => Bad
              case Ok(v, t) => if m.len == 0 || t.len == 0 then Bad else Ok(v, (m, t))
  {
  }

  lemma RequestLineLocal(s: seq<byte>, t: seq<byte>, i: nat)
    requires i <= |s| && i <= |t|
    ensures RequestLine(s, i).Ok? && RequestLine(s, i).pos < |s| && Agree(s, t, RequestLine(s, i).pos + 1) ==>
              RequestLine(t, i) == RequestLine(s, i)
    ensures RequestLine(s, i).Bad? && Extends(s, t) ==> RequestLine(t, i).Bad?
  {
    hide Token, Target, RequestLine;
    RequestLineIs(s, i);
    RequestLineIs(t, i);
    TokenLocal(s, t, i);
    TokenBounds(s, i);
    if Token(s, i).Ok? {
      var e := Token(s, i).pos;
      TargetBounds(s, e);
      if Agree(s, t, e + 1) {
        TargetLocal(s, t, e);
      }
    }
  }

  lemma VersionBounds(s: seq<byte>, i: nat)
    requires i <= |s|
    ensures Version(s, i).Ok? ==> Version(s, i).pos == i + 8 < |s|
    ensures i == |s| ==> Version(s, i).More?
  {
  }

  lemma LeadingBounds(s: seq<byte>)
    ensures LeadingNewline(s).Ok? ==> LeadingNewline(s).pos <= |s|
    ensures s == [] ==> LeadingNewline(s).More?
  {
  }

  /** How a successful request parse breaks into its pieces. */
  ghost predicate RequestSplit(s: seq<byte>, max: nat, i: nat, v: nat, e: nat, h: nat, end: nat) {
    && i <= |s| && LeadingNewline(s).Ok? && LeadingNewline(s).pos == i
    && RequestLine(s, i).Ok? && RequestLine(s, i).pos == v && i < v <= |s|
    && Version(s, v).Ok? && Version(s, v).pos == e && v < e < |s|
    && Newline(s, e).Ok? && Newline(s, e).pos == h && e < h <= |s|
    && Headers(s, h, 0, max).Ok? && Headers(s, h, 0, max).pos == end && h < end <= |s|
    && Request(s, max) == Ok(end, RequestHead(RequestLine(s, i).value.0, RequestLine(s, i).value.1,
                                              Version(s, v).value, Headers(s, h, 0, max).value))
  }

  lemma SplitRequest(s: seq<byte>, max: nat) returns (i: nat, v: nat, e: nat, h: nat)
    requires Request(s, max).Ok?
    ensures RequestSplit(s, max, i, v, e, h, Request(s, max).pos)
  {
    hide LeadingNewline, RequestLine, Version, Newline, Headers;
    LeadingBounds(s);
    i := LeadingNewline(s).pos;
    RequestLineBounds(s, i);
    v := RequestLine(s, i).pos;
    VersionBounds(s, v);
    e := Version(s, v).pos;
    NewlineMore(s, e);
    h := Newline(s, e).pos;
    HeadersBounds(s, h, 0, max);
  }

  /** An accepted request head depends on its own bytes only. */
  lemma RequestLocal(s: seq<byte>, t: seq<byte>, max: nat)
    requires Request(s, max).Ok? && Agree(s, t, Request(s, max).pos)
    ensures Request(t, max) == Request(s, max)
    ensures 0 < Request(s, max).pos <= |s|
  {
    hide LeadingNewline, RequestLine, Version, Newline, Headers;
    var i, v, e, h := SplitRequest(s, max);
    LeadingLocal(s, t);
    RequestLineLocal(s, t, i);
    VersionLocal(s, t, v);
    NewlineLocal(s, t, e);
    HeadersLocal(s, t, h, 0, max);
  }

  /** A rejection is final, whatever arrives later. */
  lemma RequestRejects(s: seq<byte>, t: seq<byte>, max: nat)
    requires Request(s, max).Bad? && Extends(s, t)
    ensures Request(t, max).Bad?
  {
    hide LeadingNewline, RequestLine, Version, Newline, Headers;
    LeadingLocal(s, t);
    LeadingBounds(s);
    if LeadingNewline(s).Ok? {
      var i := LeadingNewline(s).pos;
      if i == |s| { RequestLineEnd(s, i); }
      RequestLineLocal(s, t, i);
      RequestLineBounds(s, i);
      if RequestLine(s, i).Ok? {
        var v := RequestLine(s, i).pos;
        VersionBounds(s, v);
        VersionLocal(s, t, v);
        if Version(s, v).Ok? {
          var e := Version(s, v).pos;
          NewlineLocal(s, t, e);
          NewlineMore(s, e);
          if Newline(s, e).Ok? {
            HeadersLocal(s, t, Newline(s, e).pos, 0, max);
          }
        }
      }
    }
  }

  lemma RequestLineEnd(s: seq<byte>, i: nat)
    requires i == |s|
    ensures RequestLine(s, i).More?
  {
  }

  /** Appending bytes never changes a verdict other than "more": not a rejection, and not the
      length, slices or headers of an accepted head. */
  lemma RequestStable(s: seq<byte>, t: seq<byte>, max: nat)
    requires Extends(s, t) && !Request(s, max).More?
    ensures Request(t, max) == Request(s, max)
  {
    if Request(s, max).Ok? {
      var i, v, e, h := SplitRequest(s, max);
      RequestLocal(s, t, max);
    } else {
      RequestRejects(s, t, max);
    }
  }

  /** The head alone is accepted as it stands, and every strict prefix of it asks for more. */
  lemma RequestPrefixes(s: seq<byte>, max: nat, n: nat)
    requires Request(s, max).Ok? && n <= Request(s, max).pos
    ensures Request(s, max).pos <= |s|
    ensures Request(s[..n], max) == if n == Request(s, max).pos then Request(s, max) else More
  {
    var i, v, e, h := SplitRequest(s, max);
    var p := s[..n];
    if n == Request(s, max).pos {
      RequestLocal(s, p, max);
    } else if Request(p, max) != More {
      RequestStable(p, s, max);
      var _, _, _, _ := SplitRequest(p, max);
      assert false;
    }
  }

  // ---------- responses ----------

  lemma StatusLocal(s: seq<byte>, t: seq<byte>, i: nat)
    requires i <= |s| && i <= |t|
    ensures Status(s, i).Ok? && Agree(s, t, Status(s, i).pos + 1) ==> Status(t, i) == Status(s, i)
    ensures Status(s, i).Bad? && Extends(s, t) ==> Status(t, i).Bad?
    ensures Status(s, i).Ok? ==> Status(s, i).pos == i + 3 < |s|
    ensures i == |s| ==> Status(s, i).More?
  {
  }

  lemma ReasonLocal(s: seq<byte>, t: seq<byte>, i: nat)
    requires i <= |s| && i <= |t|
    ensures Reason(s, i).Ok? && Agree(s, t, Reason(s, i).pos) ==> Reason(t, i) == Reason(s, i)
    ensures Reason(s, i).Bad? && Extends(s, t) ==> Reason(t, i).Bad?
    ensures Reason(s, i).Ok? ==> i < Reason(s, i).pos <= |s|
  {
    TextLineLocal(s, t, i);
    TextLineShape(s, i);
    match TextLine(s, i)
    case Ok(pos, text) =>
      if Agree(s, t, pos) && text.len != 0 && s[i] == SP {
        var start := Find(NonSpace, s, i);
        assert start <= i + text.len < pos by {
          assert s[i + text.len] != SP;
        }
        FindLocal(NonSpace, s, t, i);
      }
    case _ =>
  }

  lemma TextLineShape(s: seq<byte>, i: nat)
    requires i <= |s|
    ensures TextLine(s, i).Ok? ==>
              && TextLine(s, i).value.start == i
              && i + TextLine(s, i).value.len < TextLine(s, i).pos <= |s|
              && s[i + TextLine(s, i).value.len] in {CR, LF}
  {
  }

  ghost predicate ResponseSplit(s: seq<byte>, max: nat, e: nat, c: nat, r: nat, h: nat, end: nat) {
    && Version(s, 0).Ok? && Version(s, 0).pos == e && e < |s| && s[e] == SP
    && c == Find(NonSpace, s, e + 1) && Status(s, c).Ok? && Status(s, c).pos == r && c < r < |s|
    && Reason(s, r).Ok? && Reason(s, r).pos == h && r < h <= |s|
    && Headers(s, h, 0, max).Ok? && Headers(s, h, 0, max).pos == end && h < end <= |s|
    && Response(s, max) == Ok(end, ResponseHead(Version(s, 0).value, Status(s, c).value, Reason(s, r).value,
                                                Headers(s, h, 0, max).value))
  }

  lemma SplitResponse(s: seq<byte>, max: nat) returns (e: nat, c: nat, r: nat, h: nat)
    requires Response(s, max).Ok?
    ensures ResponseSplit(s, max, e, c, r, h, Response(s, max).pos)
  {
    hide Version, Status, Reason, Headers, Find;
    VersionBounds(s, 0);
    e := Version(s, 0).pos;
    c := Find(NonSpace, s, e + 1);
    StatusLocal(s, s, c);
    r := Status(s, c).pos;
    ReasonLocal(s, s, r);
    h := Reason(s, r).pos;
    HeadersBounds(s, h, 0, max);
  }

  lemma ResponseLocal(s: seq<byte>, t: seq<byte>, max: nat)
    requires Response(s, max).Ok? && Agree(s, t, Response(s, max).pos)
    ensures Response(t, max) == Response(s, max)
    ensures 0 < Response(s, max).pos <= |s|
  {
    hide Version, Status, Reason, Headers, Find;
    var e, c, r, h := SplitResponse(s, max);
    VersionLocal(s, t, 0);
    FindLocal(NonSpace, s, t, e + 1);
    StatusLocal(s, t, c);
    ReasonLocal(s, t, r);
    HeadersLocal(s, t, h, 0, max);
  }

  lemma ResponseRejects(s: seq<byte>, t: seq<byte>, max: nat)
    requires Response(s, max).Bad? && Extends(s, t)
    ensures Response(t, max).Bad?
  {
    hide Version, Status, Reason, Headers, Find;
    VersionLocal(s, t, 0);
    VersionBounds(s, 0);
    if Version(s, 0).Ok? {
      var e := Version(s, 0).pos;
      if s[e] == SP {
        var c := Find(NonSpace, s, e + 1);
        StatusLocal(s, t, c);
        if c < |s| {
          FindLocal(NonSpace, s, t, e + 1);
        }
        if Status(s, c).Ok? {
          var r := Status(s, c).pos;
          ReasonLocal(s, t, r);
          if Reason(s, r).Ok? {
            HeadersLocal(s, t, Reason(s, r).pos, 0, max);
          }
        }
      }
    }
  }

  lemma ResponseStable(s: seq<byte>, t: seq<byte>, max: nat)
    requires Extends(s, t) && !Response(s, max).More?
    ensures Response(t, max) == Response(s, max)
  {
    if Response(s, max).Ok? {
      var e, c, r, h := SplitResponse(s, max);
      ResponseLocal(s, t, max);
    } else {
      ResponseRejects(s, t, max);
    }
  }

  lemma ResponsePrefixes(s: seq<byte>, max: nat, n: nat)
    requires Response(s, max).Ok? && n <= Response(s, max).pos
    ensures Response(s, max).pos <= |s|
    ensures Response(s[..n], max) == if n == Response(s, max).pos then Response(s, max) else More
  {
    var e, c, r, h := SplitResponse(s, max);
    var p := s[..n];
    if n == Response(s, max).pos {
      ResponseLocal(s, p, max);
    } else if Response(p, max) != More {
      ResponseStable(p, s, max);
      var _, _, _, _ := SplitResponse(p, max);
      assert false;
    }
  }
}
