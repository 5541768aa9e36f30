/**
 The request and response parser itself: it walks the input once, fills the caller's header array
 and reports the slices it found. Every method is proved to agree with its function in `HttpSyntax`.
 */
module Parser {
  import opened Bytes
  import opened HttpSyntax
  import opened ParserLaws
  import opened ShortcutLaws
  import opened Scanners

  method ParseHttpVersion(s: seq<byte>, start: nat) returns (r: Outcome<nat>)
    requires start <= |s|
    ensures r == Version(s, start)
  {
    if |s| - start < 9 {
      return More;
    }
    var i := 0;
    while i < |HTTP_1|
      invariant i <= |HTTP_1| && s[start..start + i] == HTTP_1[..i]
    {
      if s[start + i] != HTTP_1[i] {
        assert s[start..start + 7][i] != HTTP_1[i];
        return Bad;
      }
      assert s[start..start + i + 1] == s[start..start + i] + [s[start + i]];
      assert HTTP_1[..i + 1] == HTTP_1[..i] + [HTTP_1[i]];
      i := i + 1;
    }
    assert HTTP_1[..7] == HTTP_1;
    if !IsDigit(s[start + 7]) {
      return Bad;
    }
    r := Ok(start + 8, Digit(s[start + 7]));
  }

  /** Removes the blanks at the end of a value. */
  method TrimValue(s: seq<byte>, value: Slice) returns (len: nat)
    requires value.In(s)
    ensures len == TrimmedLen(s, value.start, value.len)
  {
    len := value.len;
    while len != 0
      invariant len <= value.len
      invariant TrimmedLen(s, value.start, len) == TrimmedLen(s, value.start, value.len)
    {
      var c := s[value.start + len - 1];
      if !(c == SP || c == HT) {
        break;
      }
      len := len - 1;
    }
  }

  method ParseHeaderLine(s: seq<byte>, start: nat, first: bool, simd: bool) returns (r: Outcome<Header>)
    requires start < |s|
    ensures r == HeaderLine(s, start, first)
  {
    hide TextLine, FieldName, TrimmedLen;
    var i, named, name := start, false, NO_NAME;
    if first || !(s[start] == SP || s[start] == HT) {
      var n := ParseName(s, start, simd);
      FieldNameBounds(s, start);
      match n {
        case More => return More;
        case Bad => return Bad;
        case Ok(pos, slice) => i, named, name := pos, true, slice;
      }
    }
    var text := GetTokenToEol(s, i, simd);
    TextLineShape(s, i);
    match text {
      case More => return More;
      case Bad => return Bad;
      case Ok(pos, value) =>
        var len := TrimValue(s, value);
        r := Ok(pos, Header(named, name, Slice(value.start, len)));
    }
  }

  /** A parse of header lines that follows the headers `hs` already read. */
  function Prepend(hs: seq<Header>, r: Outcome<seq<Header>>): Outcome<seq<Header>> {
    match r
    case Ok(pos, more) => Ok(pos, hs + more)
    case More => More
    case Bad => Bad
  }

  lemma HeadersStep(s: seq<byte>, i: nat, hs: seq<Header>, max: nat)
    requires i <= |s|
    ensures i == |s| ==> Prepend(hs, Headers(s, i, |hs|, max)) == More
    ensures i < |s| && (s[i] == CR || s[i] == LF) ==>
              Prepend(hs, Headers(s, i, |hs|, max)) ==
              match Newline(s, i) case Ok(pos, _) => Ok(pos, hs) case More => More case Bad => Bad
    ensures i < |s| && s[i] != CR && s[i] != LF && |hs| == max ==> Prepend(hs, Headers(s, i, |hs|, max)) == Bad
    ensures i < |s| && s[i] != CR && s[i] != LF && |hs| != max ==>
              match HeaderLine(s, i, |hs| == 0)
              case More => Prepend(hs, Headers(s, i, |hs|, max)) == More
              case Bad => Prepend(hs, Headers(s, i, |hs|, max)) == Bad
              case Ok(pos, h) =>
                && i < pos <= |s|
                && Prepend(hs, Headers(s, i, |hs|, max)) == Prepend(hs + [h], Headers(s, pos, |hs| + 1, max))
  {
    hide HeaderLine;
    if i < |s| {
      HeaderLineBounds(s, i, |hs| == 0);
      if AtNewline(s, i) {
        assert hs + [] == hs;
      } else if |hs| != max && HeaderLine(s, i, |hs| == 0).Ok? {
        var pos, h := HeaderLine(s, i, |hs| == 0).pos, HeaderLine(s, i, |hs| == 0).value;
        match Headers(s, pos, |hs| + 1, max)
        case Ok(_, more) => assert hs + ([h] + more) == hs + [h] + more;
        case _ =>
      }
    }
  }

  /** `parse_headers`: `n` headers are stored; at most `max` fit. */
  method ParseHeaders(s: seq<byte>, start: nat, headers: array<Header>, max: nat, simd: bool)
    returns (r: Outcome<()>, n: nat)
    requires start <= |s| && max <= headers.Length
    modifies headers
    ensures n <= max
    ensures Headers(s, start, 0, max) ==
            match r case Ok(pos, _) => Ok(pos, headers[..n]) case More => More case Bad => Bad
  {
    hide Headers, HeaderLine, Prepend;
    var i := start;
    n := 0;
    PrependNothing(Headers(s, start, 0, max));
    assert headers[..0] == [];
    while true
      invariant start <= i <= |s| && n <= max
      invariant Headers(s, start, 0, max) == Prepend(headers[..n], Headers(s, i, n, max))
      decreases |s| - i
    {
      HeadersStep(s, i, headers[..n], max);
      if i == |s| {
        return More, n;
      }
      if s[i] == CR {
        i := i + 1;
        if i == |s| {
          return More, n;
        }
        if s[i] != LF {
          return Bad, n;
        }
        return Ok(i + 1, ()), n;
      } else if s[i] == LF {
        return Ok(i + 1, ()), n;
      }
      if n == max {
        return Bad, n;
      }
      var line := ParseHeaderLine(s, i, n == 0, simd);
      match line {
        case More => return More, n;
        case Bad => return Bad, n;
        case Ok(pos, h) =>
          ghost var hs := headers[..n];
          headers[n] := h;
          assert headers[..n + 1] == hs + [h];
          i := pos;
          n := n + 1;
      }
    }
  }

  lemma PrependNothing(r: Outcome<seq<Header>>)
    ensures Prepend([], r) == r
  {
    match r
    case Ok(_, hs) => assert [] + hs == hs;
    case _ =>
  }

  method ParseNewline(s: seq<byte>, start: nat) returns (r: Outcome<()>)
    requires start < |s|
    ensures r == Newline(s, start)
  {
    if s[start] == CR {
      if start + 1 == |s| {
        return More;
      }
      if s[start + 1] != LF {
        return Bad;
      }
      return Ok(start + 2, ());
    } else if s[start] == LF {
      return Ok(start + 1, ());
    }
    r := Bad;
  }

  /** The optional empty line, the method and the target; `pos` is where the version starts. */
  method ParseRequestLine(s: seq<byte>, simd: bool) returns (r: Outcome<(Slice, Slice)>)
    ensures r == match LeadingNewline(s) case More => More case Bad => Bad case Ok(i, _) => RequestLine(s, i)
  {
    hide Token, Find;
    var i := 0;
    if |s| == 0 {
      return More;
    }
    if s[0] == CR || s[0] == LF {
      var nl := ParseNewline(s, 0);
      match nl {
        case More => return More;
        case Bad => return Bad;
        case Ok(pos, _) => i := pos;
      }
    }
    TokenBounds(s, i);
    var t := AdvanceToken(s, i, simd);
    match t {
      case More => return More;
      case Bad => return Bad;
      case Ok(e, m) =>
        i := SkipSpaces(s, e);
        TokenBounds(s, i);
        t := AdvanceToken(s, i, simd);
        match t {
          case More => return More;
          case Bad => return Bad;
          case Ok(f, target) =>
            i := SkipSpaces(s, f);
            if m.len == 0 || target.len == 0 {
              return Bad;
            }
            return Ok(i, (m, target));
        }
    }
  }

  /** The out-parameters describe the head. */
  predicate ReportsRequest(head: RequestHead, m: Slice, target: Slice, minor: int, headers: seq<Header>) {
    head.method_ == m && head.target == target && head.minor == minor && head.headers == headers
  }

  predicate ReportsResponse(head: ResponseHead, minor: int, status: nat, msg: Slice, headers: seq<Header>) {
    head.minor == minor && head.status == status && head.message == msg && head.headers == headers
  }

  /** `parse_request`, with the slices found so far in the out-parameters. */
  method ParseRequest(s: seq<byte>, headers: array<Header>, max: nat, simd: bool)
    returns (r: Outcome<()>, m: Slice, target: Slice, minor: int, n: nat)
    requires max <= headers.Length
    modifies headers
    ensures n <= max
    ensures match Request(s, max)
            case More => r == More
            case Bad => r == Bad
            case Ok(pos, head) => r.Ok? && r.pos == pos && ReportsRequest(head, m, target, minor, headers[..n])
  {
    hide LeadingNewline, RequestLine, Version, Newline, Headers;
    m, target, minor, n := NO_NAME, NO_NAME, -1, 0;
    LeadingBounds(s);
    var line := ParseRequestLine(s, simd);
    match line {
      case More => return More, m, target, minor, n;
      case Bad => return Bad, m, target, minor, n;
      case Ok(v, tokens) =>
        RequestLineBounds(s, LeadingNewline(s).pos);
        m, target := tokens.0, tokens.1;
        var version := ParseHttpVersion(s, v);
        VersionBounds(s, v);
        match version {
          case More => return More, m, target, minor, n;
          case Bad => return Bad, m, target, minor, n;
          case Ok(e, digit) =>
            minor := digit;
            var nl := ParseNewline(s, e);
            NewlineMore(s, e);
            match nl {
              case More => return More, m, target, minor, n;
              case Bad => return Bad, m, target, minor, n;
              case Ok(h, _) => r, n := ParseHeaders(s, h, headers, max, simd);
            }
        }
    }
  }

  /** `phr_parse_request`: the length of the head, or -2 or -1; on success the out-parameters and
      `headers[..n]` describe the head. */
  method PhrParseRequest(s: seq<byte>, headers: array<Header>, max: nat, lastLen: nat, simd: bool)
    returns (ret: int, m: Slice, target: Slice, minor: int, n: nat)
    requires max <= headers.Length && lastLen <= |s|
    modifies headers
    ensures n <= max
    ensures match RequestSince(s, max, lastLen)
            case More => ret == -2
            case Bad => ret == -1
            case Ok(pos, head) => ret == pos && ReportsRequest(head, m, target, minor, headers[..n])
  {
    hide Request, Complete;
    m, target, minor, n := NO_NAME, NO_NAME, -1, 0;
    if lastLen != 0 {
      var complete := IsComplete(s, lastLen);
      match complete {
        case More => return -2, m, target, minor, n;
        case Bad => return -1, m, target, minor, n;
        case Ok(_, _) =>
      }
    }
    var r;
    r, m, target, minor, n := ParseRequest(s, headers, max, simd);
    match r {
      case More => ret := -2;
      case Bad => ret := -1;
      case Ok(pos, _) => ret := pos;
    }
  }

  method ParseStatus(s: seq<byte>, start: nat) returns (r: Outcome<nat>)
    requires start <= |s|
    ensures r == Status(s, start)
  {
    if |s| - start < 4 {
      return More;
    }
    var status := 0;
    if !IsDigit(s[start]) {
      return Bad;
    }
    status := 100 * Digit(s[start]);
    if !IsDigit(s[start + 1]) {
      return Bad;
    }
    status := status + 10 * Digit(s[start + 1]);
    if !IsDigit(s[start + 2]) {
      return Bad;
    }
    status := status + Digit(s[start + 2]);
    r := Ok(start + 3, status);
  }

  method ParseReason(s: seq<byte>, start: nat, simd: bool) returns (r: Outcome<Slice>)
    requires start <= |s|
    ensures r == Reason(s, start)
  {
    hide TextLine, Find;
    TextLineShape(s, start);
    var text := GetTokenToEol(s, start, simd);
    match text {
      case More => return More;
      case Bad => return Bad;
      case Ok(pos, msg) =>
        if msg.len == 0 {
          return Ok(pos, msg);
        }
        if s[msg.start] != SP {
          return Bad;
        }
        var i, len := msg.start, msg.len;
        while true
          invariant msg.start <= i < msg.start + msg.len && len == msg.start + msg.len - i
          invariant s[i] == SP && Find(NonSpace, s, i) == Find(NonSpace, s, msg.start)
          decreases len
        {
          FindHere(NonSpace, s, i);
          i, len := i + 1, len - 1;
          FindHere(NonSpace, s, i);
          if s[i] != SP {
            break;
          }
        }
        return Ok(pos, Slice(i, len));
    }
  }

  /** `parse_response`. */
  method ParseResponse(s: seq<byte>, headers: array<Header>, max: nat, simd: bool)
    returns (r: Outcome<()>, minor: int, status: nat, msg: Slice, n: nat)
    requires max <= headers.Length
    modifies headers
    ensures n <= max
    ensures match Response(s, max)
            case More => r == More
            case Bad => r == Bad
            case Ok(pos, head) => r.Ok? && r.pos == pos && ReportsResponse(head, minor, status, msg, headers[..n])
  {
    hide Version, Status, Reason, Headers, Find;
    minor, status, msg, n := -1, 0, NO_NAME, 0;
    var version := ParseHttpVersion(s, 0);
    VersionBounds(s, 0);
    match version {
      case More => return More, minor, status, msg, n;
      case Bad => return Bad, minor, status, msg, n;
      case Ok(e, digit) =>
        minor := digit;
        if s[e] != SP {
          return Bad, minor, status, msg, n;
        }
        var c := SkipSpaces(s, e);
        var code := ParseStatus(s, c);
        StatusLocal(s, s, c);
        match code {
          case More => return More, minor, status, msg, n;
          case Bad => return Bad, minor, status, msg, n;
          case Ok(q, value) =>
            status := value;
            var reason := ParseReason(s, q, simd);
            ReasonLocal(s, s, q);
            match reason {
              case More => return More, minor, status, msg, n;
              case Bad => return Bad, minor, status, msg, n;
              case Ok(h, text) =>
                msg := text;
                r, n := ParseHeaders(s, h, headers, max, simd);
            }
        }
    }
  }

  /** `phr_parse_response`. */
  method PhrParseResponse(s: seq<byte>, headers: array<Header>, max: nat, lastLen: nat, simd: bool)
    returns (ret: int, minor: int, status: nat, msg: Slice, n: nat)
    requires max <= headers.Length && lastLen <= |s|
    modifies headers
    ensures n <= max
    ensures match ResponseSince(s, max, lastLen)
            case More => ret == -2
            case Bad => ret == -1
            case Ok(pos, head) => ret == pos && ReportsResponse(head, minor, status, msg, headers[..n])
  {
    hide Response, Complete;
    minor, status, msg, n := -1, 0, NO_NAME, 0;
    if lastLen != 0 {
      var complete := IsComplete(s, lastLen);
      match complete {
        case More => return -2, minor, status, msg, n;
        case Bad => return -1, minor, status, msg, n;
        case Ok(_, _) =>
      }
    }
    var r;
    r, minor, status, msg, n := ParseResponse(s, headers, max, simd);
    match r {
      case More => ret := -2;
      case Bad => ret := -1;
      case Ok(pos, _) => ret := pos;
    }
  }
}
