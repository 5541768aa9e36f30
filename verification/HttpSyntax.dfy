/**
 What the HTTP parser accepts, as functions of the input and a position: request and response
 heads (sections 3.1 and 3.2 of RFC 7230) with the parser's own leniencies. `More` is the answer
 -2 (the input ends too early), `Bad` the answer -1.
 */
module HttpSyntax {
  import opened Bytes

  datatype Outcome<T> = Ok(pos: nat, value: T) | More | Bad

  datatype Slice = Slice(start: nat, len: nat) {
    predicate In(s: seq<byte>) {
      start + len <= |s|
    }

    function Of(s: seq<byte>): seq<byte>
      requires In(s)
    {
      s[start..start + len]
    }
  }

  /** A header line; a folded continuation line has no name. */
  datatype Header = Header(named: bool, name: Slice, value: Slice)

  const NO_NAME := Slice(0, 0)

  datatype RequestHead = RequestHead(method_: Slice, target: Slice, minor: nat, headers: seq<Header>)

  datatype ResponseHead = ResponseHead(minor: nat, status: nat, message: Slice, headers: seq<Header>)

  // ---------- character classes ----------

  /** tchar of section 3.2.6 of RFC 7230. */
  predicate IsTokenChar(b: byte) {
    || b in {33, 35, 36, 37, 38, 39, 42, 43, 45, 46, 94, 95, 96, 124, 126}
    || 48 <= b <= 57 || 65 <= b <= 90 || 97 <= b <= 122
  }

  predicate IsControl(b: byte) {
    b < 32 || b == DEL
  }

  predicate IsBlank(b: byte) {
    b == SP || b == HT
  }

  predicate IsDigit(b: byte) {
    48 <= b <= 57
  }

  function Digit(b: byte): (n: nat)
    requires IsDigit(b)
    ensures n < 10
  {
    b - 48
  }

  /** What a scan stops at. */
  datatype Stop = EndOfText | EndOfToken | EndOfName | NonSpace | NonBlank

  predicate Stops(c: Stop, b: byte) {
    match c
    case EndOfText => IsControl(b) && b != HT
    case EndOfToken => IsControl(b) || b == SP
    case EndOfName => !IsTokenChar(b)
    case NonSpace => b != SP
    case NonBlank => !IsBlank(b)
  }

  /** The first position from `i` on where the scan stops, or the end of the input. */
  function Find(c: Stop, s: seq<byte>, i: nat): (e: nat)
    requires i <= |s|
    ensures i <= e <= |s|
    ensures forall k :: i <= k < e ==> !Stops(c, s[k])
    ensures e < |s| ==> Stops(c, s[e])
    decreases |s| - i
  {
    if i == |s| || Stops(c, s[i]) then i else Find(c, s, i + 1)
  }

  // ---------- the pieces of a head ----------

  /** A line ending: LF or CR LF. */
  function Newline(s: seq<byte>, i: nat): Outcome<()>
    requires i <= |s|
  {
    if i == |s| then More
    else if s[i] == CR then
      if i + 1 == |s| then More
      else if s[i + 1] == LF then Ok(i + 2, ())
      else Bad
    else if s[i] == LF then Ok(i + 1, ())
    else Bad
  }

  /** Text up to and including the next line ending. */
  function TextLine(s: seq<byte>, i: nat): Outcome<Slice>
    requires i <= |s|
  {
    var e := Find(EndOfText, s, i);
    match Newline(s, e)
    case Ok(pos, _) => Ok(pos, Slice(i, e - i))
    case More => More
    case Bad => Bad
  }

  /** A token ended by a space, which is not consumed. */
  function Token(s: seq<byte>, i: nat): Outcome<Slice>
    requires i <= |s|
  {
    var e := Find(EndOfToken, s, i);
    if e == |s| then More
    else if s[e] == SP then Ok(e, Slice(i, e - i))
    else Bad
  }

  const HTTP_1: seq<byte> := [72, 84, 84, 80, 47, 49, 46]

  /** "HTTP/1." and a digit, tried only when one more byte follows. */
  function Version(s: seq<byte>, i: nat): Outcome<nat>
    requires i <= |s|
  {
    if |s| - i < 9 then More
    else if s[i..i + 7] != HTTP_1 || !IsDigit(s[i + 7]) then Bad
    else Ok(i + 8, Digit(s[i + 7]))
  }

  /** The length of the text at `start` without its trailing blanks. */
  function TrimmedLen(s: seq<byte>, start: nat, len: nat): (n: nat)
    requires start + len <= |s|
    ensures n <= len
    ensures n > 0 ==> !IsBlank(s[start + n - 1])
    ensures forall k :: start + n <= k < start + len ==> IsBlank(s[k])
  {
    if len > 0 && IsBlank(s[start + len - 1]) then TrimmedLen(s, start, len - 1) else len
  }

  function Value(s: seq<byte>, i: nat): Outcome<Slice>
    requires i <= |s|
  {
    match TextLine(s, i)
    case Ok(pos, text) => Ok(pos, Slice(text.start, TrimmedLen(s, text.start, text.len)))
    case More => More
    case Bad => Bad
  }

  /** A header name and the position where its value starts. */
  function FieldName(s: seq<byte>, i: nat): Outcome<Slice>
    requires i <= |s|
  {
    var e := Find(EndOfName, s, i);
    if e == |s| then More
    else if s[e] != COLON || e == i then Bad
    else
      var v := Find(NonBlank, s, e + 1);
      if v == |s| then More else Ok(v, Slice(i, e - i))
  }

  function HeaderLine(s: seq<byte>, i: nat, first: bool): Outcome<Header>
    requires i < |s|
  {
    if !first && IsBlank(s[i]) then
      match Value(s, i)
      case Ok(pos, value) => Ok(pos, Header(false, NO_NAME, value))
      case More => More
      case Bad => Bad
    else
      match FieldName(s, i)
      case More => More
      case Bad => Bad
      case Ok(v, name) =>
        match Value(s, v)
        case Ok(pos, value) => Ok(pos, Header(true, name, value))
        case More => More
        case Bad => Bad
  }

  predicate AtNewline(s: seq<byte>, i: nat)
    requires i <= |s|
  {
    i == |s| || s[i] == CR || s[i] == LF
  }

  /** Header lines up to the empty line, at most `max` of them counting the `n` already read. */
  function Headers(s: seq<byte>, i: nat, n: nat, max: nat): Outcome<seq<Header>>
    requires i <= |s|
    decreases |s| - i
  {
    if AtNewline(s, i) then
      match Newline(s, i)
      case Ok(pos, _) => Ok(pos, [])
      case More => More
      case Bad => Bad
    else if n == max then Bad
    else
      match HeaderLine(s, i, n == 0)
      case More => More
      case Bad => Bad
      case Ok(pos, h) =>
        HeaderLineBounds(s, i, n == 0);
        match Headers(s, pos, n + 1, max)
        case Ok(end, hs) => Ok(end, [h] + hs)
        case More => More
        case Bad => Bad
  }

  lemma HeaderLineBounds(s: seq<byte>, i: nat, first: bool)
    requires i < |s|
    ensures HeaderLine(s, i, first).Ok? ==>
              && i < HeaderLine(s, i, first).pos <= |s|
              && s[HeaderLine(s, i, first).pos - 1] == LF
  {
  }

  /** One empty line before the request line is skipped. */
  function LeadingNewline(s: seq<byte>): Outcome<()> {
    if AtNewline(s, 0) then Newline(s, 0) else Ok(0, ())
  }

  /** Method, target and the position of the version. */
  function RequestLine(s: seq<byte>, i: nat): Outcome<(Slice, Slice)>
    requires i <= |s|
  {
    match Token(s, i)
    case More => More
    case Bad => Bad
    case Ok(e, m) =>
      match Token(s, Find(NonSpace, s, e + 1))
      case More => More
      case Bad => Bad
      case Ok(f, t) =>
        if m.len == 0 || t.len == 0 then Bad
        else Ok(Find(NonSpace, s, f + 1), (m, t))
  }

  function Request(s: seq<byte>, max: nat): Outcome<RequestHead> {
    match LeadingNewline(s)
    case More => More
    case Bad => Bad
    case Ok(i, _) =>
      match RequestLine(s, i)
      case More => More
      case Bad => Bad
      case Ok(v, (m, t)) =>
        match Version(s, v)
        case More => More
        case Bad => Bad
        case Ok(e, minor) =>
          match Newline(s, e)
          case More => More
          case Bad => Bad
          case Ok(h, _) =>
            match Headers(s, h, 0, max)
            case More => More
            case Bad => Bad
            case Ok(end, headers) => Ok(end, RequestHead(m, t, minor, headers))
  }

  /** The three digits of a status code, tried only when one more byte follows. */
  function Status(s: seq<byte>, i: nat): Outcome<nat>
    requires i <= |s|
  {
    if |s| - i < 4 then More
    else if !IsDigit(s[i]) || !IsDigit(s[i + 1]) || !IsDigit(s[i + 2]) then Bad
    else Ok(i + 3, 100 * Digit(s[i]) + 10 * Digit(s[i + 1]) + Digit(s[i + 2]))
  }

  /** The reason phrase without the spaces in front of it. */
  function Reason(s: seq<byte>, i: nat): Outcome<Slice>
    requires i <= |s|
  {
    match TextLine(s, i)
    case More => More
    case Bad => Bad
    case Ok(pos, text) =>
      if text.len == 0 then Ok(pos, text)
      else if s[i] != SP then Bad
      else
        var start := Find(NonSpace, s, i);
        assert s[i + text.len] != SP;
        Ok(pos, Slice(start, i + text.len - start))
  }

  function Response(s: seq<byte>, max: nat): Outcome<ResponseHead> {
    match Version(s, 0)
    case More => More
    case Bad => Bad
    case Ok(e, minor) =>
      if s[e] != SP then Bad
      else
        match Status(s, Find(NonSpace, s, e + 1))
        case More => More
        case Bad => Bad
        case Ok(r, status) =>
          match Reason(s, r)
          case More => More
          case Bad => Bad
          case Ok(h, message) =>
            match Headers(s, h, 0, max)
            case More => More
            case Bad => Bad
            case Ok(end, headers) => Ok(end, ResponseHead(minor, status, message, headers))
  }

  // ---------- completeness check ----------

  /** `is_complete` from position `i` with `count` line endings just seen: stops after two in a row. */
  function Complete(s: seq<byte>, i: nat, count: nat): Outcome<()>
    requires i <= |s|
    decreases |s| - i
  {
    if i == |s| then More
    else
      match Newline(s, i)
      case More => More
      case Ok(pos, _) => if count == 1 then Ok(pos, ()) else Complete(s, pos, count + 1)
      case Bad => if s[i] == CR then Bad else Complete(s, i + 1, 0)
  }

  function CompleteStart(lastLen: nat): nat {
    if lastLen < 3 then 0 else lastLen - 3
  }
}
