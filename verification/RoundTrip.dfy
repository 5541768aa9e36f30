/**
 Writing and then reading a message gives back what was written, for exactly the well-formed
 inputs; and looking a field up by name, in any letter case, finds the value that was written.
 */
module RoundTrip {
  import opened Bytes
  import opened HttpSyntax
  import opened ParserLaws
  import opened HttpMessages
  import opened Decimals

  /** What the parser returns as a method or target. */
  predicate IsWord(d: seq<byte>) {
    d != [] && forall k :: 0 <= k < |d| ==> !Stops(EndOfToken, d[k])
  }

  /** What the parser returns as the value of a named header. */
  predicate IsText(d: seq<byte>) {
    && (forall k :: 0 <= k < |d| ==> !Stops(EndOfText, d[k]))
    && (d != [] ==> !IsBlank(d[0]) && !IsBlank(d[|d| - 1]))
  }

  predicate IsName(d: seq<byte>) {
    d != [] && forall k :: 0 <= k < |d| ==> IsTokenChar(d[k])
  }

  // ---------- every accepted head is well-formed ----------

  lemma TokenIsWord(s: seq<byte>, i: nat)
    requires i <= |s| && Token(s, i).Ok? && Token(s, i).value.len != 0
    ensures Token(s, i).value.In(s) && IsWord(Token(s, i).value.Of(s))
  {
    var d := Token(s, i).value.Of(s);
    forall k | 0 <= k < |d|
      ensures !Stops(EndOfToken, d[k])
    {
      assert d[k] == s[i + k];
    }
  }

  lemma RequestWords(s: seq<byte>, max: nat)
    requires Request(s, max).Ok?
    ensures var head := Request(s, max).value;
            && head.method_.In(s) && IsWord(head.method_.Of(s))
            && head.target.In(s) && IsWord(head.target.Of(s))
  {
    hide Version, Newline, Headers, LeadingNewline, Token;
    var i, v, e, h := SplitRequest(s, max);
    TokenIsWord(s, i);
    TokenBounds(s, i);
    TokenIsWord(s, Find(NonSpace, s, Token(s, i).pos + 1));
  }

  lemma NamedValueIsText(s: seq<byte>, v: nat)
    requires v < |s| && !IsBlank(s[v]) && HttpSyntax.Value(s, v).Ok?
    ensures var value := HttpSyntax.Value(s, v).value; value.In(s) && IsText(value.Of(s))
  {
    var value := HttpSyntax.Value(s, v).value;
    TextLineShape(s, v);
    var d := value.Of(s);
    forall k | 0 <= k < |d|
      ensures !Stops(EndOfText, d[k])
    {
      assert d[k] == s[v + k];
    }
  }

  lemma HeaderLineShape(s: seq<byte>, i: nat, first: bool)
    requires i < |s| && HeaderLine(s, i, first).Ok? && HeaderLine(s, i, first).value.named
    ensures ShapedHeader(s, HeaderLine(s, i, first).value)
  {
    hide HttpSyntax.Value, IsText;
    var h := HeaderLine(s, i, first).value;
    var v := FieldName(s, i).pos;
    NamedValueIsText(s, v);
    forall k | i <= k < i + h.name.len
      ensures IsTokenChar(s[k])
    {
      assert !Stops(EndOfName, s[k]);
    }
  }

  ghost predicate ShapedHeader(s: seq<byte>, h: Header) {
    h.name.In(s) && h.value.In(s) && IsName(h.name.Of(s)) && IsText(h.value.Of(s))
  }

  /** Every named header of an accepted head has a token for a name and trimmed text for a value. */
  lemma {:induction false} HeadersShape(s: seq<byte>, i: nat, n: nat, max: nat, k: nat)
    requires i <= |s| && Headers(s, i, n, max).Ok?
    requires k < |Headers(s, i, n, max).value| && Headers(s, i, n, max).value[k].named
    ensures ShapedHeader(s, Headers(s, i, n, max).value[k])
    decreases |s| - i
  {
    hide HeaderLine, ShapedHeader;
    HeaderLineBounds(s, i, n == 0);
    if k == 0 {
      HeaderLineShape(s, i, n == 0);
    } else {
      HeadersShape(s, HeaderLine(s, i, n == 0).pos, n + 1, max, k - 1);
    }
  }

  // ---------- reading what was written ----------

  /** The bytes `d` stand in `s` from position `i` on. */
  predicate At(s: seq<byte>, i: nat, d: seq<byte>) {
    i + |d| <= |s| && forall k :: 0 <= k < |d| ==> s[i + k] == d[k]
  }

  lemma AtSplit(s: seq<byte>, i: nat, a: seq<byte>, b: seq<byte>)
    requires At(s, i, a + b)
    ensures At(s, i, a) && At(s, i + |a|, b)
  {
    forall k | 0 <= k < |a| ensures s[i + k] == a[k] { assert (a + b)[k] == a[k]; }
    forall k | 0 <= k < |b| ensures s[i + |a| + k] == b[k] { assert (a + b)[|a| + k] == b[k]; }
  }

  lemma AtSlice(s: seq<byte>, i: nat, d: seq<byte>)
    requires At(s, i, d)
    ensures Slice(i, |d|).In(s) && Slice(i, |d|).Of(s) == d
  {
  }

  lemma TokenAt(s: seq<byte>, i: nat, d: seq<byte>)
    requires IsWord(d) && At(s, i, d + [SP])
    ensures Token(s, i) == Ok(i + |d|, Slice(i, |d|))
  {
    AtSplit(s, i, d, [SP]);
    var e := i + |d|;
    assert s[e + 0] == [SP][0];
    forall k | i <= k < e ensures !Stops(EndOfToken, s[k]) { assert s[i + (k - i)] == d[k - i]; }
    assert Find(EndOfToken, s, i) == e;
  }

  lemma TextLineAt(s: seq<byte>, i: nat, d: seq<byte>)
    requires (forall k :: 0 <= k < |d| ==> !Stops(EndOfText, d[k])) && At(s, i, d + CRLF)
    ensures TextLine(s, i) == Ok(i + |d| + 2, Slice(i, |d|))
  {
    AtSplit(s, i, d, CRLF);
    var e := i + |d|;
    assert s[e + 0] == CRLF[0] && s[e + 1] == CRLF[1];
    forall k | i <= k < e ensures !Stops(EndOfText, s[k]) { assert s[i + (k - i)] == d[k - i]; }
    assert Find(EndOfText, s, i) == e;
  }

  lemma FieldNameAt(s: seq<byte>, i: nat, name: seq<byte>)
    requires IsName(name) && At(s, i, name + [COLON, SP])
    requires i + |name| + 2 < |s| && !IsBlank(s[i + |name| + 2])
    ensures FieldName(s, i) == Ok(i + |name| + 2, Slice(i, |name|))
  {
    AtSplit(s, i, name, [COLON, SP]);
    var e := i + |name|;
    assert s[e + 0] == [COLON, SP][0] && s[e + 1] == [COLON, SP][1];
    forall k | i <= k < e ensures !Stops(EndOfName, s[k]) { assert s[i + (k - i)] == name[k - i]; }
    assert Find(EndOfName, s, i) == e;
    assert Find(NonBlank, s, e + 1) == e + 2;
  }

  lemma HeaderLineAt(s: seq<byte>, i: nat, f: Field, first: bool)
    requires IsName(f.name) && IsText(f.value) && At(s, i, FieldBytes(f))
    ensures HeaderLine(s, i, first) ==
            Ok(i + |FieldBytes(f)|, Header(true, Slice(i, |f.name|), Slice(i + |f.name| + 2, |f.value|)))
    ensures !AtNewline(s, i)
  {
    hide Find;
    var v := i + |f.name| + 2;
    assert FieldBytes(f) == (f.name + [COLON, SP]) + (f.value + CRLF);
    AtSplit(s, i, f.name + [COLON, SP], f.value + CRLF);
    assert s[i + 0] == (f.name + [COLON, SP])[0] == f.name[0];
    assert s[v + 0] == (f.value + CRLF)[0];
    FieldNameAt(s, i, f.name);
    TextLineAt(s, v, f.value);
    if f.value != [] {
      assert s[v + (|f.value| - 1)] == (f.value + CRLF)[|f.value| - 1];
    }
  }

  /** The headers found are the fields written, in order. */
  ghost predicate Reads(s: seq<byte>, headers: seq<Header>, fs: seq<Field>) {
    && |headers| == |fs|
    && forall k :: 0 <= k < |fs| ==> ReadsField(s, headers[k], fs[k])
  }

  ghost predicate ReadsField(s: seq<byte>, h: Header, f: Field) {
    && h.named && h.name.In(s) && h.value.In(s)
    && h.name.Of(s) == f.name && h.value.Of(s) == f.value
  }

  lemma {:induction false} HeadersAt(s: seq<byte>, i: nat, n: nat, max: nat, fs: seq<Field>)
    requires forall k :: 0 <= k < |fs| ==> IsName(fs[k].name) && IsText(fs[k].value)
    requires At(s, i, FieldsBytes(fs) + CRLF) && n <= max
    ensures if n + |fs| <= max
            then Headers(s, i, n, max).Ok? && Headers(s, i, n, max).pos == i + |FieldsBytes(fs)| + 2
              && Reads(s, Headers(s, i, n, max).value, fs)
            else Headers(s, i, n, max).Bad?
    decreases |fs|
  {
    hide HeaderLine, IsText, IsName, FieldBytes, ReadsField;
    if fs == [] {
      assert s[i + 0] == (FieldsBytes(fs) + CRLF)[0] && s[i + 1] == (FieldsBytes(fs) + CRLF)[1];
    } else {
      var f, rest := fs[0], FieldsBytes(fs[1..]) + CRLF;
      assert FieldsBytes(fs) + CRLF == FieldBytes(f) + rest;
      AtSplit(s, i, FieldBytes(f), rest);
      FieldBytesPositive(f);
      HeaderLineAt(s, i, f, n == 0);
      if n < max {
        var j := i + |FieldBytes(f)|;
        HeadersAt(s, j, n + 1, max, fs[1..]);
        FieldRead(s, i, f);
        if n + |fs| <= max {
          var hs := Headers(s, j, n + 1, max).value;
          var h := HeaderLine(s, i, n == 0).value;
          forall k | 0 <= k < |fs|
            ensures ReadsField(s, ([h] + hs)[k], fs[k])
          {
            if k > 0 { assert fs[k] == fs[1..][k - 1]; }
          }
        }
      }
    }
  }

  lemma FieldBytesPositive(f: Field)
    ensures |FieldBytes(f)| == |f.name| + |f.value| + 4
  {
  }

  lemma FieldRead(s: seq<byte>, i: nat, f: Field)
    requires At(s, i, FieldBytes(f))
    ensures ReadsField(s, Header(true, Slice(i, |f.name|), Slice(i + |f.name| + 2, |f.value|)), f)
  {
    assert FieldBytes(f) == f.name + ([COLON, SP] + (f.value + CRLF));
    AtSplit(s, i, f.name, [COLON, SP] + (f.value + CRLF));
    AtSplit(s, i + |f.name|, [COLON, SP], f.value + CRLF);
    AtSplit(s, i + |f.name| + 2, f.value, CRLF);
    AtSlice(s, i, f.name);
    AtSlice(s, i + |f.name| + 2, f.value);
  }

  // ---------- requests ----------

  lemma VersionAt(s: seq<byte>, i: nat)
    requires At(s, i, HTTP_11_[..8]) && i + 9 <= |s|
    ensures Version(s, i) == Ok(i + 8, 1)
  {
    assert HTTP_11_[..8] == HTTP_1 + [49];
    AtSplit(s, i, HTTP_1, [49]);
    AtSlice(s, i, HTTP_1);
    assert s[i + 7 + 0] == [49][0];
  }

  /** The request line as written, read from the front of the input. */
  lemma RequestLineAt(s: seq<byte>, m: seq<byte>, t: seq<byte>)
    requires IsWord(m) && IsWord(t) && At(s, 0, m + [SP] + t + HTTP_11_LINE)
    ensures LeadingNewline(s) == Ok(0, ())
    ensures RequestLine(s, 0) == Ok(|m| + 1 + |t| + 1, (Slice(0, |m|), Slice(|m| + 1, |t|)))
    ensures At(s, |m| + 1 + |t|, HTTP_11_LINE)
    ensures Slice(0, |m|).In(s) && Slice(0, |m|).Of(s) == m
    ensures Slice(|m| + 1, |t|).In(s) && Slice(|m| + 1, |t|).Of(s) == t
  {
    hide Find, Token, HTTP_11_LINE;
    LineStartsWithSpace();
    var rest := HTTP_11_LINE[1..];
    assert m + [SP] + t + HTTP_11_LINE == (m + [SP]) + (t + HTTP_11_LINE);
    AtSplit(s, 0, m + [SP], t + HTTP_11_LINE);
    AtSplit(s, 0, m, [SP]);
    AtSlice(s, 0, m);
    var p := |m| + 1;
    assert t + HTTP_11_LINE == (t + [SP]) + rest;
    AtSplit(s, p, t, HTTP_11_LINE);
    AtSplit(s, p, t + [SP], rest);
    AtSlice(s, p, t);
    assert s[0 + 0] == m[0];
    TokenAt(s, 0, m);
    assert s[p + 0] == t[0] && !Stops(EndOfToken, t[0]);
    SpacesAt(s, p);
    TokenAt(s, p, t);
    var v := p + |t| + 1;
    assert s[v + 0] == rest[0];
    SpacesAt(s, v);
  }

  lemma LineStartsWithSpace()
    ensures |HTTP_11_LINE| == 11 && HTTP_11_LINE == [SP] + HTTP_11_LINE[1..] && HTTP_11_LINE[1..][0] != SP
  {
  }

  lemma SpacesAt(s: seq<byte>, i: nat)
    requires i < |s| && s[i] != SP
    ensures Find(NonSpace, s, i) == i
  {
  }

  /** A message that reads back: the head that was written is found, and the rest is left. */
  ghost predicate RequestReadsBack(m: seq<byte>, t: seq<byte>, host: seq<byte>, type_: seq<byte>,
                                   body: seq<byte>, following: seq<byte>, max: nat) {
    var s := RequestBytes(m, t, host, type_, body) + following;
    match Request(s, max)
    case Ok(pos, head) =>
      && pos <= |s| && s[pos..] == body + following
      && head.method_.In(s) && head.method_.Of(s) == m
      && head.target.In(s) && head.target.Of(s) == t
      && head.minor == 1
      && Reads(s, head.headers, RequestFields(host, type_, body))
    case _ => false
  }

  /** The whole first line as written. */
  lemma RequestStartAt(s: seq<byte>, m: seq<byte>, t: seq<byte>)
    requires IsWord(m) && IsWord(t) && At(s, 0, m + [SP] + t + HTTP_11_LINE)
    ensures var v, e := |m| + 1 + |t| + 1, |m| + 1 + |t| + 9;
            && e + 2 <= |s|
            && LeadingNewline(s) == Ok(0, ())
            && RequestLine(s, 0) == Ok(v, (Slice(0, |m|), Slice(|m| + 1, |t|)))
            && Version(s, v) == Ok(e, 1)
            && Newline(s, e) == Ok(e + 2, ())
  {
    hide LeadingNewline, RequestLine, Version, IsWord;
    RequestLineAt(s, m, t);
    var v, e := |m| + 1 + |t| + 1, |m| + 1 + |t| + 9;
    assert HTTP_11_LINE == [SP] + (HTTP_11_[..8] + CRLF);
    AtSplit(s, v - 1, [SP], HTTP_11_[..8] + CRLF);
    AtSplit(s, v, HTTP_11_[..8], CRLF);
    VersionAt(s, v);
    assert s[e + 0] == CRLF[0] && s[e + 1] == CRLF[1];
  }

  lemma RequestHeadAt(m: seq<byte>, t: seq<byte>, fs: seq<Field>, tail: seq<byte>, max: nat)
    requires IsWord(m) && IsWord(t)
    requires forall k :: 0 <= k < |fs| ==> IsName(fs[k].name) && IsText(fs[k].value)
    ensures var s := m + [SP] + t + HTTP_11_LINE + FieldsBytes(fs) + CRLF + tail;
            if |fs| <= max
            then Request(s, max).Ok? && Request(s, max).pos <= |s| && s[Request(s, max).pos..] == tail
              && var head := Request(s, max).value;
                 head.method_.In(s) && head.method_.Of(s) == m && head.target.In(s) && head.target.Of(s) == t
                 && head.minor == 1 && Reads(s, head.headers, fs)
            else Request(s, max).Bad?
  {
    hide LeadingNewline, RequestLine, Version, Newline, Headers, FieldsBytes, IsWord, IsName, IsText, Reads, At;
    var line, fields := m + [SP] + t + HTTP_11_LINE, FieldsBytes(fs) + CRLF;
    var s := m + [SP] + t + HTTP_11_LINE + FieldsBytes(fs) + CRLF + tail;
    assert s == line + (fields + tail);
    AtWhole(s);
    AtSplit(s, 0, line, fields + tail);
    AtSplit(s, |line|, fields, tail);
    RequestLineAt(s, m, t);
    RequestStartAt(s, m, t);
    HeadersAt(s, |line|, 0, max, fs);
    assert s[|line| + |fields|..] == tail;
  }

  lemma AtWhole(s: seq<byte>)
    ensures At(s, 0, s)
  {
  }

  lemma DigitsAreText(n: nat)
    ensures IsText(Decimal(n))
  {
    hide Decimal;
    var d := Decimal(n);
    assert 48 <= d[0] <= 57 && 48 <= d[|d| - 1] <= 57;
  }

  lemma FixedNames()
    ensures IsName(HOST) && IsName(CONTENT_TYPE) && IsName(CONTENT_LENGTH) && IsName(SERVER) && IsName(DATE)
    ensures IsText(REACTOR)
  {
  }

  /** Exactly which requests survive being written and read: the method and target are words, the
      host (and the type, when there is a body) is trimmed text without control characters, and the
      reader has room for the fields. */
  lemma RequestRoundTrip(m: seq<byte>, t: seq<byte>, host: seq<byte>, type_: seq<byte>, body: seq<byte>,
                         following: seq<byte>, max: nat)
    ensures RequestReadsBack(m, t, host, type_, body, following, max) <==>
              && IsWord(m) && IsWord(t) && IsText(host) && (body != [] ==> IsText(type_))
              && |RequestFields(host, type_, body)| <= max
  {
    hide Request, FieldsBytes, IsWord, IsName, IsText, ReadsField, Decimal;
    var fs := RequestFields(host, type_, body);
    var s := RequestBytes(m, t, host, type_, body) + following;
    var tail := body + following;
    assert s == m + [SP] + t + HTTP_11_LINE + FieldsBytes(fs) + CRLF + tail;
    FixedNames();
    DigitsAreText(Length32(body));
    if IsWord(m) && IsWord(t) && IsText(host) && (body != [] ==> IsText(type_)) {
      RequestHeadAt(m, t, fs, tail, max);
    } else if Request(s, max).Ok? {
      RequestWords(s, max);
      var headers := Request(s, max).value.headers;
      if Reads(s, headers, fs) {
        RequestValueIsText(s, max, 0, fs[0]);
        if body != [] { RequestValueIsText(s, max, 1, fs[1]); }
      }
    }
  }

  lemma RequestValueIsText(s: seq<byte>, max: nat, k: nat, f: Field)
    requires Request(s, max).Ok? && k < |Request(s, max).value.headers|
    requires ReadsField(s, Request(s, max).value.headers[k], f)
    ensures IsText(f.value)
  {
    hide LeadingNewline, RequestLine, Version, Newline, Headers, IsText, IsName;
    var i, v, e, h := SplitRequest(s, max);
    HeadersShape(s, h, 0, max, k);
  }

  /** The length announced is the length of the body, for exactly the bodies below 2^32 bytes. */
  lemma LengthFieldExact(body: seq<byte>)
    ensures Decimals.Value(Decimal(Length32(body))) == |body| <==> |body| < U32
  {
    DecimalDenotes(Length32(body));
  }

  // ---------- responses ----------

  /** A status line as written by callers: three digits, then nothing or a space and the reason. */
  predicate IsStatus(d: seq<byte>) {
    && |d| >= 3 && IsDigit(d[0]) && IsDigit(d[1]) && IsDigit(d[2])
    && (|d| > 3 ==> d[3] == SP)
    && forall k :: 0 <= k < |d| ==> !Stops(EndOfText, d[k])
  }

  function StatusCode(d: seq<byte>): nat
    requires IsStatus(d)
  {
    100 * Digit(d[0]) + 10 * Digit(d[1]) + Digit(d[2])
  }

  /** Text without the spaces in front of it. */
  function StripSpaces(d: seq<byte>): seq<byte> {
    if d != [] && d[0] == SP then StripSpaces(d[1..]) else d
  }

  ghost predicate ResponseReadsBack(status: seq<byte>, date: seq<byte>, type_: seq<byte>, body: seq<byte>,
                                    following: seq<byte>, max: nat)
    requires IsStatus(status)
  {
    var s := ResponseBytes(status, date, type_, body) + following;
    match Response(s, max)
    case Ok(pos, head) =>
      && pos <= |s| && s[pos..] == body + following
      && head.minor == 1 && head.status == StatusCode(status)
      && head.message.In(s) && head.message.Of(s) == StripSpaces(status[3..])
      && Reads(s, head.headers, ResponseFields(date, type_, body))
    case _ => false
  }

  lemma {:induction false} StripAt(s: seq<byte>, i: nat, d: seq<byte>)
    requires At(s, i, d) && i + |d| < |s| && s[i + |d|] != SP
    ensures i <= Find(NonSpace, s, i) <= i + |d|
    ensures s[Find(NonSpace, s, i)..i + |d|] == StripSpaces(d)
    decreases |d|
  {
    if d != [] && d[0] == SP {
      assert s[i + 0] == d[0];
      assert d == [d[0]] + d[1..];
      AtSplit(s, i, [d[0]], d[1..]);
      StripAt(s, i + 1, d[1..]);
    } else if d != [] {
      assert s[i + 0] == d[0];
      SpacesAt(s, i);
      AtSlice(s, i, d);
    } else {
      SpacesAt(s, i);
    }
  }

  lemma ReasonAt(s: seq<byte>, i: nat, d: seq<byte>)
    requires At(s, i, d + CRLF) && (forall k :: 0 <= k < |d| ==> !Stops(EndOfText, d[k]))
    requires d != [] ==> d[0] == SP
    ensures Reason(s, i).Ok? && Reason(s, i).pos == i + |d| + 2
    ensures Reason(s, i).value.In(s) && Reason(s, i).value.Of(s) == StripSpaces(d)
  {
    hide Find;
    TextLineAt(s, i, d);
    AtSplit(s, i, d, CRLF);
    assert s[i + |d| + 0] == CRLF[0];
    if d != [] {
      assert s[i + 0] == d[0];
      StripAt(s, i, d);
    }
  }

  lemma ResponseHeadAt(status: seq<byte>, fs: seq<Field>, tail: seq<byte>, max: nat)
    requires IsStatus(status)
    requires forall k :: 0 <= k < |fs| ==> IsName(fs[k].name) && IsText(fs[k].value)
    ensures var s := HTTP_11_ + status + CRLF + FieldsBytes(fs) + CRLF + tail;
            if |fs| <= max
            then Response(s, max).Ok? && Response(s, max).pos <= |s| && s[Response(s, max).pos..] == tail
              && var head := Response(s, max).value;
                 head.minor == 1 && head.status == StatusCode(status)
                 && head.message.In(s) && head.message.Of(s) == StripSpaces(status[3..])
                 && Reads(s, head.headers, fs)
            else Response(s, max).Bad?
  {
    hide Version, Status, Headers, FieldsBytes, IsName, IsText, Reads, Reason, Find, StripSpaces, IsStatus, At;
    var line, fields := HTTP_11_ + status + CRLF, FieldsBytes(fs) + CRLF;
    var s := HTTP_11_ + status + CRLF + FieldsBytes(fs) + CRLF + tail;
    assert s == line + (fields + tail);
    AtWhole(s);
    AtSplit(s, 0, line, fields + tail);
    AtSplit(s, |line|, fields, tail);
    ResponseStartAt(s, status);
    HeadersAt(s, |line|, 0, max, fs);
    assert s[|line| + |fields|..] == tail;
  }

  /** The whole status line as written. */
  lemma ResponseStartAt(s: seq<byte>, status: seq<byte>)
    requires IsStatus(status) && At(s, 0, HTTP_11_ + status + CRLF)
    ensures |s| > 12 && Version(s, 0) == Ok(8, 1) && s[8] == SP
    ensures Find(NonSpace, s, 9) == 9 && Status(s, 9) == Ok(12, StatusCode(status))
    ensures Reason(s, 12).Ok? && Reason(s, 12).pos == |HTTP_11_ + status + CRLF|
    ensures Reason(s, 12).value.In(s) && Reason(s, 12).value.Of(s) == StripSpaces(status[3..])
  {
    hide Reason, StripSpaces, Version, Status, Find, At, IsStatus, HTTP_11_, StatusCode;
    assert HTTP_11_ + status + CRLF == HTTP_11_ + (status + CRLF);
    AtSplit(s, 0, HTTP_11_, status + CRLF);
    VersionAndSpaceAt(s);
    StatusAt(s, 9, status);
  }

  lemma VersionAndSpaceAt(s: seq<byte>)
    requires At(s, 0, HTTP_11_)
    ensures Version(s, 0) == Ok(8, 1) && |s| > 8 && s[8] == SP && |HTTP_11_| == 9
  {
    assert HTTP_11_ == HTTP_11_[..8] + [SP];
    AtSplit(s, 0, HTTP_11_[..8], [SP]);
    assert s[8 + 0] == [SP][0];
    VersionAt(s, 0);
  }

  lemma StatusAt(s: seq<byte>, i: nat, status: seq<byte>)
    requires IsStatus(status) && At(s, i, status + CRLF)
    ensures i + 3 < |s| && Find(NonSpace, s, i) == i && Status(s, i) == Ok(i + 3, StatusCode(status))
    ensures Reason(s, i + 3).Ok? && Reason(s, i + 3).pos == i + |status| + 2
    ensures Reason(s, i + 3).value.In(s) && Reason(s, i + 3).value.Of(s) == StripSpaces(status[3..])
  {
    hide Reason, StripSpaces, Find;
    AtSplit(s, i, status, CRLF);
    assert s[i + 0] == status[0] && s[i + 1] == status[1] && s[i + 2] == status[2];
    SpacesAt(s, i);
    var reason := status[3..];
    assert status + CRLF == status[..3] + (reason + CRLF);
    AtSplit(s, i, status[..3], reason + CRLF);
    ReasonAt(s, i + 3, reason);
  }

  /** For a status of three digits and a reason, exactly which responses survive being written and
      read: the date is trimmed text, so is the type when there is one, and the reader has room. */
  lemma ResponseRoundTrip(status: seq<byte>, date: seq<byte>, type_: seq<byte>, body: seq<byte>,
                          following: seq<byte>, max: nat)
    requires IsStatus(status)
    ensures ResponseReadsBack(status, date, type_, body, following, max) <==>
              && IsText(date) && IsText(type_)
              && |ResponseFields(date, type_, body)| <= max
  {
    hide Response, FieldsBytes, IsStatus, IsName, ReadsField, Decimal, StripSpaces;
    var fs := ResponseFields(date, type_, body);
    var s := ResponseBytes(status, date, type_, body) + following;
    var tail := body + following;
    assert s == HTTP_11_ + status + CRLF + FieldsBytes(fs) + CRLF + tail;
    FixedNames();
    DigitsAreText(Length32(body));
    if IsText(date) && IsText(type_) {
      ResponseHeadAt(status, fs, tail, max);
    } else if Response(s, max).Ok? {
      var headers := Response(s, max).value.headers;
      if Reads(s, headers, fs) {
        ResponseValueIsText(s, max, 1, fs[1]);
        if type_ != [] { ResponseValueIsText(s, max, 2, fs[2]); }
      }
    }
  }

  lemma ResponseValueIsText(s: seq<byte>, max: nat, k: nat, f: Field)
    requires Response(s, max).Ok? && k < |Response(s, max).value.headers|
    requires ReadsField(s, Response(s, max).value.headers[k], f)
    ensures IsText(f.value)
  {
    hide Version, Status, Reason, Headers, Find, IsText, IsName;
    var e, c, r, h := SplitResponse(s, max);
    HeadersShape(s, h, 0, max, k);
  }
}
