/**
 The language of the message heads that the parser accepts, written down without the parser:
 sections 3.1 and 3.2 of RFC 7230 with the parser's leniencies (an empty line in front, runs of
 spaces, LF without CR, folded lines). A head is accepted exactly if the input starts with a text
 of this language, and the slices reported are those of the text.
 */
module HeadLanguage {
  import opened Wrappers
  import opened Bytes
  import opened HttpSyntax
  import opened ParserLaws
  import opened RoundTrip

  datatype LineEnd = Lf | CrLf

  /** A header line; a folded line continues the one before and starts with a blank. */
  datatype Line =
    | Named(name: seq<byte>, blanks: seq<byte>, text: seq<byte>, end: LineEnd)
    | Folded(text: seq<byte>, end: LineEnd)

  datatype RequestForm = RequestForm(
    leading: Option<LineEnd>,
    method_: seq<byte>, gap: nat, target: seq<byte>, gap': nat, minor: byte, end: LineEnd,
    lines: seq<Line>, last: LineEnd)

  /** The reason is what follows the code: nothing, or a space and any text. */
  datatype ResponseForm = ResponseForm(
    minor: byte, gap: nat, code: seq<byte>, reason: seq<byte>, end: LineEnd,
    lines: seq<Line>, last: LineEnd)

  predicate IsPlain(d: seq<byte>) {
    forall k :: 0 <= k < |d| ==> !Stops(EndOfText, d[k])
  }

  predicate IsBlanks(d: seq<byte>) {
    forall k :: 0 <= k < |d| ==> IsBlank(d[k])
  }

  predicate IsLine(l: Line, first: bool) {
    match l
    case Named(name, blanks, text, _) =>
      IsName(name) && IsBlanks(blanks) && IsPlain(text) && (text != [] ==> !IsBlank(text[0]))
    case Folded(text, _) =>
      !first && IsPlain(text) && text != [] && IsBlank(text[0])
  }

  predicate AreLines(lines: seq<Line>, first: bool) {
    forall k :: 0 <= k < |lines| ==> IsLine(lines[k], first && k == 0)
  }

  predicate IsRequest(r: RequestForm, max: nat) {
    && IsWord(r.method_) && r.gap > 0 && IsWord(r.target) && r.gap' > 0 && IsDigit(r.minor)
    && AreLines(r.lines, true) && |r.lines| <= max
  }

  predicate IsResponse(r: ResponseForm, max: nat) {
    && IsDigit(r.minor) && r.gap > 0
    && |r.code| == 3 && IsDigit(r.code[0]) && IsDigit(r.code[1]) && IsDigit(r.code[2])
    && IsPlain(r.reason) && (r.reason != [] ==> r.reason[0] == SP)
    && AreLines(r.lines, true) && |r.lines| <= max
  }

  // ---------- the bytes of a text ----------

  function EndBytes(e: LineEnd): seq<byte> {
    if e == Lf then [LF] else CRLF
  }

  function Spaces(n: nat): (r: seq<byte>)
    ensures |r| == n
  {
    seq(n, _ => SP)
  }

  function LineBytes(l: Line): seq<byte> {
    match l
    case Named(name, blanks, text, end) => (name + ([COLON] + blanks)) + (text + EndBytes(end))
    case Folded(text, end) => text + EndBytes(end)
  }

  function LinesBytes(lines: seq<Line>, last: LineEnd): seq<byte> {
    if lines == [] then EndBytes(last) else LineBytes(lines[0]) + LinesBytes(lines[1..], last)
  }

  function LeadingBytes(leading: Option<LineEnd>): seq<byte> {
    if leading.None? then [] else EndBytes(leading.value)
  }

  function StartBytes(r: RequestForm): seq<byte> {
    (r.method_ + Spaces(r.gap)) + (r.target + Spaces(r.gap'))
  }

  function VersionBytes(minor: byte): seq<byte> {
    HTTP_1 + [minor]
  }

  function RequestText(r: RequestForm): seq<byte> {
    LeadingBytes(r.leading) +
    (StartBytes(r) + (VersionBytes(r.minor) + (EndBytes(r.end) + LinesBytes(r.lines, r.last))))
  }

  function ResponseText(r: ResponseForm): seq<byte> {
    VersionBytes(r.minor) +
    (Spaces(r.gap) + (r.code + ((r.reason + EndBytes(r.end)) + LinesBytes(r.lines, r.last))))
  }

  // ---------- what is reported for a text ----------

  function Trim(d: seq<byte>): seq<byte> {
    if d != [] && IsBlank(d[|d| - 1]) then Trim(d[..|d| - 1]) else d
  }

  function HeaderOf(l: Line, at: nat): Header {
    match l
    case Named(name, blanks, text, _) =>
      Header(true, Slice(at, |name|), Slice(at + |name| + 1 + |blanks|, |Trim(text)|))
    case Folded(text, _) => Header(false, Slice(0, 0), Slice(at, |Trim(text)|))
  }

  function HeadersOf(lines: seq<Line>, at: nat): seq<Header> {
    if lines == [] then []
    else [HeaderOf(lines[0], at)] + HeadersOf(lines[1..], at + |LineBytes(lines[0])|)
  }

  function RequestOf(r: RequestForm): RequestHead {
    var m := |LeadingBytes(r.leading)|;
    var t := m + |r.method_| + r.gap;
    var h := m + |StartBytes(r)| + 8 + |EndBytes(r.end)|;
    RequestHead(Slice(m, |r.method_|), Slice(t, |r.target|), DigitValue(r.minor), HeadersOf(r.lines, h))
  }

  function DigitValue(b: byte): nat {
    if IsDigit(b) then Digit(b) else 0
  }

  function ResponseOf(r: ResponseForm): ResponseHead
    requires |r.code| == 3
  {
    var c := 8 + r.gap + 3;
    var message := StripSpaces(r.reason);
    StripShorter(r.reason);
    ResponseHead(
      DigitValue(r.minor), 100 * DigitValue(r.code[0]) + 10 * DigitValue(r.code[1]) + DigitValue(r.code[2]),
      Slice(c + |r.reason| - |message|, |message|), HeadersOf(r.lines, c + |r.reason| + |EndBytes(r.end)|))
  }

  lemma {:induction false} StripShorter(d: seq<byte>)
    ensures |StripSpaces(d)| <= |d|
  {
    if d != [] && d[0] == SP { StripShorter(d[1..]); }
  }

  // ---------- a text is read as it stands ----------

  lemma AtJoin(s: seq<byte>, i: nat, a: seq<byte>, b: seq<byte>)
    requires At(s, i, a) && At(s, i + |a|, b)
    ensures At(s, i, a + b)
  {
    forall k | 0 <= k < |a| + |b|
      ensures s[i + k] == (a + b)[k]
    {
      if k >= |a| { assert s[i + |a| + (k - |a|)] == b[k - |a|]; }
    }
  }

  lemma ReadEnd(s: seq<byte>, i: nat, e: LineEnd)
    requires At(s, i, EndBytes(e))
    ensures Newline(s, i) == Ok(i + |EndBytes(e)|, ()) && AtNewline(s, i)
    ensures i < |s| && s[i] in {CR, LF}
  {
    assert s[i + 0] == EndBytes(e)[0];
    if e == CrLf { assert s[i + 1] == EndBytes(e)[1]; }
  }

  lemma ReadTextLine(s: seq<byte>, i: nat, d: seq<byte>, e: LineEnd)
    requires IsPlain(d) && At(s, i, d + EndBytes(e))
    ensures TextLine(s, i) == Ok(i + |d| + |EndBytes(e)|, Slice(i, |d|))
  {
    hide EndBytes;
    AtSplit(s, i, d, EndBytes(e));
    ReadEnd(s, i + |d|, e);
    forall k | i <= k < i + |d| ensures !Stops(EndOfText, s[k]) { assert s[i + (k - i)] == d[k - i]; }
    assert Find(EndOfText, s, i) == i + |d|;
  }

  lemma {:induction false} ReadTrimmed(s: seq<byte>, i: nat, d: seq<byte>)
    requires At(s, i, d)
    ensures TrimmedLen(s, i, |d|) == |Trim(d)|
    decreases |d|
  {
    if d != [] {
      assert s[i + (|d| - 1)] == d[|d| - 1];
      ReadTrimmed(s, i, d[..|d| - 1]);
    }
  }

  lemma ReadValue(s: seq<byte>, i: nat, d: seq<byte>, e: LineEnd)
    requires IsPlain(d) && At(s, i, d + EndBytes(e))
    ensures Value(s, i) == Ok(i + |d| + |EndBytes(e)|, Slice(i, |Trim(d)|))
  {
    hide TextLine, EndBytes, IsPlain;
    ReadTextLine(s, i, d, e);
    AtSplit(s, i, d, EndBytes(e));
    ReadTrimmed(s, i, d);
  }

  lemma ReadName(s: seq<byte>, i: nat, name: seq<byte>, blanks: seq<byte>)
    requires IsName(name) && IsBlanks(blanks) && At(s, i, name + ([COLON] + blanks))
    requires var v := i + |name| + 1 + |blanks|; v < |s| && !IsBlank(s[v])
    ensures FieldName(s, i) == Ok(i + |name| + 1 + |blanks|, Slice(i, |name|))
    ensures !AtNewline(s, i) && !IsBlank(s[i])
  {
    AtSplit(s, i, name, [COLON] + blanks);
    AtSplit(s, i + |name|, [COLON], blanks);
    var e := i + |name|;
    assert s[e + 0] == [COLON][0] && s[i + 0] == name[0];
    forall k | i <= k < e ensures !Stops(EndOfName, s[k]) { assert s[i + (k - i)] == name[k - i]; }
    assert Find(EndOfName, s, i) == e;
    forall k | e + 1 <= k < e + 1 + |blanks| ensures !Stops(NonBlank, s[k]) {
      assert s[e + 1 + (k - e - 1)] == blanks[k - e - 1];
    }
    assert Find(NonBlank, s, e + 1) == e + 1 + |blanks|;
  }

  lemma ReadLine(s: seq<byte>, i: nat, l: Line, first: bool)
    requires IsLine(l, first) && At(s, i, LineBytes(l))
    ensures !AtNewline(s, i) && HeaderLine(s, i, first) == Ok(i + |LineBytes(l)|, HeaderOf(l, i))
  {
    hide HttpSyntax.Value, FieldName, Trim, IsName, IsPlain;
    match l
    case Named(name, blanks, text, end) =>
      var v := i + |name| + 1 + |blanks|;
      AtSplit(s, i, name + ([COLON] + blanks), text + EndBytes(end));
      FirstOfText(s, v, text, end);
      ReadName(s, i, name, blanks);
      ReadValue(s, v, text, end);
    case Folded(text, end) =>
      FirstOfText(s, i, text, end);
      ReadValue(s, i, text, end);
  }

  /** The byte behind the blanks of a header. */
  lemma FirstOfText(s: seq<byte>, i: nat, text: seq<byte>, end: LineEnd)
    requires At(s, i, text + EndBytes(end))
    ensures i < |s| && s[i] == (if text != [] then text[0] else EndBytes(end)[0])
  {
    assert s[i + 0] == (text + EndBytes(end))[0];
  }

  lemma {:induction false} ReadLines(s: seq<byte>, i: nat, n: nat, max: nat, lines: seq<Line>, last: LineEnd)
    requires AreLines(lines, n == 0) && n + |lines| <= max && At(s, i, LinesBytes(lines, last))
    ensures Headers(s, i, n, max) == Ok(i + |LinesBytes(lines, last)|, HeadersOf(lines, i))
    decreases |lines|
  {
    hide HeaderLine, IsLine, LineBytes, HeaderOf, At;
    if lines == [] {
      ReadEnd(s, i, last);
    } else {
      assert IsLine(lines[0], n == 0 && 0 == 0);
      AtSplit(s, i, LineBytes(lines[0]), LinesBytes(lines[1..], last));
      ReadLine(s, i, lines[0], n == 0);
      HeaderLineBounds(s, i, n == 0);
      forall k | 0 <= k < |lines| - 1 ensures IsLine(lines[1..][k], n + 1 == 0 && k == 0) {
        assert IsLine(lines[k + 1], n == 0 && k + 1 == 0);
      }
      ReadLines(s, i + |LineBytes(lines[0])|, n + 1, max, lines[1..], last);
    }
  }

  lemma ReadSpaces(s: seq<byte>, i: nat, n: nat)
    requires At(s, i, Spaces(n)) && (i + n < |s| ==> s[i + n] != SP)
    ensures Find(NonSpace, s, i) == i + n
  {
    forall k | i <= k < i + n ensures !Stops(NonSpace, s[k]) { assert s[i + (k - i)] == Spaces(n)[k - i]; }
  }

  lemma MoreSpaces(n: nat)
    requires n > 0
    ensures Spaces(n) == [SP] + Spaces(n - 1)
  {
  }

  lemma ReadWord(s: seq<byte>, i: nat, d: seq<byte>, gap: nat)
    requires IsWord(d) && gap > 0 && At(s, i, d + Spaces(gap))
    requires i + |d| + gap < |s| ==> s[i + |d| + gap] != SP
    ensures Token(s, i) == Ok(i + |d|, Slice(i, |d|)) && Find(NonSpace, s, i + |d| + 1) == i + |d| + gap
    ensures s[i] != SP && s[i] != CR && s[i] != LF
  {
    hide Token, Find, Spaces;
    MoreSpaces(gap);
    assert d + ([SP] + Spaces(gap - 1)) == (d + [SP]) + Spaces(gap - 1);
    AtSplit(s, i, d + [SP], Spaces(gap - 1));
    AtSplit(s, i, d, [SP]);
    assert s[i + 0] == d[0] && !Stops(EndOfToken, d[0]);
    TokenAt(s, i, d);
    ReadSpaces(s, i + |d| + 1, gap - 1);
  }

  lemma ReadStart(s: seq<byte>, i: nat, r: RequestForm)
    requires IsWord(r.method_) && r.gap > 0 && IsWord(r.target) && r.gap' > 0
    requires At(s, i, StartBytes(r)) && (i + |StartBytes(r)| < |s| ==> s[i + |StartBytes(r)|] != SP)
    ensures var t := i + |r.method_| + r.gap;
            RequestLine(s, i) == Ok(i + |StartBytes(r)|, (Slice(i, |r.method_|), Slice(t, |r.target|)))
    ensures s[i] != CR && s[i] != LF
  {
    hide Token, Find, IsWord;
    WordsNotEmpty(r);
    var t := i + |r.method_| + r.gap;
    AtSplit(s, i, r.method_ + Spaces(r.gap), r.target + Spaces(r.gap'));
    ReadWord(s, t, r.target, r.gap');
    ReadWord(s, i, r.method_, r.gap);
  }

  lemma WordsNotEmpty(r: RequestForm)
    requires IsWord(r.method_) && IsWord(r.target)
    ensures r.method_ != [] && r.target != []
  {
  }

  lemma ReadVersion(s: seq<byte>, i: nat, minor: byte)
    requires IsDigit(minor) && At(s, i, VersionBytes(minor))
    ensures i + 8 < |s| ==> Version(s, i) == Ok(i + 8, Digit(minor))
    ensures i < |s| && s[i] != SP && |VersionBytes(minor)| == 8
  {
    AtSplit(s, i, HTTP_1, [minor]);
    AtSlice(s, i, HTTP_1);
    assert s[i + 7 + 0] == [minor][0];
    assert s[i + 0] == HTTP_1[0];
  }

  lemma ReadLeading(s: seq<byte>, leading: Option<LineEnd>)
    requires At(s, 0, LeadingBytes(leading)) && |LeadingBytes(leading)| < |s|
    requires s[|LeadingBytes(leading)|] != CR && s[|LeadingBytes(leading)|] != LF
    ensures LeadingNewline(s) == Ok(|LeadingBytes(leading)|, ())
  {
    if leading.Some? { ReadEnd(s, 0, leading.value); }
  }

  /** Every text of the language is accepted, whatever follows it, and reported as it is. */
  lemma ReadRequest(s: seq<byte>, r: RequestForm, max: nat)
    requires IsRequest(r, max) && At(s, 0, RequestText(r))
    ensures Request(s, max) == Ok(|RequestText(r)|, RequestOf(r))
  {
    hide LeadingNewline, LeadingBytes, RequestLine, StartBytes, Version, VersionBytes, Newline, EndBytes, Headers,
         LinesBytes, AreLines, IsWord, At, HeadersOf;
    var i := |LeadingBytes(r.leading)|;
    var v := i + |StartBytes(r)|;
    var lines := LinesBytes(r.lines, r.last);
    AtSplit(s, 0, LeadingBytes(r.leading),
            StartBytes(r) + (VersionBytes(r.minor) + (EndBytes(r.end) + lines)));
    AtSplit(s, i, StartBytes(r), VersionBytes(r.minor) + (EndBytes(r.end) + lines));
    AtSplit(s, v, VersionBytes(r.minor), EndBytes(r.end) + lines);
    ReadVersion(s, v, r.minor);
    AtSplit(s, v + 8, EndBytes(r.end), lines);
    ReadEnd(s, v + 8, r.end);
    ReadStart(s, i, r);
    ReadLeading(s, r.leading);
    ReadLines(s, v + 8 + |EndBytes(r.end)|, 0, max, r.lines, r.last);
  }

  lemma ReadReason(s: seq<byte>, i: nat, d: seq<byte>, end: LineEnd)
    requires IsPlain(d) && (d != [] ==> d[0] == SP) && At(s, i, d + EndBytes(end))
    ensures |StripSpaces(d)| <= |d|
    ensures Reason(s, i) == Ok(i + |d| + |EndBytes(end)|, Slice(i + |d| - |StripSpaces(d)|, |StripSpaces(d)|))
  {
    hide TextLine, EndBytes, IsPlain, Find;
    StripShorter(d);
    ReadTextLine(s, i, d, end);
    AtSplit(s, i, d, EndBytes(end));
    ReadEnd(s, i + |d|, end);
    if d != [] {
      assert s[i + 0] == d[0];
      StripAt(s, i, d);
    }
  }

  lemma ReadCode(s: seq<byte>, i: nat, code: seq<byte>)
    requires |code| == 3 && IsDigit(code[0]) && IsDigit(code[1]) && IsDigit(code[2])
    requires At(s, i, code) && i + 3 < |s|
    ensures Status(s, i) == Ok(i + 3, 100 * Digit(code[0]) + 10 * Digit(code[1]) + Digit(code[2]))
    ensures s[i] != SP
  {
    assert s[i + 0] == code[0] && s[i + 1] == code[1] && s[i + 2] == code[2];
  }

  lemma ReadResponse(s: seq<byte>, r: ResponseForm, max: nat)
    requires IsResponse(r, max) && At(s, 0, ResponseText(r))
    ensures Response(s, max) == Ok(|ResponseText(r)|, ResponseOf(r))
  {
    hide Version, VersionBytes, Find, Spaces, Status, Reason, StripSpaces, EndBytes, Headers, LinesBytes, AreLines,
         IsPlain, At, HeadersOf;
    var lines, c := LinesBytes(r.lines, r.last), 8 + r.gap;
    var rest := r.code + ((r.reason + EndBytes(r.end)) + lines);
    AtSplit(s, 0, VersionBytes(r.minor), Spaces(r.gap) + rest);
    ReadVersion(s, 0, r.minor);
    AtSplit(s, 8, Spaces(r.gap), rest);
    AtSplit(s, c, r.code, (r.reason + EndBytes(r.end)) + lines);
    AtSplit(s, c + 3, r.reason + EndBytes(r.end), lines);
    ReadReason(s, c + 3, r.reason, r.end);
    EndsIn(s, c + 3, r.reason, r.end);
    ReadCode(s, c, r.code);
    ReadGap(s, 8, r.gap);
    ReadLines(s, c + 3 + |r.reason| + |EndBytes(r.end)|, 0, max, r.lines, r.last);
  }

  lemma EndsIn(s: seq<byte>, i: nat, d: seq<byte>, end: LineEnd)
    requires At(s, i, d + EndBytes(end))
    ensures i < |s|
  {
  }

  lemma ReadGap(s: seq<byte>, i: nat, gap: nat)
    requires gap > 0 && At(s, i, Spaces(gap)) && (i + gap < |s| ==> s[i + gap] != SP)
    ensures i < |s| && |Spaces(gap)| == gap && s[i] == SP && Find(NonSpace, s, i + 1) == i + gap
  {
    MoreSpaces(gap);
    AtSplit(s, i, [SP], Spaces(gap - 1));
    assert s[i + 0] == [SP][0];
    ReadSpaces(s, i + 1, gap - 1);
  }

  // ---------- every accepted head is such a text ----------

  /** The bytes from `i` to `j`. */
  lemma Part(s: seq<byte>, i: nat, j: nat)
    requires i <= j <= |s|
    ensures At(s, i, s[i..j])
  {
  }

  lemma FindEnd(s: seq<byte>, i: nat) returns (e: LineEnd)
    requires i <= |s| && Newline(s, i).Ok?
    ensures At(s, i, EndBytes(e)) && Newline(s, i).pos == i + |EndBytes(e)|
  {
    e := if s[i] == LF then Lf else CrLf;
  }

  lemma FindSpaces(s: seq<byte>, i: nat)
    requires i <= |s|
    ensures At(s, i, Spaces(Find(NonSpace, s, i) - i))
  {
    forall k | i <= k < Find(NonSpace, s, i) ensures s[k] == SP { assert !Stops(NonSpace, s[k]); }
  }

  lemma FindTextLine(s: seq<byte>, i: nat) returns (d: seq<byte>, e: LineEnd)
    requires i <= |s| && TextLine(s, i).Ok?
    ensures IsPlain(d) && At(s, i, d + EndBytes(e)) && TextLine(s, i).pos == i + |d| + |EndBytes(e)|
    ensures |d| == TextLine(s, i).value.len && (d != [] ==> d[0] == s[i])
    ensures d == [] ==> s[i] in {CR, LF}
  {
    hide EndBytes;
    var end := Find(EndOfText, s, i);
    d := s[i..end];
    forall k | 0 <= k < |d| ensures !Stops(EndOfText, d[k]) { assert d[k] == s[i + k]; }
    e := FindEnd(s, end);
    Part(s, i, end);
    AtJoin(s, i, d, EndBytes(e));
  }

  lemma FindName(s: seq<byte>, i: nat) returns (name: seq<byte>, blanks: seq<byte>)
    requires i <= |s| && FieldName(s, i).Ok?
    ensures IsName(name) && IsBlanks(blanks) && At(s, i, name + ([COLON] + blanks))
    ensures FieldName(s, i).pos == i + |name| + 1 + |blanks| < |s| && !IsBlank(s[FieldName(s, i).pos])
  {
    var e := Find(EndOfName, s, i);
    var v := Find(NonBlank, s, e + 1);
    name, blanks := s[i..e], s[e + 1..v];
    forall k | 0 <= k < |name| ensures IsTokenChar(name[k]) { assert !Stops(EndOfName, s[i + k]); }
    forall k | 0 <= k < |blanks| ensures IsBlank(blanks[k]) { assert !Stops(NonBlank, s[e + 1 + k]); }
    assert s[i..v] == name + ([COLON] + blanks);
    Part(s, i, v);
  }

  lemma FindLine(s: seq<byte>, i: nat, first: bool) returns (l: Line)
    requires i < |s| && HeaderLine(s, i, first).Ok?
    ensures IsLine(l, first) && At(s, i, LineBytes(l)) && HeaderLine(s, i, first).pos == i + |LineBytes(l)|
  {
    hide TextLine, FieldName, TrimmedLen, IsName, IsBlanks, IsPlain, EndBytes, At;
    if !first && IsBlank(s[i]) {
      var d, e := FindTextLine(s, i);
      l := Folded(d, e);
    } else {
      var name, blanks := FindName(s, i);
      var v := FieldName(s, i).pos;
      var d, e := FindTextLine(s, v);
      l := Named(name, blanks, d, e);
      AtJoin(s, i, name + ([COLON] + blanks), d + EndBytes(e));
    }
  }

  lemma {:induction false} FindLines(s: seq<byte>, i: nat, n: nat, max: nat) returns (lines: seq<Line>, last: LineEnd)
    requires i <= |s| && n <= max && Headers(s, i, n, max).Ok?
    ensures AreLines(lines, n == 0) && n + |lines| <= max
    ensures At(s, i, LinesBytes(lines, last)) && Headers(s, i, n, max).pos == i + |LinesBytes(lines, last)|
    decreases |s| - i
  {
    hide HeaderLine, IsLine, LineBytes, At, EndBytes;
    if AtNewline(s, i) {
      last := FindEnd(s, i);
      lines := [];
    } else {
      var l := FindLine(s, i, n == 0);
      HeaderLineBounds(s, i, n == 0);
      var more;
      more, last := FindLines(s, i + |LineBytes(l)|, n + 1, max);
      lines := [l] + more;
      forall k | 0 <= k < |lines| ensures IsLine(lines[k], n == 0 && k == 0) {
        if k > 0 { assert IsLine(more[k - 1], n + 1 == 0 && k - 1 == 0); }
      }
      assert lines[1..] == more;
      AtJoin(s, i, LineBytes(l), LinesBytes(more, last));
    }
  }

  lemma FindWord(s: seq<byte>, i: nat) returns (d: seq<byte>, gap: nat)
    requires i <= |s| && Token(s, i).Ok? && Token(s, i).value.len > 0
    ensures IsWord(d) && gap > 0 && At(s, i, d + Spaces(gap))
    ensures Token(s, i).pos == i + |d| < |s| && Find(NonSpace, s, Token(s, i).pos + 1) == i + |d| + gap
  {
    hide Find, Spaces;
    TokenIsWord(s, i);
    var e := Token(s, i).pos;
    d := s[i..e];
    var p := Find(NonSpace, s, e + 1);
    gap := p - e;
    FindSpaces(s, e + 1);
    MoreSpaces(gap);
    AtSpace(s, e);
    AtJoin(s, e, [SP], Spaces(gap - 1));
    Part(s, i, e);
    AtJoin(s, i, d, Spaces(gap));
  }

  lemma AtSpace(s: seq<byte>, i: nat)
    requires i < |s| && s[i] == SP
    ensures At(s, i, [SP])
  {
  }

  lemma FindStart(s: seq<byte>, i: nat) returns (m: seq<byte>, gap: nat, t: seq<byte>, gap': nat)
    requires i <= |s| && RequestLine(s, i).Ok?
    ensures IsWord(m) && gap > 0 && IsWord(t) && gap' > 0
    ensures At(s, i, (m + Spaces(gap)) + (t + Spaces(gap')))
    ensures RequestLine(s, i).pos == i + |m| + gap + |t| + gap'
  {
    hide Token, Find, Spaces, IsWord, At;
    m, gap := FindWord(s, i);
    t, gap' := FindWord(s, i + |m| + gap);
    AtJoin(s, i, m + Spaces(gap), t + Spaces(gap'));
  }

  lemma FindVersion(s: seq<byte>, i: nat) returns (minor: byte)
    requires i <= |s| && Version(s, i).Ok?
    ensures IsDigit(minor) && At(s, i, VersionBytes(minor)) && Version(s, i).pos == i + |VersionBytes(minor)|
    ensures |VersionBytes(minor)| == 8
  {
    minor := s[i + 7];
    assert s[i..i + 8] == HTTP_1 + [minor];
    Part(s, i, i + 8);
  }

  lemma FindLeading(s: seq<byte>) returns (leading: Option<LineEnd>)
    requires LeadingNewline(s).Ok?
    ensures At(s, 0, LeadingBytes(leading)) && LeadingNewline(s).pos == |LeadingBytes(leading)|
  {
    if AtNewline(s, 0) {
      var e := FindEnd(s, 0);
      leading := Some(e);
    } else {
      leading := None;
    }
  }

  lemma FindRequest(s: seq<byte>, max: nat) returns (r: RequestForm)
    requires Request(s, max).Ok?
    ensures IsRequest(r, max) && At(s, 0, RequestText(r)) && Request(s, max).pos == |RequestText(r)|
  {
    hide LeadingNewline, LeadingBytes, RequestLine, Spaces, Version, VersionBytes, Newline, EndBytes, Headers,
         LinesBytes, AreLines, IsWord, At;
    var i, v, e, h := SplitRequest(s, max);
    var leading := FindLeading(s);
    var m, gap, t, gap' := FindStart(s, i);
    var minor := FindVersion(s, v);
    var end := FindEnd(s, e);
    var lines, last := FindLines(s, h, 0, max);
    r := RequestForm(leading, m, gap, t, gap', minor, end, lines, last);
    AtJoin(s, e, EndBytes(end), LinesBytes(lines, last));
    AtJoin(s, v, VersionBytes(minor), EndBytes(end) + LinesBytes(lines, last));
    AtJoin(s, i, StartBytes(r), VersionBytes(minor) + (EndBytes(end) + LinesBytes(lines, last)));
    AtJoin(s, 0, LeadingBytes(leading),
           StartBytes(r) + (VersionBytes(minor) + (EndBytes(end) + LinesBytes(lines, last))));
  }

  lemma FindReason(s: seq<byte>, i: nat) returns (d: seq<byte>, e: LineEnd)
    requires i <= |s| && Reason(s, i).Ok?
    ensures IsPlain(d) && (d != [] ==> d[0] == SP) && At(s, i, d + EndBytes(e))
    ensures Reason(s, i).pos == i + |d| + |EndBytes(e)|
  {
    hide TextLine, Find, IsPlain, EndBytes, At;
    TextLineShape(s, i);
    d, e := FindTextLine(s, i);
  }

  lemma FindCode(s: seq<byte>, i: nat) returns (code: seq<byte>)
    requires i <= |s| && Status(s, i).Ok?
    ensures |code| == 3 && IsDigit(code[0]) && IsDigit(code[1]) && IsDigit(code[2])
    ensures At(s, i, code) && Status(s, i).pos == i + 3
  {
    code := s[i..i + 3];
    Part(s, i, i + 3);
  }

  lemma FindGap(s: seq<byte>, i: nat)
    requires i < |s| && s[i] == SP
    ensures At(s, i, Spaces(Find(NonSpace, s, i + 1) - i))
  {
    hide Find;
    FindSpaces(s, i + 1);
    MoreSpaces(Find(NonSpace, s, i + 1) - i);
    AtSpace(s, i);
    AtJoin(s, i, [SP], Spaces(Find(NonSpace, s, i + 1) - i - 1));
  }

  lemma FindResponse(s: seq<byte>, max: nat) returns (r: ResponseForm)
    requires Response(s, max).Ok?
    ensures IsResponse(r, max) && At(s, 0, ResponseText(r)) && Response(s, max).pos == |ResponseText(r)|
  {
    hide Version, VersionBytes, Find, Spaces, Status, Reason, EndBytes, Headers, LinesBytes, AreLines, IsPlain, At;
    var e, c, f, h := SplitResponse(s, max);
    var minor := FindVersion(s, 0);
    FindGap(s, e);
    var code := FindCode(s, c);
    var reason, end := FindReason(s, f);
    var lines, last := FindLines(s, h, 0, max);
    r := ResponseForm(minor, c - e, code, reason, end, lines, last);
    var tail := (reason + EndBytes(end)) + LinesBytes(lines, last);
    AtJoin(s, f, reason + EndBytes(end), LinesBytes(lines, last));
    AtJoin(s, c, code, tail);
    AtJoin(s, e, Spaces(c - e), code + tail);
    AtJoin(s, 0, VersionBytes(minor), Spaces(c - e) + (code + tail));
  }

  // ---------- the two directions together ----------

  lemma AtFront(s: seq<byte>, d: seq<byte>)
    ensures At(s, 0, d) <==> d <= s
  {
    if At(s, 0, d) { assert forall k :: 0 <= k < |d| ==> s[0 + k] == d[k]; }
  }

  /** The parser accepts a request head of `n` bytes and reports `head` if and only if the input starts
      with a text of the language that has `n` bytes and is described by `head`. */
  lemma RequestsExactly(s: seq<byte>, max: nat, n: nat, head: RequestHead)
    ensures Request(s, max) == Ok(n, head) <==>
              exists r :: IsRequest(r, max) && RequestText(r) <= s && |RequestText(r)| == n && RequestOf(r) == head
  {
    hide Request, RequestText, RequestOf, At, IsRequest;
    if Request(s, max).Ok? {
      var r := FindRequest(s, max);
      ReadRequest(s, r, max);
      AtFront(s, RequestText(r));
    }
    if r :| IsRequest(r, max) && RequestText(r) <= s && |RequestText(r)| == n && RequestOf(r) == head {
      AtFront(s, RequestText(r));
      ReadRequest(s, r, max);
    }
  }

  lemma ResponsesExactly(s: seq<byte>, max: nat, n: nat, head: ResponseHead)
    ensures Response(s, max) == Ok(n, head) <==>
              exists r :: IsResponse(r, max) && ResponseText(r) <= s && |ResponseText(r)| == n && ResponseOf(r) == head
  {
    hide Response, ResponseText, ResponseOf, At;
    if Response(s, max).Ok? {
      var r := FindResponse(s, max);
      ReadResponse(s, r, max);
      AtFront(s, ResponseText(r));
    }
    if r :| IsResponse(r, max) && ResponseText(r) <= s && |ResponseText(r)| == n && ResponseOf(r) == head {
      AtFront(s, ResponseText(r));
      ReadResponse(s, r, max);
    }
  }
}
