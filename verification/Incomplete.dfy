/**
 When the parser asks for more. First on the bytes: an input that holds an empty line is not
 incomplete, apart from a few bytes at the end of the first line that the parser wants to see at
 once. Then exactly: it asks for more if and only if the input is the beginning of a text of the
 language, or ends in one of the places where it does not look yet.
 */
module Incomplete {
  import opened Wrappers
  import opened Bytes
  import opened HttpSyntax
  import opened ParserLaws
  import opened ShortcutLaws
  import opened RoundTrip
  import opened HeadLanguage

  // ---------- on the bytes ----------

  predicate NoLf(s: seq<byte>, i: nat, j: nat) {
    j <= |s| && forall k :: i <= k < j ==> s[k] != LF
  }

  lemma FindNoLf(c: Stop, s: seq<byte>, i: nat)
    requires i <= |s|
    ensures NoLf(s, i, Find(c, s, i))
  {
    forall k | i <= k < Find(c, s, i) ensures s[k] != LF { assert !Stops(c, s[k]); }
  }

  lemma TextLineMore(s: seq<byte>, i: nat)
    requires i <= |s|
    ensures TextLine(s, i).More? ==> NoLf(s, i, |s|)
    ensures TextLine(s, i).Ok? ==> i < TextLine(s, i).pos <= |s| && NoLf(s, i, TextLine(s, i).pos - 1)
  {
    FindNoLf(EndOfText, s, i);
  }

  lemma FieldNameMore(s: seq<byte>, i: nat)
    requires i <= |s|
    ensures FieldName(s, i).More? ==> NoLf(s, i, |s|)
    ensures FieldName(s, i).Ok? ==> NoLf(s, i, FieldName(s, i).pos)
  {
    var e := Find(EndOfName, s, i);
    FindNoLf(EndOfName, s, i);
    if e < |s| {
      FindNoLf(NonBlank, s, e + 1);
    }
  }

  /** A header line is incomplete only while its LF is missing. */
  lemma HeaderLineMore(s: seq<byte>, i: nat, first: bool)
    requires i < |s|
    ensures HeaderLine(s, i, first).More? ==> NoLf(s, i, |s|)
    ensures HeaderLine(s, i, first).Ok? ==> NoLf(s, i, HeaderLine(s, i, first).pos - 1)
  {
    hide TextLine, FieldName, TrimmedLen;
    if !first && IsBlank(s[i]) {
      TextLineMore(s, i);
    } else {
      FieldNameMore(s, i);
      if FieldName(s, i).Ok? {
        FieldNameBounds(s, i);
        TextLineMore(s, FieldName(s, i).pos);
      }
    }
  }

  /** Header lines are incomplete only while there is no empty line behind the line before them. */
  lemma {:induction false} HeadersMore(s: seq<byte>, i: nat, n: nat, max: nat)
    requires 0 < i <= |s| && s[i - 1] == LF && Headers(s, i, n, max).More?
    ensures !EmptyLine(s, i - 1)
    decreases |s| - i
  {
    hide HeaderLine;
    if !AtNewline(s, i) {
      HeaderLineMore(s, i, n == 0);
      HeaderLineBounds(s, i, n == 0);
      if HeaderLine(s, i, n == 0).Ok? {
        HeadersMore(s, HeaderLine(s, i, n == 0).pos, n + 1, max);
      }
    }
  }

  lemma RequestLineMore(s: seq<byte>, i: nat)
    requires i <= |s|
    ensures RequestLine(s, i).More? ==> NoLf(s, i, |s|)
    ensures RequestLine(s, i).Ok? ==>
              var v := RequestLine(s, i).pos; i + 2 < v <= |s| && NoLf(s, i, v)
  {
    hide Find;
    var e := Find(EndOfToken, s, i);
    FindNoLf(EndOfToken, s, i);
    if e < |s| && s[e] == SP {
      var p := Find(NonSpace, s, e + 1);
      var f := Find(EndOfToken, s, p);
      FindNoLf(NonSpace, s, e + 1);
      FindNoLf(EndOfToken, s, p);
      if f < |s| {
        FindNoLf(NonSpace, s, f + 1);
      }
    }
  }

  lemma VersionNoLf(s: seq<byte>, i: nat)
    requires i <= |s| && Version(s, i).Ok?
    ensures NoLf(s, i, i + 8)
  {
    forall k | i <= k < i + 8
      ensures s[k] != LF
    {
      if k < i + 7 { assert s[k] == s[i..i + 7][k - i] == HTTP_1[k - i]; }
    }
  }

  /** The only LF in front of the request line is that of the leading line ending. */
  lemma LeadingLf(s: seq<byte>)
    ensures LeadingNewline(s).Ok? ==>
              && LeadingNewline(s).pos <= 2
              && NoLf(s, 0, if LeadingNewline(s).pos == 0 then 0 else LeadingNewline(s).pos - 1)
    ensures LeadingNewline(s).More? ==> NoLf(s, 0, |s|)
  {
  }

  /** A request head is incomplete only as long as no empty line has nine bytes from its first LF on. */
  lemma RequestMore(s: seq<byte>, max: nat, q: nat, p: nat)
    requires EmptyLineEnds(s, q, p) && |s| - q >= 9
    ensures !Request(s, max).More?
  {
    hide LeadingNewline, RequestLine, Version, Headers;
    LeadingLf(s);
    if LeadingNewline(s).Ok? {
      var i := LeadingNewline(s).pos;
      LeadingBounds(s);
      RequestLineMore(s, i);
      if RequestLine(s, i).Ok? {
        var v := RequestLine(s, i).pos;
        VersionBounds(s, v);
        if Version(s, v).Ok? {
          VersionNoLf(s, v);
          NewlineMore(s, v + 8);
          if Newline(s, v + 8).Ok? && Headers(s, Newline(s, v + 8).pos, 0, max).More? {
            HeadersMore(s, Newline(s, v + 8).pos, 0, max);
          }
        } else if Version(s, v).More? {
          VersionShort(s, v);
        }
      }
    }
  }

  lemma VersionShort(s: seq<byte>, i: nat)
    requires i <= |s|
    ensures Version(s, i).More? <==> |s| - i < 9
  {
  }

  lemma StatusShort(s: seq<byte>, i: nat)
    requires i <= |s|
    ensures Status(s, i).More? <==> |s| - i < 4
    ensures Status(s, i).Ok? ==> Status(s, i).pos == i + 3 && NoLf(s, i, i + 3)
  {
  }

  lemma ReasonMore(s: seq<byte>, i: nat)
    requires i <= |s|
    ensures Reason(s, i).More? ==> NoLf(s, i, |s|)
    ensures Reason(s, i).Ok? ==>
              && i < Reason(s, i).pos <= |s|
              && NoLf(s, i, Reason(s, i).pos - 1) && s[Reason(s, i).pos - 1] == LF
  {
    TextLineMore(s, i);
    NewlineMore(s, Find(EndOfText, s, i));
  }

  /** A response head is incomplete only as long as it has less than nine bytes, or no empty line has
      four bytes from its first LF on. */
  lemma ResponseMore(s: seq<byte>, max: nat, q: nat, p: nat)
    requires EmptyLineEnds(s, q, p) && |s| - q >= 4 && |s| >= 9
    ensures !Response(s, max).More?
  {
    hide Version, Find, Status, Reason, Headers;
    VersionShort(s, 0);
    VersionBounds(s, 0);
    if Version(s, 0).Ok? && s[8] == SP {
      VersionNoLf(s, 0);
      var c := Find(NonSpace, s, 9);
      FindNoLf(NonSpace, s, 9);
      StatusShort(s, c);
      if Status(s, c).Ok? {
        ReasonMore(s, c + 3);
        if Reason(s, c + 3).Ok? && Headers(s, Reason(s, c + 3).pos, 0, max).More? {
          HeadersMore(s, Reason(s, c + 3).pos, 0, max);
        }
      }
    }
  }

  // ---------- exactly ----------

  predicate IsWordPart(d: seq<byte>) {
    forall k :: 0 <= k < |d| ==> !Stops(EndOfToken, d[k])
  }

  /** The beginning of a request head, but not all of it. */
  ghost predicate BeginsRequest(s: seq<byte>, max: nat) {
    exists r :: IsRequest(r, max) && s < RequestText(r)
  }

  /** A space where the method should be: noticed at the end of the next word. */
  ghost predicate LacksMethod(s: seq<byte>) {
    exists leading, gap: nat, d :: gap > 0 && IsWordPart(d) && s == LeadingBytes(leading) + (Spaces(gap) + d)
  }

  /** Anything in less than nine bytes where the version should be. */
  ghost predicate LacksVersion(s: seq<byte>) {
    exists r: RequestForm, d ::
      && IsWord(r.method_) && r.gap > 0 && IsWord(r.target) && r.gap' > 0
      && |d| < 9 && (d != [] ==> d[0] != SP) && s == LeadingBytes(r.leading) + (StartBytes(r) + d)
  }

  ghost predicate BeginsResponse(s: seq<byte>, max: nat) {
    exists r :: IsResponse(r, max) && s < ResponseText(r)
  }

  /** Anything in less than four bytes where the code should be. */
  ghost predicate LacksCode(s: seq<byte>) {
    exists minor, gap: nat, d ::
      && IsDigit(minor) && gap > 0 && |d| < 4 && (d != [] ==> d[0] != SP)
      && s == VersionBytes(minor) + (Spaces(gap) + d)
  }

  /** Text right behind the code, without a space: noticed at the end of the line. */
  ghost predicate LacksSpace(s: seq<byte>) {
    exists r: ResponseForm, d, cr ::
      && IsDigit(r.minor) && r.gap > 0
      && |r.code| == 3 && IsDigit(r.code[0]) && IsDigit(r.code[1]) && IsDigit(r.code[2])
      && IsPlain(d) && d != [] && d[0] != SP && (cr == [] || cr == [CR])
      && s == VersionBytes(r.minor) + (Spaces(r.gap) + (r.code + (d + cr)))
  }

  // ---------- what is still missing ----------

  lemma FindMoreText(s: seq<byte>, i: nat) returns (d: seq<byte>, e: LineEnd)
    requires i <= |s| && TextLine(s, i).More?
    ensures IsPlain(d) && s[i..] < d + EndBytes(e)
    ensures d == [] ==> i == |s| || s[i] == CR
    ensures d != [] ==> i < |s| && d[0] == s[i]
    ensures s[i..] == d || (s[i..] == d + [CR] && e == CrLf)
  {
    var end := Find(EndOfText, s, i);
    d := s[i..end];
    forall k | 0 <= k < |d| ensures !Stops(EndOfText, d[k]) { assert d[k] == s[i + k]; }
    if end == |s| {
      e := Lf;
    } else {
      e := CrLf;
      assert s[i..] == d + [CR];
      assert d + EndBytes(CrLf) == (d + [CR]) + [LF];
    }
  }

  lemma FindMoreName(s: seq<byte>, i: nat) returns (name: seq<byte>, blanks: seq<byte>)
    requires i < |s| && FieldName(s, i).More?
    ensures IsName(name) && IsBlanks(blanks)
    ensures s[i..] <= name + ([COLON] + blanks)
  {
    var e := Find(EndOfName, s, i);
    name := s[i..e];
    forall k | 0 <= k < |name| ensures IsTokenChar(name[k]) { assert !Stops(EndOfName, s[i + k]); }
    if e == |s| {
      blanks := [];
      assert s[i..] == name;
    } else {
      blanks := s[e + 1..];
      forall k | 0 <= k < |blanks| ensures IsBlank(blanks[k]) { assert !Stops(NonBlank, s[e + 1 + k]); }
      assert s[i..] == name + ([COLON] + blanks);
    }
  }

  lemma FindMoreLine(s: seq<byte>, i: nat, first: bool) returns (l: Line)
    requires i < |s| && !AtNewline(s, i) && HeaderLine(s, i, first).More?
    ensures IsLine(l, first) && s[i..] < LineBytes(l)
  {
    hide TextLine, FieldName, TrimmedLen, IsName, IsBlanks, IsPlain, EndBytes, At;
    if !first && IsBlank(s[i]) {
      var d, e := FindMoreText(s, i);
      l := Folded(d, e);
    } else if FieldName(s, i).More? {
      var name, blanks := FindMoreName(s, i);
      l := Named(name, blanks, [], Lf);
      PlainNothing();
      assert LineBytes(l) == (name + ([COLON] + blanks)) + [LF];
    } else {
      FieldNameBounds(s, i);
      var name, blanks := FindName(s, i);
      var v := FieldName(s, i).pos;
      var d, e := FindMoreText(s, v);
      l := Named(name, blanks, d, e);
      PrefixJoin(s, i, name + ([COLON] + blanks), d + EndBytes(e));
    }
  }

  lemma PlainNothing()
    ensures IsPlain([]) && EndBytes(Lf) == [LF] && EndBytes(CrLf) == CRLF
  {
  }

  /** What begins `b` behind `a` begins both together. */
  lemma PrefixJoin(s: seq<byte>, i: nat, a: seq<byte>, b: seq<byte>)
    requires At(s, i, a) && s[i + |a|..] < b
    ensures s[i..] < a + b
  {
    assert s[i..] == a + s[i + |a|..] by {
      forall k | 0 <= k < |a| ensures s[i..][k] == a[k] { assert s[i + k] == a[k]; }
    }
  }

  lemma {:induction false} FindMoreLines(s: seq<byte>, i: nat, n: nat, max: nat)
    returns (lines: seq<Line>, last: LineEnd)
    requires i <= |s| && n <= max && Headers(s, i, n, max).More?
    ensures AreLines(lines, n == 0) && n + |lines| <= max && s[i..] < LinesBytes(lines, last)
    decreases |s| - i
  {
    hide HeaderLine, IsLine, LineBytes, At;
    if AtNewline(s, i) {
      lines, last := [], if i == |s| then Lf else CrLf;
      assert s[i..] == if i == |s| then [] else [CR];
    } else if HeaderLine(s, i, n == 0).More? {
      var l := FindMoreLine(s, i, n == 0);
      lines, last := [l], Lf;
      assert lines[1..] == [];
    } else {
      var l := FindLine(s, i, n == 0);
      HeaderLineBounds(s, i, n == 0);
      var more;
      more, last := FindMoreLines(s, i + |LineBytes(l)|, n + 1, max);
      lines := [l] + more;
      forall k | 0 <= k < |lines| ensures IsLine(lines[k], n == 0 && k == 0) {
        if k > 0 { assert IsLine(more[k - 1], n + 1 == 0 && k - 1 == 0); }
      }
      assert lines[1..] == more;
      PrefixJoin(s, i, LineBytes(l), LinesBytes(more, last));
    }
  }

  // ---------- requests ----------

  /** A request that begins as given. */
  function Begun(leading: Option<LineEnd>, m: seq<byte>, gap: nat, t: seq<byte>): RequestForm {
    RequestForm(leading, m, gap, t, 1, 48, Lf, [], Lf)
  }

  lemma BegunIsRequest(r: RequestForm, max: nat)
    requires r == Begun(r.leading, r.method_, r.gap, r.target) && IsWord(r.method_) && IsWord(r.target) && r.gap > 0
    ensures IsRequest(r, max)
  {
  }

  /** `a` is the beginning of what is made longer twice. */
  lemma Shorter(a: seq<byte>, b: seq<byte>, c: seq<byte>, d: seq<byte>)
    requires a <= b && c != []
    ensures a < (b + c) + d
  {
    assert (b + c) + d == a + (b[|a|..] + (c + d));
  }

  lemma MoreLeading(s: seq<byte>, max: nat)
    requires LeadingNewline(s).More?
    ensures BeginsRequest(s, max)
  {
    hide StartBytes, VersionBytes, LinesBytes;
    var r := Begun(Some(CrLf), [65], 1, [66]);
    BegunIsRequest(r, max);
    assert s <= [CR] && EndBytes(CrLf) == [CR] + [LF];
    Shorter(s, [CR], [LF], StartBytes(r) + (VersionBytes(r.minor) + (EndBytes(r.end) + LinesBytes(r.lines, r.last))));
    assert s < RequestText(r);
  }

  /** The rest of the input from `i` on, which the scan for the end of a word passed over. */
  lemma RestOfWord(s: seq<byte>, i: nat)
    requires i <= |s| && Token(s, i).More?
    ensures IsWordPart(s[i..])
  {
    forall k | 0 <= k < |s| - i ensures !Stops(EndOfToken, s[i..][k]) { assert !Stops(EndOfToken, s[i + k]); }
  }

  /** The word itself, or any word if nothing of it is there. */
  function Completed(d: seq<byte>): (w: seq<byte>)
    requires IsWordPart(d)
    ensures IsWord(w) && d <= w
  {
    if d == [] then [65] else d
  }

  lemma MoreMethod(s: seq<byte>, leading: Option<LineEnd>, max: nat)
    requires At(s, 0, LeadingBytes(leading)) && Token(s, |LeadingBytes(leading)|).More?
    ensures BeginsRequest(s, max)
  {
    hide LeadingBytes, VersionBytes, LinesBytes, IsWord, IsWordPart, EndBytes, Spaces;
    var i := |LeadingBytes(leading)|;
    RestOfWord(s, i);
    WordA();
    var r := Begun(leading, Completed(s[i..]), 1, [65]);
    BegunIsRequest(r, max);
    var tail := VersionBytes(r.minor) + (EndBytes(r.end) + LinesBytes(r.lines, r.last));
    Shorter(s[i..], r.method_, Spaces(1), (r.target + Spaces(1)) + tail);
    assert StartBytes(r) + tail == (r.method_ + Spaces(1)) + ((r.target + Spaces(1)) + tail);
    PrefixJoin(s, 0, LeadingBytes(leading), StartBytes(r) + tail);
    assert s[0..] == s < RequestText(r);
  }

  lemma WordA()
    ensures IsWord([65])
  {
  }

  lemma MoreTarget(s: seq<byte>, leading: Option<LineEnd>, m: seq<byte>, gap: nat, max: nat)
    requires IsWord(m) && gap > 0 && At(s, 0, LeadingBytes(leading))
    requires var i := |LeadingBytes(leading)|; At(s, i, m + Spaces(gap)) && Token(s, i + |m| + gap).More?
    ensures BeginsRequest(s, max)
  {
    hide LeadingBytes, VersionBytes, LinesBytes, IsWord, IsWordPart, EndBytes, Spaces, At;
    var i := |LeadingBytes(leading)|;
    var p := i + |m| + gap;
    RestOfWord(s, p);
    var r := Begun(leading, m, gap, Completed(s[p..]));
    BegunIsRequest(r, max);
    var tail := VersionBytes(r.minor) + (EndBytes(r.end) + LinesBytes(r.lines, r.last));
    Shorter(s[p..], r.target, Spaces(1), tail);
    PrefixJoin(s, i, m + Spaces(gap), (r.target + Spaces(1)) + tail);
    assert StartBytes(r) + tail == (m + Spaces(gap)) + ((r.target + Spaces(1)) + tail);
    PrefixJoin(s, 0, LeadingBytes(leading), StartBytes(r) + tail);
    assert s[0..] == s < RequestText(r);
  }

  lemma NoMethod(s: seq<byte>, leading: Option<LineEnd>)
    requires var i := |LeadingBytes(leading)|;
             && At(s, 0, LeadingBytes(leading)) && i < |s| && s[i] == SP
             && Token(s, Find(NonSpace, s, i + 1)).More?
    ensures LacksMethod(s)
  {
    hide LeadingBytes, Find, Spaces, IsWordPart, Token, At;
    var i := |LeadingBytes(leading)|;
    var p := Find(NonSpace, s, i + 1);
    FindGap(s, i);
    RestOfWord(s, p);
    ThreeParts(s, LeadingBytes(leading), Spaces(p - i));
  }

  lemma ThreeParts(s: seq<byte>, a: seq<byte>, b: seq<byte>)
    requires At(s, 0, a) && At(s, |a|, b)
    ensures |a| + |b| <= |s| && s == a + (b + s[|a| + |b|..])
  {
    AtIs(s, 0, a);
    AtIs(s, |a|, b);
  }

  lemma AtIs(s: seq<byte>, i: nat, d: seq<byte>)
    requires At(s, i, d)
    ensures s[i..i + |d|] == d
  {
  }

  lemma NoVersion(s: seq<byte>, r: RequestForm)
    requires IsWord(r.method_) && r.gap > 0 && IsWord(r.target) && r.gap' > 0
    requires var i := |LeadingBytes(r.leading)|; var v := i + |StartBytes(r)|;
             && At(s, 0, LeadingBytes(r.leading)) && At(s, i, StartBytes(r))
             && |s| - v < 9 && (v < |s| ==> s[v] != SP)
    ensures LacksVersion(s)
  {
    hide LeadingBytes, StartBytes, IsWord;
    var i := |LeadingBytes(r.leading)|;
    var v := i + |StartBytes(r)|;
    ThreeParts(s, LeadingBytes(r.leading), StartBytes(r));
  }

  lemma MoreLines(s: seq<byte>, r: RequestForm, max: nat)
    requires IsRequest(r, max) && At(s, 0, LeadingBytes(r.leading))
    requires var i := |LeadingBytes(r.leading)|; var v := i + |StartBytes(r)|;
             && At(s, i, StartBytes(r)) && At(s, v, VersionBytes(r.minor))
             && s[v + |VersionBytes(r.minor)|..] < EndBytes(r.end) + LinesBytes(r.lines, r.last)
    ensures BeginsRequest(s, max)
  {
    hide LeadingBytes, StartBytes, VersionBytes, EndBytes, LinesBytes, IsRequest, At;
    var i := |LeadingBytes(r.leading)|;
    var v := i + |StartBytes(r)|;
    var rest := EndBytes(r.end) + LinesBytes(r.lines, r.last);
    PrefixJoin(s, v, VersionBytes(r.minor), rest);
    PrefixJoin(s, i, StartBytes(r), VersionBytes(r.minor) + rest);
    PrefixJoin(s, 0, LeadingBytes(r.leading), StartBytes(r) + (VersionBytes(r.minor) + rest));
    assert s[0..] == s < RequestText(r);
  }

  lemma RequestLineStops(s: seq<byte>, i: nat)
    requires i <= |s| && RequestLine(s, i).Ok?
    ensures RequestLine(s, i).pos < |s| ==> s[RequestLine(s, i).pos] != SP
  {
    hide Token;
  }

  lemma FindMoreStart(s: seq<byte>, leading: Option<LineEnd>, max: nat)
    requires At(s, 0, LeadingBytes(leading)) && RequestLine(s, |LeadingBytes(leading)|).More?
    ensures BeginsRequest(s, max) || LacksMethod(s)
  {
    hide LeadingBytes, Token, Find, BeginsRequest, LacksMethod;
    var i := |LeadingBytes(leading)|;
    TokenBounds(s, i);
    if Token(s, i).More? {
      MoreMethod(s, leading, max);
    } else if Token(s, i).value.len == 0 {
      EmptyToken(s, i);
      NoMethod(s, leading);
    } else {
      var m, gap := FindWord(s, i);
      TargetNotEmpty(s, i + |m| + gap);
      MoreTarget(s, leading, m, gap, max);
    }
  }

  lemma EmptyToken(s: seq<byte>, i: nat)
    requires i <= |s| && Token(s, i).Ok? && Token(s, i).value.len == 0
    ensures Token(s, i).pos == i < |s| && s[i] == SP
  {
  }

  lemma TargetNotEmpty(s: seq<byte>, i: nat)
    requires i <= |s|
    ensures Token(s, i).Ok? ==> Token(s, i).pos < |s|
  {
  }

  lemma FindMoreEnd(s: seq<byte>, e: nat) returns (end: LineEnd, lines: seq<Line>, last: LineEnd)
    requires e < |s| && Newline(s, e).More?
    ensures lines == [] && s[e..] < EndBytes(end) + LinesBytes(lines, last)
  {
    end, lines, last := CrLf, [], Lf;
    assert s[e..] == [CR];
    assert EndBytes(CrLf) + EndBytes(Lf) == [CR, LF, LF];
  }

  /** Every request that is incomplete begins a text, or is in one of the two places. */
  lemma FindMoreRequest(s: seq<byte>, max: nat)
    requires Request(s, max).More?
    ensures BeginsRequest(s, max) || LacksMethod(s) || LacksVersion(s)
  {
    hide LeadingNewline, LeadingBytes, RequestLine, Spaces, Version, VersionBytes, Newline, EndBytes, Headers,
         LinesBytes, AreLines, IsWord, At, BeginsRequest, LacksMethod, LacksVersion;
    if LeadingNewline(s).More? {
      MoreLeading(s, max);
      return;
    }
    var leading := FindLeading(s);
    var i := |LeadingBytes(leading)|;
    LeadingBounds(s);
    if RequestLine(s, i).More? {
      FindMoreStart(s, leading, max);
      return;
    }
    RequestLineBounds(s, i);
    RequestLineStops(s, i);
    var m, gap, t, gap' := FindStart(s, i);
    var v := RequestLine(s, i).pos;
    var r := RequestForm(leading, m, gap, t, gap', 48, Lf, [], Lf);
    VersionShort(s, v);
    if Version(s, v).More? {
      NoVersion(s, r);
      return;
    }
    VersionBounds(s, v);
    var minor := FindVersion(s, v);
    NewlineMore(s, v + 8);
    var end, lines, last;
    if Newline(s, v + 8).More? {
      end, lines, last := FindMoreEnd(s, v + 8);
      NoLines();
    } else {
      end := FindEnd(s, v + 8);
      lines, last := FindMoreLines(s, Newline(s, v + 8).pos, 0, max);
      PrefixJoin(s, v + 8, EndBytes(end), LinesBytes(lines, last));
    }
    MoreLines(s, r.(minor := minor, end := end, lines := lines, last := last), max);
  }

  lemma NoLines()
    ensures AreLines([], true)
  {
  }

  lemma LacksMethodAsks(s: seq<byte>, max: nat)
    requires LacksMethod(s)
    ensures Request(s, max).More?
  {
    hide LeadingBytes, Spaces;
    var leading: Option<LineEnd>, gap: nat, d :|
      gap > 0 && IsWordPart(d) && s == LeadingBytes(leading) + (Spaces(gap) + d);
    var i := |LeadingBytes(leading)|;
    AtFront(s, LeadingBytes(leading));
    AtBehind(s, LeadingBytes(leading), Spaces(gap), d);
    assert d != [] ==> !Stops(EndOfToken, d[0]);
    ReadGap(s, i, gap);
    ReadLeading(s, leading);
    assert Token(s, i) == Ok(i, Slice(i, 0));
    assert s[i + gap..] == d;
    forall k | i + gap <= k < |s| ensures !Stops(EndOfToken, s[k]) { assert s[k] == d[k - i - gap]; }
    assert Find(EndOfToken, s, i + gap) == |s|;
  }

  lemma AtBehind(s: seq<byte>, a: seq<byte>, b: seq<byte>, c: seq<byte>)
    requires s == a + (b + c)
    ensures At(s, 0, a) && At(s, |a|, b) && s[|a| + |b|..] == c
  {
  }

  lemma LacksVersionAsks(s: seq<byte>, max: nat)
    requires LacksVersion(s)
    ensures Request(s, max).More?
  {
    hide LeadingBytes, StartBytes, LeadingNewline, RequestLine, Version, Headers, At;
    var r: RequestForm, d :|
      && IsWord(r.method_) && r.gap > 0 && IsWord(r.target) && r.gap' > 0
      && |d| < 9 && (d != [] ==> d[0] != SP) && s == LeadingBytes(r.leading) + (StartBytes(r) + d);
    var i := |LeadingBytes(r.leading)|;
    AtBehind(s, LeadingBytes(r.leading), StartBytes(r), d);
    assert i + |StartBytes(r)| < |s| ==> s[i + |StartBytes(r)|] == d[0];
    StartNotEmpty(r);
    ReadStart(s, i, r);
    ReadLeading(s, r.leading);
    VersionShort(s, i + |StartBytes(r)|);
  }

  lemma StartNotEmpty(r: RequestForm)
    requires IsWord(r.method_)
    ensures |StartBytes(r)| > 0
  {
  }

  lemma BeginsRequestAsks(s: seq<byte>, max: nat)
    requires BeginsRequest(s, max)
    ensures Request(s, max).More?
  {
    hide Request, RequestText, IsRequest, At;
    var r :| IsRequest(r, max) && s < RequestText(r);
    var t := RequestText(r);
    AtFront(t, t);
    ReadRequest(t, r, max);
    assert t[..|s|] == s;
    RequestPrefixes(t, max, |s|);
  }

  /** The parser asks for more if and only if the input is the beginning of a request head, or ends
      where it does not look yet. Anything else that is not accepted is rejected at once. */
  lemma RequestIncompleteExactly(s: seq<byte>, max: nat)
    ensures Request(s, max).More? <==> BeginsRequest(s, max) || LacksMethod(s) || LacksVersion(s)
  {
    hide Request, BeginsRequest, LacksMethod, LacksVersion;
    if Request(s, max).More? { FindMoreRequest(s, max); }
    if BeginsRequest(s, max) { BeginsRequestAsks(s, max); }
    if LacksMethod(s) { LacksMethodAsks(s, max); }
    if LacksVersion(s) { LacksVersionAsks(s, max); }
  }

  // ---------- responses ----------

  lemma NoCode(s: seq<byte>, minor: byte, gap: nat)
    requires IsDigit(minor) && gap > 0 && At(s, 0, VersionBytes(minor))
    requires var v := |VersionBytes(minor)|;
             && At(s, v, Spaces(gap)) && |s| - (v + gap) < 4 && (v + gap < |s| ==> s[v + gap] != SP)
    ensures LacksCode(s)
  {
    hide VersionBytes, Spaces, At;
    ThreeParts(s, VersionBytes(minor), Spaces(gap));
  }

  lemma NoSpace(s: seq<byte>, r: ResponseForm, d: seq<byte>)
    requires IsDigit(r.minor) && r.gap > 0
    requires |r.code| == 3 && IsDigit(r.code[0]) && IsDigit(r.code[1]) && IsDigit(r.code[2])
    requires At(s, 0, VersionBytes(r.minor)) && At(s, |VersionBytes(r.minor)|, Spaces(r.gap) + r.code)
    requires var f := |VersionBytes(r.minor)| + r.gap + 3;
             && f <= |s| && IsPlain(d) && d != [] && d[0] != SP && (s[f..] == d || s[f..] == d + [CR])
    ensures LacksSpace(s)
  {
    hide VersionBytes, Spaces, At, IsPlain;
    ThreeParts(s, VersionBytes(r.minor), Spaces(r.gap) + r.code);
    var f := |VersionBytes(r.minor)| + r.gap + 3;
    var cr := if s[f..] == d then [] else [CR];
    assert s[f..] == d + cr;
    assert (Spaces(r.gap) + r.code) + s[f..] == Spaces(r.gap) + (r.code + (d + cr));
  }

  lemma MoreResponse(s: seq<byte>, r: ResponseForm, max: nat)
    requires IsResponse(r, max) && At(s, 0, VersionBytes(r.minor))
    requires var v := |VersionBytes(r.minor)|;
             && At(s, v, Spaces(r.gap)) && At(s, v + r.gap, r.code)
             && s[v + r.gap + 3..] < (r.reason + EndBytes(r.end)) + LinesBytes(r.lines, r.last)
    ensures BeginsResponse(s, max)
  {
    hide VersionBytes, Spaces, EndBytes, LinesBytes, IsResponse, At;
    var v := |VersionBytes(r.minor)|;
    var rest := (r.reason + EndBytes(r.end)) + LinesBytes(r.lines, r.last);
    CodeSize(r, max);
    PrefixJoin(s, v + r.gap, r.code, rest);
    PrefixJoin(s, v, Spaces(r.gap), r.code + rest);
    PrefixJoin(s, 0, VersionBytes(r.minor), Spaces(r.gap) + (r.code + rest));
    assert s[0..] == s < ResponseText(r);
  }

  lemma CodeSize(r: ResponseForm, max: nat)
    requires IsResponse(r, max)
    ensures |r.code| == 3
  {
  }

  lemma ReasonAsks(s: seq<byte>, i: nat)
    requires i <= |s|
    ensures Reason(s, i).More? ==> TextLine(s, i).More?
  {
  }

  lemma FindMoreReason(s: seq<byte>, r: ResponseForm, max: nat)
    requires IsResponse(r, max) && At(s, 0, VersionBytes(r.minor)) && r.lines == []
    requires var v := |VersionBytes(r.minor)|; var f := v + r.gap + 3;
             && At(s, v, Spaces(r.gap)) && At(s, v + r.gap, r.code) && f < |s| && Reason(s, f).More?
    ensures BeginsResponse(s, max) || LacksSpace(s)
  {
    hide VersionBytes, Spaces, EndBytes, IsPlain, Reason, TextLine, BeginsResponse, LacksSpace;
    var v := |VersionBytes(r.minor)|;
    var f := v + r.gap + 3;
    ReasonAsks(s, f);
    var d, e := FindMoreText(s, f);
    if d != [] && d[0] != SP {
      AtJoin(s, v, Spaces(r.gap), r.code);
      NoSpace(s, r, d);
    } else {
      assert s[f..] < (d + EndBytes(e)) + LinesBytes([], r.last);
      MoreResponse(s, r.(reason := d, end := e), max);
    }
  }

  /** Every response that is incomplete has less than nine bytes, begins a text, or is in one of the
      two places. */
  lemma FindMoreResponse(s: seq<byte>, max: nat)
    requires Response(s, max).More?
    ensures |s| < 9 || BeginsResponse(s, max) || LacksCode(s) || LacksSpace(s)
  {
    hide Version, VersionBytes, Find, Spaces, Status, Reason, EndBytes, Headers, LinesBytes, IsPlain, At,
         BeginsResponse, LacksCode, LacksSpace, AreLines;
    VersionShort(s, 0);
    if |s| < 9 {
      return;
    }
    VersionBounds(s, 0);
    var minor := FindVersion(s, 0);
    FindGap(s, 8);
    var c := Find(NonSpace, s, 9);
    StatusShort(s, c);
    if Status(s, c).More? {
      NoCode(s, minor, c - 8);
      return;
    }
    var code := FindCode(s, c);
    StatusLocal(s, s, c);
    var r := ResponseForm(minor, c - 8, code, [], Lf, [], Lf);
    PlainNothing();
    NoLines();
    if Reason(s, c + 3).More? {
      FindMoreReason(s, r, max);
      return;
    }
    ReasonLocal(s, s, c + 3);
    var reason, end := FindReason(s, c + 3);
    var h := Reason(s, c + 3).pos;
    var lines, last := FindMoreLines(s, h, 0, max);
    PrefixJoin(s, c + 3, reason + EndBytes(end), LinesBytes(lines, last));
    MoreResponse(s, r.(reason := reason, end := end, lines := lines, last := last), max);
  }

  lemma LacksCodeAsks(s: seq<byte>, max: nat)
    requires LacksCode(s)
    ensures Response(s, max).More?
  {
    hide VersionBytes, Spaces, At, Version, Find, Status, Reason, Headers;
    var minor, gap: nat, d :|
      && IsDigit(minor) && gap > 0 && |d| < 4 && (d != [] ==> d[0] != SP)
      && s == VersionBytes(minor) + (Spaces(gap) + d);
    AtBehind(s, VersionBytes(minor), Spaces(gap), d);
    var v := |VersionBytes(minor)|;
    assert v + gap < |s| ==> s[v + gap] == d[0];
    ReadVersion(s, 0, minor);
    ReadGap(s, v, gap);
    StatusShort(s, v + gap);
  }

  lemma LacksSpaceAsks(s: seq<byte>, max: nat)
    requires LacksSpace(s)
    ensures Response(s, max).More?
  {
    hide VersionBytes, Spaces, Response, IsPlain;
    var r: ResponseForm, d, cr :|
      && IsDigit(r.minor) && r.gap > 0
      && |r.code| == 3 && IsDigit(r.code[0]) && IsDigit(r.code[1]) && IsDigit(r.code[2])
      && IsPlain(d) && d != [] && d[0] != SP && (cr == [] || cr == [CR])
      && s == VersionBytes(r.minor) + (Spaces(r.gap) + (r.code + (d + cr)));
    UnspacedParts(s, r, d, cr);
    TextUnended(s, |VersionBytes(r.minor)| + r.gap + 3, d, cr);
    ReasonPending(s, r, max);
  }

  lemma UnspacedParts(s: seq<byte>, r: ResponseForm, d: seq<byte>, cr: seq<byte>)
    requires |r.code| == 3 && d != []
    requires s == VersionBytes(r.minor) + (Spaces(r.gap) + (r.code + (d + cr)))
    ensures var c := |VersionBytes(r.minor)| + r.gap;
            && At(s, 0, VersionBytes(r.minor)) && At(s, |VersionBytes(r.minor)|, Spaces(r.gap))
            && c + 3 < |s| && s[c] == r.code[0] && At(s, c, r.code) && s[c + 3..] == d + cr
  {
    hide VersionBytes, Spaces, At;
    AtBehind(s, VersionBytes(r.minor), Spaces(r.gap), r.code + (d + cr));
    CodeBehind(s, |VersionBytes(r.minor)| + r.gap, r.code, d + cr);
  }

  lemma ReasonPending(s: seq<byte>, r: ResponseForm, max: nat)
    requires IsDigit(r.minor) && r.gap > 0
    requires |r.code| == 3 && IsDigit(r.code[0]) && IsDigit(r.code[1]) && IsDigit(r.code[2])
    requires var c := |VersionBytes(r.minor)| + r.gap;
             && At(s, 0, VersionBytes(r.minor)) && At(s, |VersionBytes(r.minor)|, Spaces(r.gap))
             && c + 3 < |s| && s[c] == r.code[0] && At(s, c, r.code) && Reason(s, c + 3).More?
    ensures Response(s, max).More?
  {
    hide VersionBytes, Spaces, At, Version, Find, Status, Reason, Headers;
    var v := |VersionBytes(r.minor)|;
    ReadVersion(s, 0, r.minor);
    ReadCode(s, v + r.gap, r.code);
    ReadGap(s, v, r.gap);
  }

  lemma CodeBehind(s: seq<byte>, c: nat, code: seq<byte>, rest: seq<byte>)
    requires c <= |s| && s[c..] == code + rest && |code| == 3
    ensures At(s, c, code) && c + 3 <= |s| && s[c + 3..] == rest && s[c] == code[0]
  {
    forall k | 0 <= k < 3 ensures s[c + k] == code[k] { assert s[c..][k] == code[k]; }
    assert s[c + 3..] == s[c..][3..];
  }

  /** A line of text without its LF. */
  lemma TextUnended(s: seq<byte>, i: nat, d: seq<byte>, cr: seq<byte>)
    requires i <= |s| && s[i..] == d + cr && IsPlain(d) && (cr == [] || cr == [CR])
    ensures Reason(s, i).More?
  {
    forall k | i <= k < i + |d| ensures !Stops(EndOfText, s[k]) { assert s[k] == s[i..][k - i] == d[k - i]; }
    assert cr == [CR] ==> s[i..][|d|] == CR;
    assert Find(EndOfText, s, i) == i + |d|;
  }

  lemma BeginsResponseAsks(s: seq<byte>, max: nat)
    requires BeginsResponse(s, max)
    ensures Response(s, max).More?
  {
    hide Response, ResponseText, IsResponse, At;
    var r :| IsResponse(r, max) && s < ResponseText(r);
    var t := ResponseText(r);
    CodeSize(r, max);
    AtFront(t, t);
    ReadResponse(t, r, max);
    assert t[..|s|] == s;
    ResponsePrefixes(t, max, |s|);
  }

  /** The same for responses. */
  lemma ResponseIncompleteExactly(s: seq<byte>, max: nat)
    ensures Response(s, max).More? <==> |s| < 9 || BeginsResponse(s, max) || LacksCode(s) || LacksSpace(s)
  {
    hide Response, BeginsResponse, LacksCode, LacksSpace;
    if Response(s, max).More? { FindMoreResponse(s, max); }
    if |s| < 9 { ShortAsks(s, max); }
    if BeginsResponse(s, max) { BeginsResponseAsks(s, max); }
    if LacksCode(s) { LacksCodeAsks(s, max); }
    if LacksSpace(s) { LacksSpaceAsks(s, max); }
  }

  lemma ShortAsks(s: seq<byte>, max: nat)
    requires |s| < 9
    ensures Response(s, max).More?
  {
  }
}
