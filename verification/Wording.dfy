/**
 The numbers of the model as characters: what the character classes contain, what the fixed texts
 say, and how whole messages are worded.
 */
module Wording {
  import opened Bytes
  import opened HttpSyntax
  import opened HttpMessages
  import opened Decimals
  import Server

  /** The bytes of a text. */
  function Ascii(t: string): (r: seq<byte>)
    requires forall k :: 0 <= k < |t| ==> t[k] < 128 as char
    ensures |r| == |t| && forall k :: 0 <= k < |t| ==> r[k] == t[k] as int
  {
    seq(|t|, k requires 0 <= k < |t| => t[k] as int)
  }

  /** Visible characters that section 3.2.6 of RFC 7230 keeps out of tokens. */
  const DELIMITERS: string := "\"(),/:;<=>?@[\\]{}"
  const DIGITS: string := "0123456789"

  /** A token character is a visible character that is not a delimiter. */
  lemma TokenCharacters(b: byte)
    ensures IsTokenChar(b) <==> '!' <= b as char <= '~' && b as char !in DELIMITERS
  {
  }

  lemma Separators(b: byte)
    ensures b == LF <==> b as char == '\n'
    ensures b == CR <==> b as char == '\r'
    ensures b == COLON <==> b as char == ':'
    ensures b == SP <==> b as char == ' '
    ensures IsBlank(b) <==> b as char in " \t"
    ensures IsControl(b) <==> b as char < ' ' || b == 0x7f
  {
  }

  lemma DecimalDigits(b: byte)
    ensures IsDigit(b) <==> b as char in DIGITS
    ensures IsDigit(b) ==> DIGITS[Digit(b)] == b as char
  {
    if IsDigit(b) {
      DigitAt(Digit(b));
    }
    if i :| 0 <= i < 10 && DIGITS[i] == b as char {
      DigitAt(i);
    }
  }

  lemma DigitAt(v: nat)
    requires v < 10
    ensures DIGITS[v] as int == 48 + v
  {
  }

  /** What each scan of the parser stops at. */
  lemma ScansStopAt(b: byte)
    ensures Stops(EndOfText, b) <==> (b as char < ' ' && b as char != '\t') || b == 0x7f
    ensures Stops(EndOfToken, b) <==> b as char <= ' ' || b == 0x7f
    ensures Stops(EndOfName, b) <==> !('!' <= b as char <= '~') || b as char in DELIMITERS
    ensures Stops(NonSpace, b) <==> b as char != ' '
    ensures Stops(NonBlank, b) <==> b as char !in " \t"
  {
    TokenCharacters(b);
  }

  lemma FixedTexts()
    ensures CRLF == Ascii("\r\n") && HTTP_1 == Ascii("HTTP/1.")
    ensures HTTP_11_LINE == Ascii(" HTTP/1.1\r\n") && HTTP_11_ == Ascii("HTTP/1.1 ")
    ensures HOST == Ascii("Host") && CONTENT_TYPE == Ascii("Content-Type")
    ensures CONTENT_LENGTH == Ascii("Content-Length")
    ensures SERVER == Ascii("Server") && REACTOR == Ascii("reactor") && DATE == Ascii("Date")
    ensures Server.BAD_REQUEST == Ascii("400 Bad Request")
  {
  }

  function Line(heading: string, value: seq<byte>): seq<byte>
    requires forall k :: 0 <= k < |heading| ==> heading[k] < 128 as char
  {
    Ascii(heading) + value + Ascii("\r\n")
  }

  lemma Headings(value: seq<byte>)
    ensures FieldBytes(Field(HOST, value)) == Line("Host: ", value)
    ensures FieldBytes(Field(CONTENT_TYPE, value)) == Line("Content-Type: ", value)
    ensures FieldBytes(Field(CONTENT_LENGTH, value)) == Line("Content-Length: ", value)
    ensures FieldBytes(Field(SERVER, value)) == Line("Server: ", value)
    ensures FieldBytes(Field(DATE, value)) == Line("Date: ", value)
    ensures REACTOR == Ascii("reactor")
  {
    assert HOST + [COLON, SP] == Ascii("Host: ");
    assert CONTENT_TYPE + [COLON, SP] == Ascii("Content-Type: ");
    assert CONTENT_LENGTH + [COLON, SP] == Ascii("Content-Length: ");
    assert SERVER + [COLON, SP] == Ascii("Server: ");
    assert DATE + [COLON, SP] == Ascii("Date: ");
    assert CRLF == Ascii("\r\n");
  }

  lemma OneMoreField(f: Field, fs: seq<Field>)
    ensures FieldsBytes([f] + fs) == FieldBytes(f) + FieldsBytes(fs) && FieldsBytes([]) == []
  {
  }

  /** A request as `http_write_request` words it. */
  lemma RequestWording(m: seq<byte>, t: seq<byte>, host: seq<byte>, type_: seq<byte>, body: seq<byte>)
    ensures RequestBytes(m, t, host, type_, body) ==
            m + Ascii(" ") + t + Ascii(" HTTP/1.1\r\n") +
            (Line("Host: ", host) +
             if body == [] then []
             else Line("Content-Type: ", type_) + Line("Content-Length: ", Decimal(Length32(body)))) +
            Ascii("\r\n") + body
  {
    var h, c, l := Field(HOST, host), Field(CONTENT_TYPE, type_), Field(CONTENT_LENGTH, Decimal(Length32(body)));
    FixedTexts();
    Headings(host);
    Headings(type_);
    Headings(l.value);
    hide Ascii, Line, FieldBytes, FieldsBytes, Decimal;
    OneMoreField(h, if body == [] then [] else [c, l]);
    OneMoreField(c, [l]);
    OneMoreField(l, []);
    assert [c, l] == [c] + [l] && [l] == [l] + [];
  }

  /** A response as `http_write_response` words it. */
  lemma ResponseWording(status: seq<byte>, date: seq<byte>, type_: seq<byte>, body: seq<byte>)
    ensures ResponseBytes(status, date, type_, body) ==
            Ascii("HTTP/1.1 ") + status + Ascii("\r\n") +
            (Line("Server: ", Ascii("reactor")) + (Line("Date: ", date) +
             ((if type_ == [] then [] else Line("Content-Type: ", type_)) +
              Line("Content-Length: ", Decimal(Length32(body)))))) +
            Ascii("\r\n") + body
  {
    var s, d := Field(SERVER, REACTOR), Field(DATE, date);
    var c, l := Field(CONTENT_TYPE, type_), Field(CONTENT_LENGTH, Decimal(Length32(body)));
    FixedTexts();
    Headings(REACTOR);
    Headings(date);
    Headings(type_);
    Headings(l.value);
    hide Ascii, Line, FieldBytes, FieldsBytes, Decimal;
    var last := (if type_ == [] then [] else [c]) + [l];
    assert ResponseFields(date, type_, body) == [s] + ([d] + last);
    OneMoreField(s, [d] + last);
    OneMoreField(d, last);
    OneMoreField(c, [l]);
    OneMoreField(l, []);
    assert [l] == [l] + [] && last == if type_ == [] then [l] else [c] + [l];
    var none: seq<byte> := [];
    assert none + FieldBytes(l) == FieldBytes(l) == FieldBytes(l) + none;
    assert FieldsBytes(last) == (if type_ == [] then none else FieldBytes(c)) + FieldBytes(l);
  }
}
