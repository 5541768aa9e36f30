/**
 The HTTP writers: the space is allocated once, by a size formula, and then filled through a moving
 write position. Both are proved to append exactly the message, so the formula is exact.
 */
module HttpWriter {
  import opened Bytes
  import opened Bits
  import opened Decimals
  import opened Buffers
  import opened Streams
  import opened HttpMessages

  /** `pointer_push`: writes at the position and moves it. */
  method Push(a: array<byte>, p: nat, d: seq<byte>) returns (q: nat)
    requires p + |d| <= a.Length
    modifies a
    ensures q == p + |d|
    ensures a[..q] == old(a[..p]) + d
  {
    Copy(a, p, d);
    q := p + |d|;
  }

  /** `http_field_push`. */
  method FieldPush(a: array<byte>, p: nat, field: Field) returns (q: nat)
    requires p + |FieldBytes(field)| <= a.Length
    modifies a
    ensures q == p + |FieldBytes(field)|
    ensures a[..q] == old(a[..p]) + FieldBytes(field)
  {
    q := Push(a, p, field.name);
    q := Push(a, q, [COLON]);
    q := Push(a, q, [SP]);
    q := Push(a, q, field.value);
    q := Push(a, q, [CR]);
    q := Push(a, q, [LF]);
  }

  /** The numeral of a body's size, printed into a small local array. */
  method PrintLength(size: nat) returns (text: seq<byte>)
    ensures text == Decimal(size % U32) && |text| <= 10
  {
    var n := size % U32;
    var storage := new byte[16];
    var len := U32Len(n);
    U32Sprint(n, storage, len);
    text := storage[..len];
    assert storage[0..] == storage[..];
  }

  lemma {:induction false} FieldsBytesJoin(a: seq<Field>, b: seq<Field>)
    ensures FieldsBytes(a + b) == FieldsBytes(a) + FieldsBytes(b)
  {
    hide FieldBytes;
    if a == [] {
      assert a + b == b;
      assert [] + FieldsBytes(b) == FieldsBytes(b);
    } else {
      FieldsBytesJoin(a[1..], b);
      assert (a + b)[0] == a[0] && (a + b)[1..] == a[1..] + b;
      ConcatAssociates(FieldBytes(a[0]), FieldsBytes(a[1..]), FieldsBytes(b));
    }
  }

  lemma FieldsOne(f: Field)
    ensures FieldsBytes([f]) == FieldBytes(f)
  {
    assert FieldsBytes([f]) == FieldBytes(f) + [];
  }

  function RequestSize(method_: seq<byte>, target: seq<byte>, host: seq<byte>, type_: seq<byte>,
                       body: seq<byte>, length: seq<byte>): nat {
    |method_| + 1 + |target| + 11 +
    6 + |host| + 2 +
    (if |body| != 0 then 14 + |type_| + 2 + 16 + |length| + 2 else 0) +
    2 + |body|
  }

  function ResponseSize(status: seq<byte>, type_: seq<byte>, body: seq<byte>, length: seq<byte>): nat {
    9 + |status| + 2 + 17 + 37 +
    (if type_ == [] then 0 else 16 + |type_|) +
    (18 + |length|) + 2 + |body|
  }

  lemma RequestSizeExact(method_: seq<byte>, target: seq<byte>, host: seq<byte>, type_: seq<byte>, body: seq<byte>)
    ensures |RequestBytes(method_, target, host, type_, body)| ==
            RequestSize(method_, target, host, type_, body, Decimal(Length32(body)))
  {
    hide Decimal;
    RequestFieldsBytes(host, type_, body);
  }

  lemma RequestFieldsBytes(host: seq<byte>, type_: seq<byte>, body: seq<byte>)
    ensures FieldsBytes(RequestFields(host, type_, body)) ==
            FieldBytes(Field(HOST, host)) +
            (if body == [] then []
             else FieldBytes(Field(CONTENT_TYPE, type_)) + FieldBytes(Field(CONTENT_LENGTH, Decimal(Length32(body)))))
  {
    hide Decimal, FieldBytes;
    var f0, f1, f2 := Field(HOST, host), Field(CONTENT_TYPE, type_), Field(CONTENT_LENGTH, Decimal(Length32(body)));
    FieldsOne(f0);
    if body == [] {
      assert RequestFields(host, type_, body) == [f0];
      assert FieldBytes(f0) + [] == FieldBytes(f0);
    } else {
      FieldsOne(f1);
      FieldsOne(f2);
      FieldsBytesJoin([f0], [f1, f2]);
      assert [f1, f2] == [f1] + [f2];
      FieldsBytesJoin([f1], [f2]);
    }
  }

  lemma ResponseFieldsBytes(date: seq<byte>, type_: seq<byte>, body: seq<byte>)
    ensures FieldsBytes(ResponseFields(date, type_, body)) ==
            FieldBytes(Field(SERVER, REACTOR)) + FieldBytes(Field(DATE, date)) +
            (if type_ == [] then [] else FieldBytes(Field(CONTENT_TYPE, type_))) +
            FieldBytes(Field(CONTENT_LENGTH, Decimal(Length32(body))))
  {
    hide Decimal, FieldBytes, FieldsBytes;
    var f0, f1, f2, f3 := Field(SERVER, REACTOR), Field(DATE, date), Field(CONTENT_TYPE, type_),
                          Field(CONTENT_LENGTH, Decimal(Length32(body)));
    FieldsOne(f0);
    FieldsOne(f1);
    FieldsOne(f2);
    FieldsOne(f3);
    FieldsBytesJoin([f0], [f1]);
    assert [f0, f1] == [f0] + [f1];
    var middle := if type_ == [] then [] else [f2];
    FieldsNone();
    FieldsBytesJoin([f0, f1], middle);
    FieldsBytesJoin([f0, f1] + middle, [f3]);
  }

  lemma FieldsNone()
    ensures FieldsBytes([]) == []
  {
  }

  /** The constants of the response formula fit a date of 29 bytes, and no other. */
  lemma ResponseSizeExact(status: seq<byte>, date: seq<byte>, type_: seq<byte>, body: seq<byte>)
    ensures |ResponseBytes(status, date, type_, body)| ==
            ResponseSize(status, type_, body, Decimal(Length32(body))) + |date| - DATE_SIZE
  {
    hide Decimal;
    ResponseFieldsBytes(date, type_, body);
  }

  /** The part of `http_write_request` that pushes the pieces of the message. */
  method FillRequest(a: array<byte>, start: nat, method_: seq<byte>, target: seq<byte>, host: seq<byte>,
                     type_: seq<byte>,
                     body: seq<byte>, length: seq<byte>)
    returns (p: nat)
    requires length == Decimal(Length32(body))
    requires start + |RequestBytes(method_, target, host, type_, body)| <= a.Length
    modifies a
    ensures p == start + |RequestBytes(method_, target, host, type_, body)|
    ensures a[..p] == old(a[..start]) + RequestBytes(method_, target, host, type_, body)
  {
    hide Decimal, FieldBytes, FieldsBytes;
    RequestFieldsBytes(host, type_, body);
    ghost var base, f0, f1, f2 := a[..start], FieldBytes(Field(HOST, host)), FieldBytes(Field(CONTENT_TYPE, type_)),
                                  FieldBytes(Field(CONTENT_LENGTH, length));
    ghost var line := method_ + [SP] + target + HTTP_11_LINE;
    RequestShape(line, f0, f1, f2, CRLF, body, RequestBytes(method_, target, host, type_, body));
    p := Push(a, start, method_);
    p := Push(a, p, [SP]);
    p := Push(a, p, target);
    p := Push(a, p, HTTP_11_LINE);
    assert a[..p] == base + line;
    p := FieldPush(a, p, Field(HOST, host));
    if |body| != 0 {
      p := FieldPush(a, p, Field(CONTENT_TYPE, type_));
      p := FieldPush(a, p, Field(CONTENT_LENGTH, length));
    }
    p := Push(a, p, CRLF);
    p := Push(a, p, body);
    Regroup(base, line, f0, f1, f2, CRLF, body);
  }

  lemma RequestShape(line: seq<byte>, f0: seq<byte>, f1: seq<byte>, f2: seq<byte>, crlf: seq<byte>,
                     body: seq<byte>, all: seq<byte>)
    requires all == line + (f0 + if body == [] then [] else f1 + f2) + crlf + body
    ensures |all| == |line| + |f0| + (if body == [] then 0 else |f1| + |f2|) + |crlf| + |body|
    ensures body == [] ==> all == line + f0 + crlf + body
    ensures body != [] ==> all == line + f0 + f1 + f2 + crlf + body
  {
    assert f0 + [] == f0;
    assert line + (f0 + (f1 + f2)) == line + f0 + f1 + f2;
  }

  lemma Regroup(base: seq<byte>, a: seq<byte>, b: seq<byte>, c: seq<byte>, d: seq<byte>, e: seq<byte>, f: seq<byte>)
    ensures base + a + b + e + f == base + (a + b + e + f)
    ensures base + a + b + c + d + e + f == base + (a + b + c + d + e + f)
  {
  }

  /** `http_write_request`: the message is appended, and the allocated space is filled to the last byte. */
  method WriteRequest(stream: Stream, method_: seq<byte>, target: seq<byte>, host: seq<byte>, type_: seq<byte>,
                      body: seq<byte>)
    returns (end: nat)
    requires stream.Valid() && stream.Conserved()
    requires stream.output.size + |RequestBytes(method_, target, host, type_, body)| <= WORD / 2
    modifies stream`queued, stream.output, stream.output.data
    ensures stream.Valid() && stream.Conserved()
    ensures stream.output.Contents() == old(stream.output.Contents()) + RequestBytes(method_, target, host, type_, body)
    ensures end == stream.output.size
    ensures stream.output.data == old(stream.output.data) || fresh(stream.output.data)
  {
    hide Decimal, RequestBytes;
    ghost var message := RequestBytes(method_, target, host, type_, body);
    var length := PrintLength(|body|);
    RequestSizeExact(method_, target, host, type_, body);
    var p := stream.Allocate(RequestSize(method_, target, host, type_, body, length));
    end := FillRequest(stream.output.data, p, method_, target, host, type_, body, length);
    stream.queued := stream.queued + message;
    assert stream.accepted + (old(stream.output.Contents()) + message) == old(stream.queued) + message;
  }

  /** The part of `http_write_response` that pushes the pieces of the message. */
  method FillResponse(a: array<byte>, start: nat, status: seq<byte>, date: seq<byte>, type_: seq<byte>,
                      body: seq<byte>, length: seq<byte>)
    returns (p: nat)
    requires length == Decimal(Length32(body))
    requires start + |ResponseBytes(status, date, type_, body)| <= a.Length
    modifies a
    ensures p == start + |ResponseBytes(status, date, type_, body)|
    ensures a[..p] == old(a[..start]) + ResponseBytes(status, date, type_, body)
  {
    hide Decimal, FieldBytes, FieldsBytes;
    ResponseFieldsBytes(date, type_, body);
    ghost var base, f0, f1, f2, f3 := a[..start], FieldBytes(Field(SERVER, REACTOR)), FieldBytes(Field(DATE, date)),
                                      FieldBytes(Field(CONTENT_TYPE, type_)), FieldBytes(Field(CONTENT_LENGTH, length));
    ghost var line := HTTP_11_ + status + CRLF;
    ResponseShape(line, f0, f1, f2, f3, CRLF, body, type_ == [], ResponseBytes(status, date, type_, body));
    p := Push(a, start, HTTP_11_);
    p := Push(a, p, status);
    p := Push(a, p, CRLF);
    assert a[..p] == base + line;
    p := FieldPush(a, p, Field(SERVER, REACTOR));
    p := FieldPush(a, p, Field(DATE, date));
    if type_ != [] {
      p := FieldPush(a, p, Field(CONTENT_TYPE, type_));
    }
    p := FieldPush(a, p, Field(CONTENT_LENGTH, length));
    p := Push(a, p, CRLF);
    p := Push(a, p, body);
    RegroupResponse(base, line, f0, f1, f2, f3, CRLF, body);
  }

  lemma ResponseShape(line: seq<byte>, f0: seq<byte>, f1: seq<byte>, f2: seq<byte>, f3: seq<byte>,
                      crlf: seq<byte>, body: seq<byte>,
                      untyped: bool, all: seq<byte>)
    requires all == line + (f0 + f1 + (if untyped then [] else f2) + f3) + crlf + body
    ensures |all| == |line| + |f0| + |f1| + (if untyped then 0 else |f2|) + |f3| + |crlf| + |body|
    ensures untyped ==> all == line + f0 + f1 + f3 + crlf + body
    ensures !untyped ==> all == line + f0 + f1 + f2 + f3 + crlf + body
  {
    assert f0 + f1 + [] == f0 + f1;
    assert line + (f0 + f1 + f3) == line + f0 + f1 + f3;
    assert line + (f0 + f1 + f2 + f3) == line + f0 + f1 + f2 + f3;
  }

  lemma RegroupResponse(base: seq<byte>, a: seq<byte>, b: seq<byte>, c: seq<byte>, d: seq<byte>, e: seq<byte>,
                        f: seq<byte>, g: seq<byte>)
    ensures base + a + b + c + e + f + g == base + (a + b + c + e + f + g)
    ensures base + a + b + c + d + e + f + g == base + (a + b + c + d + e + f + g)
  {
  }

  /** `http_write_response`, for a date of 29 bytes. */
  method WriteResponse(stream: Stream, status: seq<byte>, date: seq<byte>, type_: seq<byte>, body: seq<byte>)
    returns (end: nat)
    requires stream.Valid() && stream.Conserved() && |date| == DATE_SIZE
    requires stream.output.size + |ResponseBytes(status, date, type_, body)| <= WORD / 2
    modifies stream`queued, stream.output, stream.output.data
    ensures stream.Valid() && stream.Conserved()
    ensures stream.output.Contents() == old(stream.output.Contents()) + ResponseBytes(status, date, type_, body)
    ensures end == stream.output.size
    ensures stream.output.data == old(stream.output.data) || fresh(stream.output.data)
  {
    hide Decimal, ResponseBytes;
    ghost var message := ResponseBytes(status, date, type_, body);
    var length := PrintLength(|body|);
    ResponseSizeExact(status, date, type_, body);
    var p := stream.Allocate(ResponseSize(status, type_, body, length));
    end := FillResponse(stream.output.data, p, status, date, type_, body, length);
    stream.queued := stream.queued + message;
    assert stream.accepted + (old(stream.output.Contents()) + message) == old(stream.queued) + message;
  }
}
