/** Looking up a header by name, in any letter case. */
module FieldLookup {
  import opened Wrappers
  import opened Bytes
  import opened HttpSyntax
  import opened HttpMessages
  import opened Decimals
  import opened RoundTrip

  function Lower(b: byte): byte {
    if 65 <= b <= 90 then b + 32 else b
  }

  /** `strncasecmp` over two names of equal length: a zero byte in both ends the comparison. */
  predicate EqualFrom(a: seq<byte>, b: seq<byte>, i: nat)
    requires i <= |a| == |b|
    decreases |a| - i
  {
    i == |a| || (Lower(a[i]) == Lower(b[i]) && (a[i] == 0 || EqualFrom(a, b, i + 1)))
  }

  predicate SameName(a: seq<byte>, b: seq<byte>) {
    |a| == |b| && EqualFrom(a, b, 0)
  }

  /** For names without zero bytes, such as all names the parser returns, this is equality of the
      lower-case forms. */
  lemma {:induction false} EqualFromIsCaseless(a: seq<byte>, b: seq<byte>, i: nat)
    requires i <= |a| == |b| && forall k :: 0 <= k < |a| ==> a[k] != 0
    ensures EqualFrom(a, b, i) <==> forall k :: i <= k < |a| ==> Lower(a[k]) == Lower(b[k])
    decreases |a| - i
  {
    if i < |a| {
      EqualFromIsCaseless(a, b, i + 1);
    }
  }

  /** The same byte, or a letter and the same letter in the other case. */
  predicate SameLetter(a: byte, b: byte) {
    a == b || (65 <= a <= 90 && b == a + 32) || (97 <= a <= 122 && b == a - 32)
  }

  predicate SameInAnyCase(a: seq<byte>, b: seq<byte>) {
    |a| == |b| && forall i :: 0 <= i < |a| ==> SameLetter(a[i], b[i])
  }

  /** The comparison, spelled out on the bytes. */
  lemma SameNameMeans(a: seq<byte>, b: seq<byte>)
    requires forall k :: 0 <= k < |a| ==> a[k] != 0
    ensures SameName(a, b) <==> SameInAnyCase(a, b)
  {
    hide EqualFrom;
    if |a| == |b| {
      EqualFromIsCaseless(a, b, 0);
      forall i | 0 <= i < |a|
        ensures Lower(a[i]) == Lower(b[i]) <==> SameLetter(a[i], b[i])
      {
      }
    }
  }

  /** The bytes of a header's name; a folded line has none. */
  function NameOf(s: seq<byte>, h: Header): seq<byte>
    requires h.name.In(s)
  {
    h.name.Of(s)
  }

  /** The value of the first header with that name. */
  function Lookup(s: seq<byte>, headers: seq<Header>, name: seq<byte>): Option<Slice>
    requires forall k :: 0 <= k < |headers| ==> headers[k].name.In(s)
  {
    if headers == [] then None
    else if SameName(NameOf(s, headers[0]), name) then Some(headers[0].value)
    else Lookup(s, headers[1..], name)
  }

  /** `http_field_lookup`. */
  method FindField(s: seq<byte>, fields: array<Header>, count: nat, name: seq<byte>) returns (value: Option<Slice>)
    requires count <= fields.Length && forall k :: 0 <= k < count ==> fields[k].name.In(s)
    ensures value == Lookup(s, fields[..count], name)
  {
    hide SameName;
    for i := 0 to count
      invariant Lookup(s, fields[..count], name) == Lookup(s, fields[i..count], name)
    {
      assert fields[i..count][1..] == fields[i + 1..count];
      if SameName(NameOf(s, fields[i]), name) {
        return Some(fields[i].value);
      }
    }
    value := None;
  }

  /** Lookup in what was read finds the first field written under that name. */
  lemma {:induction false} LookupReads(s: seq<byte>, headers: seq<Header>, fs: seq<Field>, name: seq<byte>, k: nat)
    requires Reads(s, headers, fs) && k <= |fs|
    requires forall j :: 0 <= j < k ==> !SameName(fs[j].name, name)
    requires k < |fs| ==> SameName(fs[k].name, name)
    ensures forall j :: 0 <= j < |headers| ==> headers[j].name.In(s)
    ensures if k < |fs| then Lookup(s, headers, name).Some?
                          && Lookup(s, headers, name).value.In(s)
                          && Lookup(s, headers, name).value.Of(s) == fs[k].value
            else Lookup(s, headers, name) == None
    decreases |fs|
  {
    hide SameName;
    forall j | 0 <= j < |headers| ensures headers[j].name.In(s) { assert ReadsField(s, headers[j], fs[j]); }
    if fs != [] {
      assert ReadsField(s, headers[0], fs[0]);
      if k > 0 {
        forall j | 0 <= j < |fs| - 1 ensures ReadsField(s, headers[1..][j], fs[1..][j]) {
          assert ReadsField(s, headers[j + 1], fs[j + 1]);
        }
        LookupReads(s, headers[1..], fs[1..], name, k - 1);
      }
    }
  }

  /** The value found, or nothing. */
  predicate Finds(s: seq<byte>, headers: seq<Header>, name: seq<byte>, value: Option<seq<byte>>) {
    && (forall j :: 0 <= j < |headers| ==> headers[j].name.In(s))
    && match Lookup(s, headers, name)
       case None => value == None
       case Some(slice) => slice.In(s) && value == Some(slice.Of(s))
  }

  lemma KnownNames(name: seq<byte>)
    ensures forall n :: n in {HOST, SERVER, DATE, CONTENT_TYPE, CONTENT_LENGTH} && SameInAnyCase(n, name) ==>
              SameName(n, name)
  {
    hide EqualFrom, SameInAnyCase;
    SameNameMeans(HOST, name);
    SameNameMeans(SERVER, name);
    SameNameMeans(DATE, name);
    SameNameMeans(CONTENT_TYPE, name);
    SameNameMeans(CONTENT_LENGTH, name);
  }

  /** In a request that was written and read back, every written field is found under its name in
      any letter case, and the body fields only if there was a body. */
  lemma RequestLookups(m: seq<byte>, t: seq<byte>, host: seq<byte>, type_: seq<byte>, body: seq<byte>,
                       following: seq<byte>, max: nat, name: seq<byte>)
    requires RequestReadsBack(m, t, host, type_, body, following, max)
    ensures var s := RequestBytes(m, t, host, type_, body) + following;
            var headers := Request(s, max).value.headers;
            && (SameInAnyCase(HOST, name) ==> Finds(s, headers, name, Some(host)))
            && (SameInAnyCase(CONTENT_TYPE, name) ==> Finds(s, headers, name, if body == [] then None else Some(type_)))
            && (SameInAnyCase(CONTENT_LENGTH, name) ==>
                  Finds(s, headers, name, if body == [] then None else Some(Decimal(Length32(body)))))
  {
    hide SameInAnyCase, Request, RequestBytes, Decimal, Reads, EqualFrom;
    KnownNames(name);
    var s := RequestBytes(m, t, host, type_, body) + following;
    var headers, fs := Request(s, max).value.headers, RequestFields(host, type_, body);
    if SameInAnyCase(HOST, name) { LookupReads(s, headers, fs, name, 0); }
    if SameInAnyCase(CONTENT_TYPE, name) { LookupReads(s, headers, fs, name, 1); }
    if SameInAnyCase(CONTENT_LENGTH, name) { LookupReads(s, headers, fs, name, if body == [] then 1 else 2); }
  }

  lemma ResponseLookups(status: seq<byte>, date: seq<byte>, type_: seq<byte>, body: seq<byte>,
                        following: seq<byte>, max: nat, name: seq<byte>)
    requires IsStatus(status) && ResponseReadsBack(status, date, type_, body, following, max)
    ensures var s := ResponseBytes(status, date, type_, body) + following;
            var headers := Response(s, max).value.headers;
            && (SameInAnyCase(SERVER, name) ==> Finds(s, headers, name, Some(REACTOR)))
            && (SameInAnyCase(DATE, name) ==> Finds(s, headers, name, Some(date)))
            && (SameInAnyCase(CONTENT_TYPE, name) ==>
                  Finds(s, headers, name, if type_ == [] then None else Some(type_)))
            && (SameInAnyCase(CONTENT_LENGTH, name) ==> Finds(s, headers, name, Some(Decimal(Length32(body)))))
  {
    hide SameInAnyCase, Response, ResponseBytes, Decimal, Reads, EqualFrom, IsStatus, StripSpaces;
    KnownNames(name);
    var s := ResponseBytes(status, date, type_, body) + following;
    var headers, fs := Response(s, max).value.headers, ResponseFields(date, type_, body);
    if SameInAnyCase(SERVER, name) { LookupReads(s, headers, fs, name, 0); }
    if SameInAnyCase(DATE, name) { LookupReads(s, headers, fs, name, 1); }
    if SameInAnyCase(CONTENT_TYPE, name) { LookupReads(s, headers, fs, name, if type_ == [] then 3 else 2); }
    if SameInAnyCase(CONTENT_LENGTH, name) { LookupReads(s, headers, fs, name, if type_ == [] then 2 else 3); }
  }
}
