/** Cutting a byte stream into the successive request heads the parser finds in it. */
module Carving {
  import opened Bytes
  import opened HttpSyntax
  import opened ParserLaws

  /** The server keeps at most this many header fields of a request. */
  const FIELDS_MAX: nat := 16

  /** A request head found at offset `at` of the stream; its slices count from there. */
  datatype Found = Found(at: nat, head: RequestHead)

  /** All heads from offset `at` on, up to the first place where the parser wants more or refuses. */
  function Carve(s: seq<byte>, at: nat): seq<Found>
    requires at <= |s|
    decreases |s| - at
  {
    match Request(s[at..], FIELDS_MAX)
    case Ok(n, head) =>
      RequestEnds(s[at..]);
      [Found(at, head)] + Carve(s, at + n)
    case _ => []
  }

  lemma RequestEnds(s: seq<byte>)
    ensures Request(s, FIELDS_MAX).Ok? ==> 0 < Request(s, FIELDS_MAX).pos <= |s|
    ensures s == [] ==> Request(s, FIELDS_MAX).More?
  {
    if Request(s, FIELDS_MAX).Ok? {
      var _, _, _, _ := SplitRequest(s, FIELDS_MAX);
    }
  }

  /** `heads` were cut from the front of `s` one after the other, and end at offset `at`. */
  ghost predicate Carved(s: seq<byte>, heads: seq<Found>, at: nat)
    decreases |heads|
  {
    if heads == [] then at == 0
    else
      var last := heads[|heads| - 1];
      && last.at < at <= |s|
      && Carved(s, heads[..|heads| - 1], last.at)
      && Request(s[last.at..], FIELDS_MAX) == Ok(at - last.at, last.head)
  }

  lemma CarvedNext(s: seq<byte>, heads: seq<Found>, at: nat)
    requires at <= |s| && Carved(s, heads, at) && Request(s[at..], FIELDS_MAX).Ok?
    ensures var r := Request(s[at..], FIELDS_MAX);
            Carved(s, heads + [Found(at, r.value)], at + r.pos) && 0 < r.pos <= |s| - at
  {
    hide Request;
    RequestEnds(s[at..]);
    var next := heads + [Found(at, Request(s[at..], FIELDS_MAX).value)];
    assert next[..|next| - 1] == heads;
  }

  /** What was cut from the bytes received so far stays cut the same way, whatever arrives later. */
  lemma {:induction false} CarvedStable(s: seq<byte>, t: seq<byte>, heads: seq<Found>, at: nat)
    requires Carved(s, heads, at) && s <= t
    ensures Carved(t, heads, at)
    decreases |heads|
  {
    hide Request;
    if heads != [] {
      var last := heads[|heads| - 1];
      CarvedStable(s, t, heads[..|heads| - 1], last.at);
      assert Extends(s[last.at..], t[last.at..]);
      RequestStable(s[last.at..], t[last.at..], FIELDS_MAX);
    }
  }

  /** Cutting forward from the front and backward from the end agree. */
  lemma {:induction false} CarvedIsPrefix(s: seq<byte>, heads: seq<Found>, at: nat)
    requires at <= |s| && Carved(s, heads, at)
    ensures Carve(s, 0) == heads + Carve(s, at)
    decreases |heads|
  {
    hide Request;
    if heads == [] {
      assert [] + Carve(s, 0) == Carve(s, 0);
    } else {
      var init, last := heads[..|heads| - 1], heads[|heads| - 1];
      CarvedIsPrefix(s, init, last.at);
      assert heads == init + [last];
      assert Carve(s, last.at) == [last] + Carve(s, at);
      assert init + ([last] + Carve(s, at)) == init + [last] + Carve(s, at);
    }
  }

  /** The pipelining theorem: heads cut from the bytes received so far are the first heads of every
      stream that starts with those bytes; if the parser wants more at the end of them, they are all the
      heads the received bytes hold; and if it rejects the rest, they are all there will ever be. */
  lemma CarvedFromWholeStream(received: seq<byte>, stream: seq<byte>, heads: seq<Found>, at: nat)
    requires at <= |received| && Carved(received, heads, at) && received <= stream
    ensures heads <= Carve(stream, 0)
    ensures Request(received[at..], FIELDS_MAX).More? ==> heads == Carve(received, 0)
    ensures Request(received[at..], FIELDS_MAX).Bad? ==> heads == Carve(stream, 0)
  {
    hide Request;
    CarvedStable(received, stream, heads, at);
    CarvedIsPrefix(stream, heads, at);
    CarvedIsPrefix(received, heads, at);
    assert heads + [] == heads;
    if Request(received[at..], FIELDS_MAX).Bad? {
      RequestStable(received[at..], stream[at..], FIELDS_MAX);
    }
  }
}
