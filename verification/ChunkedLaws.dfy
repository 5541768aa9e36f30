/** Laws of chunked decoding: how the input is cut up does not matter, and decoding inverts encoding. */
module ChunkedLaws {
  import opened Bytes
  import opened Chunked

  // ---------- fragmentation ----------

  /** A caller's whole session: one call per fragment, stopping at the first answer other than
      "more". What arrives after the stop stays undecoded. */
  function RunFragments(d: Decoder, frags: seq<seq<byte>>): Result
    decreases |frags|
  {
    if frags == [] then Result(More, d, [], [])
    else
      var r := Run(d, frags[0]);
      if r.verdict == More then Emit(r.out, RunFragments(r.decoder, frags[1..]))
      else r.(rest := r.rest + Concat(frags[1..]))
  }

  lemma {:induction false} RunSplit(d: Decoder, a: seq<byte>, b: seq<byte>)
    ensures Run(d, a + b) ==
            if Run(d, a).verdict == More then Emit(Run(d, a).out, Run(Run(d, a).decoder, b))
            else Run(d, a).(rest := Run(d, a).rest + b)
    decreases |a|
  {
    if a == [] {
      assert a + b == b;
      assert [] + Run(d, b).out == Run(d, b).out;
    } else {
      assert (a + b)[1..] == a[1..] + b;
      match Step(d, a[0])
      case Next(d', emit) =>
        RunSplit(d', a[1..], b);
        var r := Run(d', a[1..]);
        if r.verdict == More {
          EmitEmit(emit, r.out, Run(r.decoder, b));
        }
      case _ =>
    }
  }

  /** Splitting an input over successive calls changes neither the decoded bytes, nor the verdict,
      nor the undecoded tail, nor the final decoder. */
  lemma {:induction false} FragmentationInvariance(d: Decoder, frags: seq<seq<byte>>)
    ensures RunFragments(d, frags) == Run(d, Concat(frags))
    decreases |frags|
  {
    if frags != [] {
      RunSplit(d, frags[0], Concat(frags[1..]));
      var r := Run(d, frags[0]);
      if r.verdict == More {
        FragmentationInvariance(r.decoder, frags[1..]);
      }
    }
  }

  /** Every byte is accounted for: a pass that wants more input has read all of it. */
  lemma {:induction false} RunKeepsSuffix(d: Decoder, s: seq<byte>)
    ensures var r := Run(d, s);
            && |r.out| + |r.rest| <= |s|
            && r.rest == s[|s| - |r.rest|..]
            && (r.verdict == More ==> r.rest == [])
            && (r.verdict == Done ==> r.rest != s)
    decreases |s|
  {
    if s != [] && Step(d, s[0]).Next? {
      RunKeepsSuffix(Step(d, s[0]).decoder, s[1..]);
    }
  }

  // ---------- the language that is decoded ----------

  /** A chunk as the decoder reads it: hexadecimal digits, anything else up to LF, the data, and LF
      with any number of CRs in front. Section 4.1 of RFC 7230 is the case of `Strict` below. */
  datatype Chunk = Chunk(size: seq<byte>, ext: seq<byte>, data: seq<byte>, crs: nat)

  /** A trailer line, with any number of CRs in front. */
  datatype Trailer = Trailer(crs: nat, line: seq<byte>)

  datatype Body = Body(chunks: seq<Chunk>, last: Chunk, trailers: seq<Trailer>, crs: nat)

  function HexValue(digits: seq<byte>): int
    decreases |digits|
  {
    if digits == [] then 0
    else HexValue(digits[..|digits| - 1]) * 16 + HexDigit(digits[|digits| - 1])
  }

  predicate IsSize(digits: seq<byte>) {
    && 1 <= |digits| <= HEX_DIGITS_MAX
    && forall i :: 0 <= i < |digits| ==> HexDigit(digits[i]) != -1
  }

  predicate IsExt(ext: seq<byte>) {
    && LF !in ext
    && (ext != [] ==> HexDigit(ext[0]) == -1)
  }

  predicate IsChunk(c: Chunk) {
    IsSize(c.size) && IsExt(c.ext) && HexValue(c.size) == |c.data|
  }

  predicate IsTrailer(l: Trailer) {
    l.line != [] && l.line[0] != CR && LF !in l.line
  }

  predicate IsBody(b: Body) {
    && (forall i :: 0 <= i < |b.chunks| ==> IsChunk(b.chunks[i]) && b.chunks[i].data != [])
    && IsChunk(b.last) && b.last.data == []
    && (forall i :: 0 <= i < |b.trailers| ==> IsTrailer(b.trailers[i]))
  }

  function Crs(n: nat): (r: seq<byte>)
    ensures |r| == n
  {
    if n == 0 then [] else [CR] + Crs(n - 1)
  }

  function LineEnd(n: nat): seq<byte> {
    Crs(n) + [LF]
  }

  function SizeLine(c: Chunk): seq<byte> {
    c.size + (c.ext + [LF])
  }

  function EncodeChunk(c: Chunk): seq<byte> {
    SizeLine(c) + (c.data + LineEnd(c.crs))
  }

  function EncodeChunks(cs: seq<Chunk>): seq<byte> {
    if cs == [] then [] else EncodeChunk(cs[0]) + EncodeChunks(cs[1..])
  }

  function EncodeTrailer(l: Trailer): seq<byte> {
    Crs(l.crs) + (l.line + [LF])
  }

  function EncodeTrailers(lines: seq<Trailer>, crs: nat): seq<byte> {
    if lines == [] then LineEnd(crs) else EncodeTrailer(lines[0]) + EncodeTrailers(lines[1..], crs)
  }

  /** The trailers are part of the body only where they are consumed. */
  function Encode(b: Body, consumeTrailer: bool): seq<byte> {
    EncodeChunks(b.chunks) + (SizeLine(b.last) + if consumeTrailer then EncodeTrailers(b.trailers, b.crs) else [])
  }

  function Payload(cs: seq<Chunk>): seq<byte> {
    if cs == [] then [] else cs[0].data + Payload(cs[1..])
  }

  lemma {:induction false} HexValueBound(digits: seq<byte>)
    requires forall i :: 0 <= i < |digits| ==> HexDigit(digits[i]) != -1
    ensures 0 <= HexValue(digits) < Pow16(|digits|)
    decreases |digits|
  {
    if digits != [] {
      HexValueBound(digits[..|digits| - 1]);
    }
  }

  /** Reading a size field: the accumulator holds exactly the value of the digits seen so far. */
  lemma {:induction false} RunSize(t: bool, digits: seq<byte>)
    requires |digits| <= HEX_DIGITS_MAX && forall i :: 0 <= i < |digits| ==> HexDigit(digits[i]) != -1
    ensures HexValue(digits) >= 0
    ensures Run(Zeroed(t), digits) == Result(More, Decoder(HexValue(digits), t, |digits|, ChunkSize), [], [])
    decreases |digits|
  {
    hide Pow16;
    HexValueBound(digits);
    if digits != [] {
      var init, b := digits[..|digits| - 1], digits[|digits| - 1];
      HexValueBound(init);
      RunSize(t, init);
      assert digits == init + [b];
      RunSplit(Zeroed(t), init, [b]);
      var d := Decoder(HexValue(init), t, |init|, ChunkSize);
      StepKeepsValid(d, b) by { Pow16Bound(|init|); }
      assert [b][1..] == [];
    }
  }

  /** Skipping a line: nothing up to its LF matters. */
  lemma {:induction false} RunExt(d: Decoder, line: seq<byte>, rest: seq<byte>)
    requires d.phase == ChunkExt && LF !in line
    ensures Run(d, line + [LF] + rest) == Run(d, [LF] + rest)
    decreases |line|
  {
    if line == [] {
      assert line + [LF] + rest == [LF] + rest;
    } else {
      var s := line + [LF] + rest;
      assert s[0] == line[0] && s[1..] == line[1..] + [LF] + rest;
      RunExt(d, line[1..], rest);
      assert Step(d, s[0]) == Next(d, []);
      EmitNothing(Run(d, s[1..]));
    }
  }

  lemma EmitNothing(r: Result)
    ensures Emit([], r) == r
  {
    assert [] + r.out == r.out;
  }

  /** A whole size line leaves the decoder at the LF that ends it, with the size read. */
  lemma RunSizeLine(t: bool, c: Chunk, rest: seq<byte>)
    requires IsSize(c.size) && IsExt(c.ext)
    ensures HexValue(c.size) >= 0
    ensures Run(Zeroed(t), SizeLine(c) + rest) == Run(Decoder(HexValue(c.size), t, 0, ChunkExt), [LF] + rest)
  {
    hide Run, HexValue;
    RunSize(t, c.size);
    var tail := c.ext + [LF] + rest;
    assert SizeLine(c) + rest == c.size + tail;
    RunSplit(Zeroed(t), c.size, tail);
    var d := Decoder(HexValue(c.size), t, |c.size|, ChunkSize);
    var e := Decoder(HexValue(c.size), t, 0, ChunkExt);
    EmitNothing(Run(d, tail));
    assert HexDigit(tail[0]) == -1;
    assert Step(d, tail[0]) == Step(e, tail[0]);
    RunSameStep(d, e, tail);
    RunExt(e, c.ext, rest);
  }

  lemma RunSameStep(d: Decoder, e: Decoder, s: seq<byte>)
    requires s != [] && Step(d, s[0]) == Step(e, s[0])
    ensures Run(d, s) == Run(e, s)
  {
  }

  lemma RunOne(d: Decoder, b: byte, rest: seq<byte>)
    ensures Step(d, b).Next? ==> Run(d, [b] + rest) == Emit(Step(d, b).emit, Run(Step(d, b).decoder, rest))
    ensures Step(d, b).Finish? ==> Run(d, [b] + rest) == Result(Done, Step(d, b).end, [], rest)
  {
    assert ([b] + rest)[1..] == rest;
  }

  /** CRs in front of a line ending, or at the head of a trailer line, are skipped. */
  lemma {:induction false} RunCrs(d: Decoder, n: nat, rest: seq<byte>)
    requires d.phase == ChunkCrlf || d.phase == TrailerHead
    ensures Run(d, Crs(n) + rest) == Run(d, rest)
  {
    hide Run;
    if n == 0 {
      assert Crs(n) + rest == rest;
    } else {
      var more := Crs(n - 1) + rest;
      assert Crs(n) + rest == [CR] + more;
      RunOne(d, CR, more);
      EmitNothing(Run(d, more));
      RunCrs(d, n - 1, rest);
    }
  }

  lemma RunLineEnd(d: Decoder, n: nat, rest: seq<byte>)
    requires d.phase == ChunkCrlf
    ensures Run(d, LineEnd(n) + rest) == Run(d.(phase := ChunkSize), rest)
  {
    hide Run, Crs;
    assert LineEnd(n) + rest == Crs(n) + ([LF] + rest);
    RunCrs(d, n, [LF] + rest);
    RunOne(d, LF, rest);
    EmitNothing(Run(d.(phase := ChunkSize), rest));
  }

  lemma HexSizeFits(size: seq<byte>)
    requires IsSize(size)
    ensures 0 <= HexValue(size) < SIZE_MODULUS
  {
    HexValueBound(size);
    Pow16Bound(|size|);
  }

  /** Decoding one encoded chunk emits its data and is back in the zeroed state. */
  lemma RunChunk(t: bool, c: Chunk, rest: seq<byte>)
    requires IsChunk(c) && c.data != []
    ensures Run(Zeroed(t), EncodeChunk(c) + rest) == Emit(c.data, Run(Zeroed(t), rest))
  {
    hide Run, Pow16, HexValue, LineEnd;
    var n, end := |c.data|, LineEnd(c.crs) + rest;
    var after := c.data + end;
    assert EncodeChunk(c) + rest == SizeLine(c) + after;
    RunSizeLine(t, c, after);
    HexSizeFits(c.size);
    var d := Decoder(n, t, 0, ChunkData);
    RunOne(Decoder(n, t, 0, ChunkExt), LF, after);
    EmitNothing(Run(d, after));
    RunData(d, after);
    assert after[..n] == c.data && after[n..] == end;
    RunLineEnd(Decoder(0, t, 0, ChunkCrlf), c.crs, rest);
  }

  lemma {:induction false} RunChunks(t: bool, cs: seq<Chunk>, rest: seq<byte>)
    requires forall i :: 0 <= i < |cs| ==> IsChunk(cs[i]) && cs[i].data != []
    ensures Run(Zeroed(t), EncodeChunks(cs) + rest) == Emit(Payload(cs), Run(Zeroed(t), rest))
    decreases |cs|
  {
    hide Run, EncodeChunk;
    if cs == [] {
      assert EncodeChunks(cs) + rest == rest;
      EmitNothing(Run(Zeroed(t), rest));
    } else {
      var more := EncodeChunks(cs[1..]) + rest;
      assert EncodeChunks(cs) + rest == EncodeChunk(cs[0]) + more;
      RunChunk(t, cs[0], more);
      RunChunks(t, cs[1..], rest);
      EmitEmit(cs[0].data, Payload(cs[1..]), Run(Zeroed(t), rest));
    }
  }

  lemma {:induction false} RunTrailerMiddle(d: Decoder, line: seq<byte>, rest: seq<byte>)
    requires d.phase == TrailerMiddle && LF !in line
    ensures Run(d, line + [LF] + rest) == Run(d.(phase := TrailerHead), rest)
    decreases |line|
  {
    if line == [] {
      assert line + [LF] + rest == [LF] + rest;
      RunOne(d, LF, rest);
      EmitNothing(Run(d.(phase := TrailerHead), rest));
    } else {
      var more := line[1..] + [LF] + rest;
      assert line + [LF] + rest == [line[0]] + more;
      RunTrailerMiddle(d, line[1..], rest);
      RunOne(d, line[0], more);
      EmitNothing(Run(d, more));
    }
  }

  lemma RunTrailer(d: Decoder, l: Trailer, more: seq<byte>)
    requires d.phase == TrailerHead && IsTrailer(l)
    ensures Run(d, EncodeTrailer(l) + more) == Run(d, more)
  {
    hide Run, Crs;
    var b, line, m := l.line[0], l.line[1..], d.(phase := TrailerMiddle);
    var middle := line + [LF] + more;
    assert EncodeTrailer(l) + more == Crs(l.crs) + ([b] + middle);
    RunCrs(d, l.crs, [b] + middle);
    RunOne(d, b, middle);
    EmitNothing(Run(m, middle));
    RunTrailerMiddle(m, line, more);
  }

  lemma {:induction false} RunTrailers(d: Decoder, lines: seq<Trailer>, crs: nat, rest: seq<byte>)
    requires d.phase == TrailerHead
    requires forall i :: 0 <= i < |lines| ==> IsTrailer(lines[i])
    ensures Run(d, EncodeTrailers(lines, crs) + rest) == Result(Done, d, [], rest)
    decreases |lines|
  {
    hide Run, Crs, EncodeTrailer;
    if lines == [] {
      assert LineEnd(crs) + rest == Crs(crs) + ([LF] + rest);
      RunCrs(d, crs, [LF] + rest);
      RunOne(d, LF, rest);
    } else {
      var more := EncodeTrailers(lines[1..], crs) + rest;
      assert EncodeTrailers(lines, crs) + rest == EncodeTrailer(lines[0]) + more;
      RunTrailer(d, lines[0], more);
      RunTrailers(d, lines[1..], crs, rest);
    }
  }

  /** Decoding inverts encoding: the payload comes out, and exactly the bytes that follow are left. */
  lemma DecodeInvertsEncode(b: Body, t: bool, rest: seq<byte>)
    requires IsBody(b)
    ensures var r := Run(Zeroed(t), Encode(b, t) + rest);
            r.verdict == Done && r.out == Payload(b.chunks) && r.rest == rest
  {
    hide Run, Pow16, EncodeChunks, EncodeTrailers, SizeLine;
    var trailers := if t then EncodeTrailers(b.trailers, b.crs) else [];
    var tail := trailers + rest;
    assert Encode(b, t) + rest == EncodeChunks(b.chunks) + (SizeLine(b.last) + tail);
    RunChunks(t, b.chunks, SizeLine(b.last) + tail);
    RunSizeLine(t, b.last, tail);
    RunOne(Decoder(0, t, 0, ChunkExt), LF, tail);
    if t {
      var head := Decoder(0, t, 0, TrailerHead);
      EmitNothing(Run(head, tail));
      RunTrailers(head, b.trailers, b.crs, rest);
    } else {
      assert tail == rest;
    }
    assert Payload(b.chunks) + [] == Payload(b.chunks);
  }

  // ---------- nothing else is decoded ----------

  lemma RunStep(d: Decoder, s: seq<byte>)
    requires s != []
    ensures s == [s[0]] + s[1..]
    ensures Step(d, s[0]).Next? ==> Run(d, s) == Emit(Step(d, s[0]).emit, Run(Step(d, s[0]).decoder, s[1..]))
    ensures Step(d, s[0]).Finish? ==> Run(d, s) == Result(Done, Step(d, s[0]).end, [], s[1..])
    ensures Step(d, s[0]).Reject? ==> Run(d, s).verdict == Bad
  {
  }

  /** A line that is skipped ends somewhere, if the pass is to be completed. */
  lemma {:induction false} FindLineFeed(d: Decoder, s: seq<byte>) returns (line: seq<byte>, rest: seq<byte>)
    requires d.phase == ChunkExt || d.phase == TrailerMiddle
    requires Run(d, s).verdict == Done
    ensures LF !in line && s == line + [LF] + rest
    decreases |s|
  {
    hide Run;
    if s == [] { RunEnd(d, s); assert false; }
    RunStep(d, s);
    if s[0] == LF {
      line, rest := [], s[1..];
    } else {
      assert Step(d, s[0]) == Next(d, []);
      line, rest := FindLineFeed(d, s[1..]);
      line := [s[0]] + line;
      assert s == line + [LF] + rest;
    }
  }

  /** A completed pass read a size line first; `digits` are those it had read before. */
  lemma {:induction false} FindSizeLine(t: bool, digits: seq<byte>, s: seq<byte>)
    returns (more: seq<byte>, ext: seq<byte>, rest: seq<byte>)
    requires |digits| <= HEX_DIGITS_MAX && forall i :: 0 <= i < |digits| ==> HexDigit(digits[i]) != -1
    requires HexValue(digits) >= 0
    requires Run(Decoder(HexValue(digits), t, |digits|, ChunkSize), s).verdict == Done
    ensures IsSize(digits + more) && IsExt(ext) && s == more + (ext + [LF] + rest)
    decreases |s|
  {
    hide Run;
    var d := Decoder(HexValue(digits), t, |digits|, ChunkSize);
    if s == [] { RunEnd(d, s); assert false; }
    RunStep(d, s);
    HexValueBound(digits);
    Pow16Bound(|digits|);
    StepKeepsValid(d, s[0]);
    if HexDigit(s[0]) == -1 {
      var e := Decoder(HexValue(digits), t, 0, ChunkExt);
      assert digits != [];
      assert Step(d, s[0]) == Step(e, s[0]);
      RunSameStep(d, e, s);
      ext, rest := FindLineFeed(e, s);
      more := [];
      assert digits + [] == digits && s == [] + (ext + [LF] + rest);
      assert ext != [] ==> ext[0] == s[0];
    } else {
      var longer := digits + [s[0]];
      assert longer[..|digits|] == digits;
      more, ext, rest := FindSizeLine(t, longer, s[1..]);
      assert longer + more == digits + ([s[0]] + more);
      assert s == ([s[0]] + more) + (ext + [LF] + rest);
      more := [s[0]] + more;
    }
  }

  /** The CRs at the front of the input. */
  lemma {:induction false} LeadingCrs(s: seq<byte>) returns (n: nat)
    ensures n <= |s| && s[..n] == Crs(n) && (n < |s| ==> s[n] != CR)
    decreases |s|
  {
    if s == [] || s[0] != CR {
      n := 0;
    } else {
      n := LeadingCrs(s[1..]);
      n := n + 1;
      assert s[..n] == [CR] + s[1..][..n - 1];
    }
  }

  lemma FindLineEnd(d: Decoder, s: seq<byte>) returns (n: nat, rest: seq<byte>)
    requires d.phase == ChunkCrlf && Run(d, s).verdict == Done
    ensures s == LineEnd(n) + rest
  {
    hide Run, Crs;
    n := LeadingCrs(s);
    var after := s[n..];
    assert s == Crs(n) + after;
    RunCrs(d, n, after);
    if after == [] { RunEnd(d, after); assert false; }
    RunStep(d, after);
    rest := after[1..];
  }

  /** One trailer line, or the empty line that ends them all. */
  lemma FindTrailer(d: Decoder, s: seq<byte>) returns (l: Trailer, last: bool, rest: seq<byte>)
    requires d.phase == TrailerHead && Run(d, s).verdict == Done
    ensures |rest| < |s|
    ensures if last then s == LineEnd(l.crs) + rest
            else IsTrailer(l) && s == EncodeTrailer(l) + rest && Run(d, rest) == Run(d, s)
  {
    hide Run, Crs;
    var n := LeadingCrs(s);
    var after := s[n..];
    assert s == Crs(n) + after;
    RunCrs(d, n, after);
    if after == [] { RunEnd(d, after); assert false; }
    RunStep(d, after);
    last := after[0] == LF;
    if last {
      l, rest := Trailer(n, []), after[1..];
    } else {
      var m := d.(phase := TrailerMiddle);
      EmitNothing(Run(m, after[1..]));
      var line;
      line, rest := FindLineFeed(m, after[1..]);
      l := Trailer(n, [after[0]] + line);
      assert s == EncodeTrailer(l) + rest;
      RunTrailer(d, l, rest);
    }
  }

  lemma {:induction false} FindTrailers(d: Decoder, s: seq<byte>)
    returns (lines: seq<Trailer>, crs: nat, rest: seq<byte>)
    requires d.phase == TrailerHead && Run(d, s).verdict == Done
    ensures forall i :: 0 <= i < |lines| ==> IsTrailer(lines[i])
    ensures s == EncodeTrailers(lines, crs) + rest
    decreases |s|
  {
    hide Run, EncodeTrailer, LineEnd, IsTrailer;
    var l, last, tail := FindTrailer(d, s);
    if last {
      lines, crs, rest := [], l.crs, tail;
    } else {
      var more;
      more, crs, rest := FindTrailers(d, tail);
      lines := [l] + more;
      assert lines[1..] == more;
      assert s == EncodeTrailer(l) + (EncodeTrailers(more, crs) + rest);
    }
  }

  /** Every input that is decoded to the end starts with a body. */
  lemma {:induction false} DecodedIsBody(t: bool, s: seq<byte>) returns (b: Body, rest: seq<byte>)
    requires Run(Zeroed(t), s).verdict == Done
    ensures IsBody(b) && s == Encode(b, t) + rest
    decreases |s|, 1
  {
    hide Run, Pow16, HexValue, EncodeTrailers, SizeLine, Encode, IsBody;
    var c, after := FindSize(t, s);
    if HexValue(c.size) == 0 {
      b, rest := FindLast(t, c, s, after);
    } else {
      b, rest := FindChunk(t, c, s, after);
    }
  }

  /** The size line at the front, and what the pass does behind it. */
  lemma FindSize(t: bool, s: seq<byte>) returns (c: Chunk, after: seq<byte>)
    requires Run(Zeroed(t), s).verdict == Done
    ensures s == SizeLine(c) + after && c.data == [] && IsSize(c.size) && IsExt(c.ext)
    ensures var n := HexValue(c.size);
            && 0 <= n < SIZE_MODULUS
            && (n > 0 ==> Run(Decoder(n, t, 0, ChunkData), after).verdict == Done)
            && (n == 0 && t ==> Run(Decoder(0, t, 0, TrailerHead), after).verdict == Done)
  {
    hide Run, Pow16, HexValue;
    NoDigits();
    var size, ext;
    size, ext, after := FindSizeLine(t, [], s);
    assert [] + size == size;
    c := Chunk(size, ext, [], 0);
    assert s == SizeLine(c) + after;
    HexSizeFits(size);
    RunSizeLine(t, c, after);
    RunOne(Decoder(HexValue(size), t, 0, ChunkExt), LF, after);
  }

  lemma NoDigits()
    ensures HexValue([]) == 0
  {
  }

  lemma FindLast(t: bool, c: Chunk, s: seq<byte>, after: seq<byte>) returns (b: Body, rest: seq<byte>)
    requires s == SizeLine(c) + after && c.data == [] && IsSize(c.size) && IsExt(c.ext) && HexValue(c.size) == 0
    requires t ==> Run(Decoder(0, t, 0, TrailerHead), after).verdict == Done
    ensures IsBody(b) && s == Encode(b, t) + rest
  {
    hide Run, EncodeTrailers, HexValue, SizeLine;
    var lines, crs := [], 0;
    rest := after;
    if t {
      lines, crs, rest := FindTrailers(Decoder(0, t, 0, TrailerHead), after);
    }
    b := Body([], c, lines, crs);
    EncodeNoChunks(b, t);
  }

  lemma EncodeNoChunks(b: Body, t: bool)
    requires b.chunks == []
    ensures Encode(b, t) == SizeLine(b.last) + if t then EncodeTrailers(b.trailers, b.crs) else []
  {
  }

  lemma {:induction false} FindChunk(t: bool, c: Chunk, s: seq<byte>, after: seq<byte>)
    returns (b: Body, rest: seq<byte>)
    requires s == SizeLine(c) + after && c.data == [] && IsSize(c.size) && IsExt(c.ext)
    requires 0 < HexValue(c.size) < SIZE_MODULUS
    requires Run(Decoder(HexValue(c.size), t, 0, ChunkData), after).verdict == Done
    ensures IsBody(b) && s == Encode(b, t) + rest
    decreases |s|, 0
  {
    hide Run, EncodeTrailers, EncodeChunks, Pow16, LineEnd, HexValue;
    var n := HexValue(c.size);
    RunData(Decoder(n, t, 0, ChunkData), after);
    var crlf := Decoder(0, t, 0, ChunkCrlf);
    var crs, tail := FindLineEnd(crlf, after[n..]);
    RunLineEnd(crlf, crs, tail);
    var chunk := Chunk(c.size, c.ext, after[..n], crs);
    assert after == after[..n] + (LineEnd(crs) + tail);
    assert s == EncodeChunk(chunk) + tail;
    assert |tail| < |s|;
    b, rest := DecodedIsBody(t, tail);
    var all := b.(chunks := [chunk] + b.chunks);
    EncodeFirst(chunk, b, t);
    assert s == Encode(all, t) + rest;
    b := all;
  }

  lemma EncodeFirst(c: Chunk, b: Body, t: bool)
    ensures Encode(b.(chunks := [c] + b.chunks), t) == EncodeChunk(c) + Encode(b, t)
  {
    assert ([c] + b.chunks)[1..] == b.chunks;
  }

  /** What is decoded, exactly: a pass over `s` completes with these data and this tail if and only if
      `s` is a body with these data, followed by this tail. */
  lemma DecodesExactly(t: bool, s: seq<byte>, out: seq<byte>, rest: seq<byte>)
    ensures (Run(Zeroed(t), s).verdict == Done && Run(Zeroed(t), s).out == out && Run(Zeroed(t), s).rest == rest)
            <==> exists b: Body :: IsBody(b) && Payload(b.chunks) == out && s == Encode(b, t) + rest
  {
    hide Run, Encode, IsBody;
    if Run(Zeroed(t), s).verdict == Done {
      var b, tail := DecodedIsBody(t, s);
      DecodeInvertsEncode(b, t, tail);
    }
    if exists b: Body :: IsBody(b) && Payload(b.chunks) == out && s == Encode(b, t) + rest {
      var b: Body :| IsBody(b) && Payload(b.chunks) == out && s == Encode(b, t) + rest;
      DecodeInvertsEncode(b, t, rest);
    }
  }

  // ---------- when more is wanted ----------

  /** `u` completes the body and nothing of it is left. */
  predicate Ends(d: Decoder, u: seq<byte>) {
    u != [] && Run(d, u).verdict == Done && Run(d, u).rest == []
  }

  lemma EndsNext(d: Decoder, b: byte, u: seq<byte>)
    requires Step(d, b).Next? && Ends(Step(d, b).decoder, u)
    ensures Ends(d, [b] + u)
  {
    hide Run;
    RunOne(d, b, u);
  }

  lemma EndsNow(d: Decoder, b: byte)
    requires Step(d, b).Finish?
    ensures Ends(d, [b])
  {
    hide Run;
    RunOne(d, b, []);
    assert [b] + [] == [b];
  }

  lemma EndingOfTrailer(d: Decoder) returns (u: seq<byte>)
    requires d.phase in {TrailerHead, TrailerMiddle}
    ensures Ends(d, u)
  {
    hide Ends;
    u := [LF];
    if d.phase == TrailerHead {
      EndsNow(d, LF);
    } else {
      EndsNow(d.(phase := TrailerHead), LF);
      EndsNext(d, LF, u);
      u := [LF] + u;
    }
  }

  /** The end of a size line that says 0. */
  lemma EndingOfLast(d: Decoder) returns (u: seq<byte>)
    requires d.left == 0 && (d.phase == ChunkExt || (d.phase == ChunkSize && d.hexCount > 0))
    ensures Ends(d, u)
  {
    hide Ends;
    assert HexDigit(LF) == -1;
    if d.consumeTrailer {
      u := EndingOfTrailer(d.(phase := TrailerHead, hexCount := if d.phase == ChunkSize then 0 else d.hexCount));
      EndsNext(d, LF, u);
      u := [LF] + u;
    } else {
      EndsNow(d, LF);
      u := [LF];
    }
  }

  lemma EndingOfCrlf(d: Decoder) returns (u: seq<byte>)
    requires Valid(d) && d.left == 0 && (d.phase == ChunkCrlf || (d.phase == ChunkSize && d.hexCount == 0))
    ensures Ends(d, u)
  {
    hide Ends, Pow16;
    assert HexDigit(48) == 0;
    u := EndingOfLast(d.(phase := ChunkSize, hexCount := 1));
    EndsNext(d.(phase := ChunkSize), 48, u);
    u := [48] + u;
    if d.phase == ChunkCrlf {
      EndsNext(d, LF, u);
      u := [LF] + u;
    }
  }

  lemma EndingOfData(d: Decoder) returns (u: seq<byte>)
    requires Valid(d) && d.phase == ChunkData
    ensures Ends(d, u)
  {
    hide Run, Pow16;
    var v := EndingOfCrlf(d.(left := 0, phase := ChunkCrlf));
    var data := seq(d.left, _ => SP);
    u := data + v;
    RunData(d, u);
    assert u[d.left..] == v;
  }

  /** From every state a decoder can be in, the body can be completed. */
  lemma Ending(d: Decoder) returns (u: seq<byte>)
    requires Valid(d)
    ensures Ends(d, u)
  {
    hide Ends, Pow16;
    assert HexDigit(LF) == -1;
    match d.phase
    case TrailerHead => u := EndingOfTrailer(d);
    case TrailerMiddle => u := EndingOfTrailer(d);
    case ChunkData => u := EndingOfData(d);
    case ChunkCrlf => u := EndingOfCrlf(d);
    case _ =>
      if d.phase == ChunkSize && d.hexCount == 0 {
        NothingRead();
        u := EndingOfCrlf(d);
      } else if d.left == 0 {
        u := EndingOfLast(d);
      } else {
        u := EndingOfData(d.(phase := ChunkData, hexCount := 0));
        EndsNext(d, LF, u);
        u := [LF] + u;
      }
  }

  lemma NothingRead()
    ensures Pow16(0) == 1
  {
  }

  /** When the decoder asks for more, exactly: if and only if the input is the beginning of a body. Any
      other input that it does not complete is rejected at once. */
  lemma AsksExactly(t: bool, s: seq<byte>)
    ensures Run(Zeroed(t), s).verdict == More <==> exists b: Body :: IsBody(b) && s < Encode(b, t)
  {
    hide Run, Encode, IsBody, Pow16;
    NothingRead();
    if Run(Zeroed(t), s).verdict == More {
      RunKeepsValid(Zeroed(t), s);
      var u := Ending(Run(Zeroed(t), s).decoder);
      RunSplit(Zeroed(t), s, u);
      var b, rest := DecodedIsBody(t, s + u);
      DecodeInvertsEncode(b, t, rest);
      assert Encode(b, t) + [] == Encode(b, t);
    }
    if b: Body :| IsBody(b) && s < Encode(b, t) {
      var tail := Encode(b, t)[|s|..];
      DecodeInvertsEncode(b, t, []);
      assert Encode(b, t) + [] == s + tail;
      RunSplit(Zeroed(t), s, tail);
    }
  }

  // ---------- section 4.1 of RFC 7230 ----------

  /** A chunk of section 4.1 of RFC 7230; `ext` is empty or starts with ';'. */
  function Strict(size: seq<byte>, ext: seq<byte>, data: seq<byte>): Chunk {
    Chunk(size, ext + [CR], data, 1)
  }

  /** Chunks written by the rules of the RFC are chunks of the language, and encode as it says. */
  lemma StrictIsChunk(size: seq<byte>, ext: seq<byte>, data: seq<byte>)
    requires IsSize(size) && HexValue(size) == |data| && LF !in ext && (ext != [] ==> ext[0] == 59)
    ensures IsChunk(Strict(size, ext, data))
    ensures EncodeChunk(Strict(size, ext, data)) == size + ext + CRLF + data + CRLF
  {
    assert LineEnd(1) == [CR] + LineEnd(0) == CRLF;
    assert (ext + [CR])[0] == if ext == [] then CR else ext[0];
  }

  // ---------- an encoder ----------

  function HexChar(v: nat): byte
    requires v < 16
    ensures HexDigit(HexChar(v)) == v && HexChar(v) as char == SMALL_DIGITS[v]
  {
    Digits(v);
    if v < 10 then 48 + v else 87 + v
  }

  /** The size field a sender writes: hexadecimal without leading zeros. */
  function Hex(n: nat): (r: seq<byte>)
    ensures r != [] && forall i :: 0 <= i < |r| ==> HexDigit(r[i]) != -1
  {
    if n < 16 then [HexChar(n)] else Hex(n / 16) + [HexChar(n % 16)]
  }

  lemma {:induction false} HexIsSize(n: nat, k: nat)
    requires n < Pow16(k)
    ensures HexValue(Hex(n)) == n && (1 <= k ==> |Hex(n)| <= k)
    decreases n
  {
    if 16 <= n {
      HexIsSize(n / 16, k - 1);
      assert Hex(n)[..|Hex(n)| - 1] == Hex(n / 16);
      assert k - 1 >= 1;
    } else {
      assert [HexChar(n)][..0] == [];
    }
  }

  predicate IsCapitalOf(b: byte, c: byte) {
    exists v :: 10 <= v < 16 && c as char == SMALL_DIGITS[v] && b as char == CAPITAL_DIGITS[v]
  }

  /** Some of the letters a to f written as capitals. */
  predicate Capitalised(size: seq<byte>, hex: seq<byte>) {
    |size| == |hex| && forall i :: 0 <= i < |hex| ==> size[i] == hex[i] || IsCapitalOf(size[i], hex[i])
  }

  lemma SameDigit(b: byte, c: byte)
    requires IsCapitalOf(b, c)
    ensures HexDigit(b) == HexDigit(c)
  {
    hide HexDigit;
    HexDigitMeans(b);
    HexDigitMeans(c);
  }

  lemma {:induction false} CapitalsHaveSameValue(size: seq<byte>, hex: seq<byte>)
    requires Capitalised(size, hex)
    ensures HexValue(size) == HexValue(hex)
    ensures forall i :: 0 <= i < |hex| ==> (HexDigit(hex[i]) != -1 ==> HexDigit(size[i]) != -1)
    decreases |hex|
  {
    hide HexDigit, IsCapitalOf;
    if hex != [] {
      var b, c := size[|size| - 1], hex[|hex| - 1];
      if IsCapitalOf(b, c) { SameDigit(b, c); }
      CapitalsHaveSameValue(size[..|size| - 1], hex[..|hex| - 1]);
    }
  }

  /** Every data of at most `SIZE_MODULUS` - 1 bytes is a chunk when its size is written by `Hex`, in
      small letters, capitals or a mixture of both. */
  lemma EveryDataIsAChunk(data: seq<byte>, size: seq<byte>)
    requires |data| < SIZE_MODULUS && Capitalised(size, Hex(|data|))
    ensures IsChunk(Strict(size, [], data))
  {
    hide Hex, Pow16, Strict, IsChunk, HexDigit;
    Pow16Exact();
    HexIsSize(|data|, 16);
    CapitalsHaveSameValue(size, Hex(|data|));
    StrictIsChunk(size, [], data);
  }
}
