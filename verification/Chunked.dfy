/**
 The resumable decoder for chunked bodies (section 4.1 of RFC 7230).

 `Step` and `Run` describe the decoder one byte at a time; class `ChunkedDecoder` is the decoder
 itself, which scans by phases and compacts the caller's buffer in place, and is proved to compute
 exactly what `Run` says.
 */
module Chunked {
  import opened Bytes

  const SIZE_MODULUS: nat := 0x1_0000_0000_0000_0000
  const HEX_DIGITS_MAX: nat := 16

  datatype Phase = ChunkSize | ChunkExt | ChunkData | ChunkCrlf | TrailerHead | TrailerMiddle

  datatype Decoder = Decoder(left: nat, consumeTrailer: bool, hexCount: nat, phase: Phase)

  datatype Verdict = More | Bad | Done

  /** What one pass over some input amounts to: the decoder afterwards, the data bytes it
      produced, and the input it did not decode. */
  datatype Result = Result(verdict: Verdict, decoder: Decoder, out: seq<byte>, rest: seq<byte>)

  datatype Move = Next(decoder: Decoder, emit: seq<byte>) | Reject(at: Decoder) | Finish(end: Decoder)

  function Zeroed(consumeTrailer: bool): Decoder {
    Decoder(0, consumeTrailer, 0, ChunkSize)
  }

  function HexDigit(b: byte): int {
    if 48 <= b <= 57 then b - 48
    else if 65 <= b <= 70 then b - 65 + 10
    else if 97 <= b <= 102 then b - 97 + 10
    else -1
  }

  const SMALL_DIGITS: string := "0123456789abcdef"
  const CAPITAL_DIGITS: string := "0123456789ABCDEF"

  /** The hexadecimal digits and their values, in small and in capital letters. */
  lemma HexDigitMeans(b: byte)
    ensures forall v :: 0 <= v < 16 ==>
              (HexDigit(b) == v <==> b as char == SMALL_DIGITS[v] || b as char == CAPITAL_DIGITS[v])
    ensures HexDigit(b) != -1 <==> b as char in SMALL_DIGITS || b as char in CAPITAL_DIGITS
  {
    forall v | 0 <= v < 16
      ensures HexDigit(b) == v <==> b as char == SMALL_DIGITS[v] || b as char == CAPITAL_DIGITS[v]
    {
      Digits(v);
    }
    if HexDigit(b) != -1 { Digits(HexDigit(b)); }
    if i :| 0 <= i < 16 && SMALL_DIGITS[i] == b as char { Digits(i); }
    if i :| 0 <= i < 16 && CAPITAL_DIGITS[i] == b as char { Digits(i); }
  }

  lemma Digits(v: nat)
    requires v < 16
    ensures SMALL_DIGITS[v] as int == if v < 10 then 48 + v else 97 + v - 10
    ensures CAPITAL_DIGITS[v] as int == if v < 10 then 48 + v else 65 + v - 10
  {
  }

  function Pow16(n: nat): nat {
    if n == 0 then 1 else 16 * Pow16(n - 1)
  }

  /** What every decoder that started from `Zeroed` satisfies between calls. */
  predicate Valid(d: Decoder) {
    && d.hexCount <= HEX_DIGITS_MAX
    && d.left < SIZE_MODULUS
    && (d.phase == ChunkSize ==> d.left < Pow16(d.hexCount))
    && (d.phase != ChunkSize ==> d.hexCount == 0)
    && (d.phase == ChunkData ==> 0 < d.left)
    && (d.phase in {ChunkCrlf, TrailerHead, TrailerMiddle} ==> d.left == 0)
  }

  function StepExt(d: Decoder, b: byte): Move {
    if b != LF then Next(d.(phase := ChunkExt), [])
    else if d.left != 0 then Next(d.(phase := ChunkData), [])
    else if d.consumeTrailer then Next(d.(phase := TrailerHead), [])
    else Finish(d.(phase := ChunkExt))
  }

  function Step(d: Decoder, b: byte): Move {
    match d.phase
    case ChunkSize =>
      var v := HexDigit(b);
      if v == -1 then
        if d.hexCount == 0 then Reject(d) else StepExt(d.(hexCount := 0), b)
      else if d.hexCount == HEX_DIGITS_MAX then Reject(d)
      else Next(d.(left := (d.left * 16 + v) % SIZE_MODULUS, hexCount := d.hexCount + 1), [])
    case ChunkExt => StepExt(d, b)
    case ChunkData =>
      if d.left == 1 then Next(d.(left := 0, phase := ChunkCrlf), [b])
      else Next(d.(left := if d.left == 0 then 0 else d.left - 1), [b])
    case ChunkCrlf =>
      if b == CR then Next(d, [])
      else if b == LF then Next(d.(phase := ChunkSize), [])
      else Reject(d)
    case TrailerHead =>
      if b == CR then Next(d, [])
      else if b == LF then Finish(d)
      else Next(d.(phase := TrailerMiddle), [])
    case TrailerMiddle =>
      if b == LF then Next(d.(phase := TrailerHead), []) else Next(d, [])
  }

  function Run(d: Decoder, s: seq<byte>): Result
    decreases |s|
  {
    if s == [] then Result(More, d, [], [])
    else
      match Step(d, s[0])
      case Next(d', emit) => Emit(emit, Run(d', s[1..]))
      case Reject(d') => Result(Bad, d', [], s)
      case Finish(d') => Result(Done, d', [], s[1..])
  }

  function Emit(out: seq<byte>, r: Result): Result {
    r.(out := out + r.out)
  }

  /** One byte of a pass over `buf[src..bufsz]`. */
  lemma RunFrom(d: Decoder, buf: array<byte>, bufsz: nat, src: nat)
    requires src < bufsz <= buf.Length
    ensures Run(d, buf[src..bufsz]) ==
            match Step(d, buf[src])
            case Next(d', emit) => Emit(emit, Run(d', buf[src + 1..bufsz]))
            case Reject(d') => Result(Bad, d', [], buf[src..bufsz])
            case Finish(d') => Result(Done, d', [], buf[src + 1..bufsz])
  {
    assert buf[src..bufsz][1..] == buf[src + 1..bufsz];
  }

  lemma RunEnd(d: Decoder, s: seq<byte>)
    requires s == []
    ensures Run(d, s) == Result(More, d, [], [])
  {
  }

  lemma Pow16Bound(n: nat)
    requires n <= HEX_DIGITS_MAX
    ensures 1 <= Pow16(n) <= SIZE_MODULUS
    ensures n < HEX_DIGITS_MAX ==> 16 * Pow16(n) <= SIZE_MODULUS
  {
    Pow16Exact();
    Pow16Monotone(n, 16);
    if n < 16 { Pow16Monotone(n + 1, 16); }
  }

  lemma Pow16Exact()
    ensures Pow16(16) == SIZE_MODULUS
  {
    assert Pow16(4) == 0x1_0000 by { assert Pow16(2) == 256; }
    assert Pow16(8) == 0x1_0000_0000 by { assert Pow16(6) == 0x100_0000; }
    assert Pow16(12) == 0x1_0000_0000_0000 by { assert Pow16(10) == 0x100_0000_0000; }
    assert Pow16(14) == 0x100_0000_0000_0000;
  }

  lemma {:induction false} Pow16Monotone(m: nat, n: nat)
    requires m <= n
    ensures 1 <= Pow16(m) <= Pow16(n)
    decreases n
  {
    if m < n {
      Pow16Monotone(m, n - 1);
    } else if 0 < n {
      Pow16Monotone(m - 1, n - 1);
    }
  }

  /** The size accumulator never wraps, and the invariant survives every byte. */
  lemma StepKeepsValid(d: Decoder, b: byte)
    requires Valid(d)
    ensures match Step(d, b)
            case Next(d', _) => Valid(d')
            case Reject(d') => Valid(d')
            case Finish(d') => Valid(d')
    ensures d.phase == ChunkSize && HexDigit(b) != -1 && d.hexCount < HEX_DIGITS_MAX ==>
              Step(d, b) == Next(d.(left := d.left * 16 + HexDigit(b), hexCount := d.hexCount + 1), [])
  {
    hide Pow16;
    Pow16Bound(d.hexCount);
    Pow16Zero();
    if d.hexCount < HEX_DIGITS_MAX { Pow16Next(d.hexCount); }
  }

  lemma Pow16Zero()
    ensures Pow16(0) == 1
  {
  }

  lemma Pow16Next(n: nat)
    ensures Pow16(n + 1) == 16 * Pow16(n)
  {
  }

  lemma {:induction false} RunKeepsValid(d: Decoder, s: seq<byte>)
    requires Valid(d)
    ensures Valid(Run(d, s).decoder)
    ensures Run(d, s).decoder.consumeTrailer == d.consumeTrailer
    decreases |s|
  {
    if s != [] {
      StepKeepsValid(d, s[0]);
      if Step(d, s[0]).Next? {
        RunKeepsValid(Step(d, s[0]).decoder, s[1..]);
      }
    }
  }

  /** A stretch of chunk data is passed through untouched. */
  lemma {:induction false} RunData(d: Decoder, s: seq<byte>)
    requires Valid(d) && d.phase == ChunkData
    ensures |s| < d.left ==> Run(d, s) == Result(More, d.(left := d.left - |s|), s, [])
    ensures d.left <= |s| ==>
              Run(d, s) == Emit(s[..d.left], Run(d.(left := 0, phase := ChunkCrlf), s[d.left..]))
    decreases |s|
  {
    hide Pow16;
    if s != [] && d.left > 1 {
      var d', n := d.(left := d.left - 1), d.left;
      RunData(d', s[1..]);
      assert [s[0]] + s[1..] == s;
      if n <= |s| {
        var tail := Run(d.(left := 0, phase := ChunkCrlf), s[n..]);
        assert s[1..][n - 1..] == s[n..];
        assert [s[0]] + s[1..][..n - 1] == s[..n];
        EmitEmit([s[0]], s[1..][..n - 1], tail);
      }
    }
  }

  /** How one phase of a pass ended: go on with the next phase, or leave the loop. */
  datatype Exit = Continue | Stop(verdict: Verdict)

  /** Closes the gap between the output and the unread input: `memmove` unless there is none. */
  method Shift(buf: array<byte>, dst: nat, src: nat, n: nat)
    requires dst <= src && src + n <= buf.Length
    modifies buf
    ensures buf[dst..dst + n] == old(buf[src..src + n])
    ensures buf[..dst] == old(buf[..dst]) && buf[src + n..] == old(buf[src + n..])
  {
    ghost var before := buf[..];
    if dst != src {
      Memmove(buf, dst, src, n);
    }
    assert buf[src + n..] == buf[dst + n..][src - dst..] == before[dst + n..][src - dst..] == before[src + n..];
  }

  class ChunkedDecoder {
    var bytesLeftInChunk: nat
    var consumeTrailer: bool
    var hexCount: nat
    var phase: Phase

    function State(): Decoder
      reads this
    {
      Decoder(bytesLeftInChunk, consumeTrailer, hexCount, phase)
    }

    constructor (consumeTrailer: bool)
      ensures State() == Zeroed(consumeTrailer) && Valid(State())
    {
      bytesLeftInChunk, hexCount, phase := 0, 0, ChunkSize;
      this.consumeTrailer := consumeTrailer;
    }

    method ReadSize(buf: array<byte>, bufsz: nat, start: nat) returns (src: nat, exit: Exit)
      requires start <= bufsz <= buf.Length
      requires Valid(State()) && phase == ChunkSize
      modifies this
      ensures Valid(State())
      ensures start <= src <= bufsz
      ensures exit == Continue ==> phase == ChunkExt
      ensures Run(old(State()), buf[start..bufsz]) ==
              Remaining(exit, State(), buf[src..bufsz])
    {
      hide Run, Pow16;
      src := start;
      ghost var r := Run(State(), buf[start..bufsz]);
      while true
        invariant start <= src <= bufsz
        invariant Valid(State()) && phase == ChunkSize
        invariant r == Run(State(), buf[src..bufsz])
        decreases bufsz - src
      {
        if src == bufsz {
          RunEnd(State(), buf[src..bufsz]);
          return src, Stop(More);
        }
        RunFrom(State(), buf, bufsz, src);
        ghost var d := State();
        StepKeepsValid(d, buf[src]);
        var v := HexDigit(buf[src]);
        if v == -1 {
          if hexCount == 0 {
            return src, Stop(Bad);
          }
          break;
        }
        if hexCount == HEX_DIGITS_MAX {
          return src, Stop(Bad);
        }
        bytesLeftInChunk := (bytesLeftInChunk * 16 + v) % SIZE_MODULUS;
        hexCount := hexCount + 1;
        src := src + 1;
        assert Step(d, buf[src - 1]) == Next(State(), []);
        assert r == Run(State(), buf[src..bufsz]);
      }
      hexCount := 0;
      phase := ChunkExt;
      RunFrom(State(), buf, bufsz, src);
      exit := Continue;
    }

    method SkipExtension(buf: array<byte>, bufsz: nat, start: nat) returns (src: nat, exit: Exit)
      requires start <= bufsz <= buf.Length
      requires Valid(State()) && phase == ChunkExt
      modifies this
      ensures Valid(State())
      ensures start <= src <= bufsz
      ensures exit == Continue ==> start < src
      ensures Run(old(State()), buf[start..bufsz]) ==
              Remaining(exit, State(), buf[src..bufsz])
    {
      hide Run, Pow16;
      src := start;
      ghost var r := Run(State(), buf[start..bufsz]);
      while true
        invariant start <= src <= bufsz
        invariant State() == old(State())
        invariant r == Run(State(), buf[src..bufsz])
        decreases bufsz - src
      {
        if src == bufsz {
          RunEnd(State(), buf[src..bufsz]);
          return src, Stop(More);
        }
        RunFrom(State(), buf, bufsz, src);
        if buf[src] == LF {
          break;
        }
        src := src + 1;
      }
      src := src + 1;
      if bytesLeftInChunk == 0 {
        if consumeTrailer {
          phase := TrailerHead;
          return src, Continue;
        }
        return src, Stop(Done);
      }
      phase := ChunkData;
      exit := Continue;
    }

    method CopyData(buf: array<byte>, bufsz: nat, start: nat, to: nat) returns (src: nat, dst: nat, exit: Exit)
      requires to <= start <= bufsz <= buf.Length
      requires Valid(State()) && phase == ChunkData
      modifies this, buf
      ensures Valid(State())
      ensures start <= src <= bufsz && dst - to == src - start
      ensures exit == Continue ==> start < src
      ensures buf[..to] == old(buf[..to]) && buf[src..] == old(buf[src..])
      ensures Run(old(State()), old(buf[start..bufsz])) ==
              Emit(buf[to..dst], Remaining(exit, State(), buf[src..bufsz]))
    {
      hide Run, Pow16;
      ghost var s := buf[start..bufsz];
      RunData(State(), s);
      var avail := bufsz - start;
      if avail < bytesLeftInChunk {
        Shift(buf, to, start, avail);
        CopyShape(buf[..], old(buf[..]), to, start, avail, bufsz);
        src, dst := start + avail, to + avail;
        bytesLeftInChunk := bytesLeftInChunk - avail;
        assert s[..avail] == s && s + [] == s;
        return src, dst, Stop(More);
      }
      var n := bytesLeftInChunk;
      Shift(buf, to, start, n);
      CopyShape(buf[..], old(buf[..]), to, start, n, bufsz);
      src, dst := start + n, to + n;
      bytesLeftInChunk := 0;
      phase := ChunkCrlf;
      exit := Continue;
    }

    method SkipCrlf(buf: array<byte>, bufsz: nat, start: nat) returns (src: nat, exit: Exit)
      requires start <= bufsz <= buf.Length
      requires Valid(State()) && phase == ChunkCrlf
      modifies this
      ensures Valid(State())
      ensures start <= src <= bufsz
      ensures exit == Continue ==> start < src
      ensures Run(old(State()), buf[start..bufsz]) ==
              Remaining(exit, State(), buf[src..bufsz])
    {
      hide Run, Pow16;
      src := start;
      ghost var r := Run(State(), buf[start..bufsz]);
      while true
        invariant start <= src <= bufsz
        invariant State() == old(State())
        invariant r == Run(State(), buf[src..bufsz])
        decreases bufsz - src
      {
        if src == bufsz {
          RunEnd(State(), buf[src..bufsz]);
          return src, Stop(More);
        }
        RunFrom(State(), buf, bufsz, src);
        if buf[src] != CR {
          break;
        }
        src := src + 1;
      }
      if buf[src] != LF {
        return src, Stop(Bad);
      }
      src := src + 1;
      phase := ChunkSize;
      Pow16Bound(0);
      exit := Continue;
    }

    method ReadTrailerHead(buf: array<byte>, bufsz: nat, start: nat) returns (src: nat, exit: Exit)
      requires start <= bufsz <= buf.Length
      requires Valid(State()) && phase == TrailerHead
      modifies this
      ensures Valid(State())
      ensures start <= src <= bufsz
      ensures exit == Continue ==> start < src
      ensures Run(old(State()), buf[start..bufsz]) ==
              Remaining(exit, State(), buf[src..bufsz])
    {
      hide Run, Pow16;
      src := start;
      ghost var r := Run(State(), buf[start..bufsz]);
      while true
        invariant start <= src <= bufsz
        invariant State() == old(State())
        invariant r == Run(State(), buf[src..bufsz])
        decreases bufsz - src
      {
        if src == bufsz {
          RunEnd(State(), buf[src..bufsz]);
          return src, Stop(More);
        }
        RunFrom(State(), buf, bufsz, src);
        if buf[src] != CR {
          break;
        }
        src := src + 1;
      }
      src := src + 1;
      if buf[src - 1] == LF {
        return src, Stop(Done);
      }
      phase := TrailerMiddle;
      exit := Continue;
    }

    method ReadTrailerMiddle(buf: array<byte>, bufsz: nat, start: nat) returns (src: nat, exit: Exit)
      requires start <= bufsz <= buf.Length
      requires Valid(State()) && phase == TrailerMiddle
      modifies this
      ensures Valid(State())
      ensures start <= src <= bufsz
      ensures exit == Continue ==> start < src
      ensures Run(old(State()), buf[start..bufsz]) ==
              Remaining(exit, State(), buf[src..bufsz])
    {
      hide Run, Pow16;
      src := start;
      ghost var r := Run(State(), buf[start..bufsz]);
      while true
        invariant start <= src <= bufsz
        invariant State() == old(State())
        invariant r == Run(State(), buf[src..bufsz])
        decreases bufsz - src
      {
        if src == bufsz {
          RunEnd(State(), buf[src..bufsz]);
          return src, Stop(More);
        }
        RunFrom(State(), buf, bufsz, src);
        if buf[src] == LF {
          break;
        }
        src := src + 1;
      }
      src := src + 1;
      phase := TrailerHead;
      exit := Continue;
    }

    /** One phase of the pass; the C code falls through from one phase to the next, here the
        caller's loop comes round again. */
    method Phase(buf: array<byte>, bufsz: nat, start: nat, to: nat) returns (src: nat, dst: nat, exit: Exit)
      requires to <= start <= bufsz <= buf.Length
      requires Valid(State())
      modifies this, buf
      ensures Valid(State())
      ensures start <= src <= bufsz && to <= dst && dst - to <= src - start
      ensures exit == Continue ==> start < src || (old(phase) == ChunkSize && phase == ChunkExt)
      ensures buf[..to] == old(buf[..to]) && buf[src..] == old(buf[src..])
      ensures Run(old(State()), old(buf[start..bufsz])) ==
              Emit(buf[to..dst], Remaining(exit, State(), buf[src..bufsz]))
    {
      dst := to;
      match phase {
        case ChunkSize => src, exit := ReadSize(buf, bufsz, start);
        case ChunkExt => src, exit := SkipExtension(buf, bufsz, start);
        case ChunkData => src, dst, exit := CopyData(buf, bufsz, start, to);
        case ChunkCrlf => src, exit := SkipCrlf(buf, bufsz, start);
        case TrailerHead => src, exit := ReadTrailerHead(buf, bufsz, start);
        case TrailerMiddle => src, exit := ReadTrailerMiddle(buf, bufsz, start);
      }
    }

    /** `phr_decode_chunked`: decodes `buf[..bufsz]` in place. The `size` decoded bytes end up at the
        front, the undecoded bytes right behind them; `ret` is -2 (more input wanted), -1 (malformed)
        or the number of undecoded bytes after the end of the body. */
    method Decode(buf: array<byte>, bufsz: nat) returns (ret: int, size: nat)
      requires bufsz <= buf.Length
      requires Valid(State())
      modifies this, buf
      ensures Valid(State())
      ensures var r := Run(old(State()), old(buf[..bufsz]));
              && State() == r.decoder
              && size == |r.out| && size + |r.rest| <= bufsz
              && buf[..size] == r.out && buf[size..size + |r.rest|] == r.rest
              && ret == match r.verdict { case More => -2 case Bad => -1 case Done => |r.rest| }
      ensures buf[bufsz..] == old(buf[bufsz..])
    {
      hide Run, Pow16;
      ghost var input := buf[..bufsz];
      ghost var d0 := State();
      var src, dst, exit := 0, 0, Continue;
      assert buf[0..bufsz] == input;
      while exit == Continue
        invariant dst <= src <= bufsz
        invariant Valid(State())
        invariant buf[bufsz..] == old(buf[bufsz..])
        invariant Run(d0, input) == Emit(buf[..dst], Remaining(exit, State(), buf[src..bufsz]))
        decreases exit == Continue, bufsz - src, phase == ChunkSize
      {
        ghost var before, from, done := buf[..], src, dst;
        src, dst, exit := Phase(buf, bufsz, src, dst);
        SuffixUnchanged(buf[..], before, src, bufsz);
        PrefixGrew(buf[..], before, done, dst);
        EmitEmit(before[..done], buf[done..dst], Remaining(exit, State(), buf[src..bufsz]));
      }
      ret := match exit.verdict case More => -2 case Bad => -1 case Done => bufsz - src;
      size := dst;
      ghost var before := buf[..];
      assert buf[..dst] + [] == buf[..dst];
      Shift(buf, dst, src, bufsz - src);
      assert buf[..dst] == before[..dst];
      assert buf[dst..dst + (bufsz - src)] == before[src..bufsz];
    }
  }

  /** The decoder's result from here on, given how the last phase ended. */
  function Remaining(exit: Exit, d: Decoder, unread: seq<byte>): Result {
    match exit
    case Continue => Run(d, unread)
    case Stop(verdict) => Result(verdict, d, [], unread)
  }

  /** After the data bytes were moved down, they and the unread bytes are where they should be. */
  lemma CopyShape(now: seq<byte>, before: seq<byte>, to: nat, start: nat, n: nat, bufsz: nat)
    requires to <= start && start + n <= bufsz <= |now| == |before|
    requires now[to..to + n] == before[start..start + n] && now[start + n..] == before[start + n..]
    ensures now[to..to + n] == before[start..bufsz][..n]
    ensures now[start + n..bufsz] == before[start..bufsz][n..]
  {
    assert now[start + n..bufsz] == now[start + n..][..bufsz - start - n];
  }

  lemma EmitEmit(a: seq<byte>, b: seq<byte>, r: Result)
    ensures Emit(a, Emit(b, r)) == Emit(a + b, r)
  {
    assert a + (b + r.out) == a + b + r.out;
  }

  lemma PrefixGrew(now: seq<byte>, before: seq<byte>, m: nat, n: nat)
    requires m <= n <= |now| == |before|
    requires now[..m] == before[..m]
    ensures now[..n] == before[..m] + now[m..n]
  {
  }

  lemma SuffixUnchanged(now: seq<byte>, before: seq<byte>, m: nat, n: nat)
    requires m <= n <= |now| == |before|
    requires now[m..] == before[m..]
    ensures now[n..] == before[n..]
  {
    assert now[n..] == now[m..][n - m..];
  }
}
