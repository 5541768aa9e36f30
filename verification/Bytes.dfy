/** Bytes as the C sources see them through `unsigned char`, and the few character codes they name. */
module Bytes {
  type byte = b: int | 0 <= b < 256

  const HT: byte := 9
  const LF: byte := 10
  const CR: byte := 13
  const SP: byte := 32
  const COLON: byte := 58
  const DEL: byte := 127
  const CRLF: seq<byte> := [CR, LF]

  /** `memmove`/`memcpy` inside one array: `n` bytes from `src` to `dst`, overlap allowed. */
  method Memmove(a: array<byte>, dst: nat, src: nat, n: nat)
    requires dst + n <= a.Length && src + n <= a.Length
    modifies a
    ensures a[dst..dst + n] == old(a[src..src + n])
    ensures a[..dst] == old(a[..dst]) && a[dst + n..] == old(a[dst + n..])
  {
    forall k | 0 <= k < n {
      a[dst + k] := a[src + k];
    }
  }

  lemma ConcatAssociates(a: seq<byte>, b: seq<byte>, c: seq<byte>)
    ensures a + b + c == a + (b + c)
  {
  }

  function Concat(parts: seq<seq<byte>>): seq<byte> {
    if parts == [] then [] else parts[0] + Concat(parts[1..])
  }
}
