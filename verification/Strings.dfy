/** Heap strings: `size` characters and a terminating zero, in a block of `capacity` + 1 bytes. */
module Strings {
  import opened Wrappers
  import opened Bytes
  import opened Replacement

  class String {
    var chars: array<byte>
    var size: nat

    ghost predicate Valid()
      reads this, chars
    {
      size < chars.Length && chars[size] == 0
    }

    function Text(): seq<byte>
      reads this, chars
      requires size < chars.Length
    {
      chars[..size]
    }

    function Capacity(): int
      reads this
    {
      chars.Length - 1
    }

    /** `string_null`. */
    constructor ()
      ensures Valid() && Text() == [] && fresh(chars)
    {
      chars := new byte[1](_ => 0);
      size := 0;
    }

    /** `string_allocate`: a larger block when the old one is too small. */
    method Allocate(capacity: nat)
      requires size < chars.Length
      modifies this`chars
      ensures capacity <= Capacity() && size < chars.Length && Text() == old(Text())
      ensures if capacity <= old(Capacity()) then chars == old(chars) else fresh(chars) && Capacity() == capacity
    {
      if capacity > Capacity() {
        var block := new byte[capacity + 1];
        forall k | 0 <= k < chars.Length {
          block[k] := chars[k];
        }
        chars := block;
      }
    }

    /** `string_resize`: the text is cut, or extended by bytes of unspecified value. */
    method Resize(n: nat)
      requires size < chars.Length
      modifies this, chars
      ensures Valid() && size == n
      ensures n <= old(size) ==> Text() == old(Text())[..n]
      ensures old(size) <= n ==> Text()[..old(size)] == old(Text())
      ensures chars == old(chars) || fresh(chars)
      ensures n <= old(Capacity()) ==> chars == old(chars)
    {
      ghost var before := Text();
      Allocate(n);
      assert chars[..old(size)] == before;
      size := n;
      chars[n] := 0;
      if n <= |before| {
        assert Text() == before[..n];
      } else {
        assert Text()[..|before|] == before;
      }
    }

    /** `memmem` from a position on. */
    method FindAt(position: nat, m: seq<byte>) returns (found: Option<nat>)
      requires Valid() && position <= size
      ensures found == if m == [] then None else FirstFrom(Text(), m, position)
    {
      if m == [] {
        return None;
      }
      var i := position;
      while i + |m| <= size
        invariant position <= i
        invariant FirstFrom(Text(), m, i) == FirstFrom(Text(), m, position)
        decreases size - i
      {
        assert chars[i..i + |m|] == Text()[i..i + |m|];
        if chars[i..i + |m|] == m {
          return Some(i);
        }
        i := i + 1;
      }
      found := None;
    }

    /** `string_insert_data`. */
    method Insert(offset: nat, d: seq<byte>)
      requires Valid() && offset <= size
      modifies this, chars
      ensures Valid() && Text() == old(Text())[..offset] + d + old(Text())[offset..]
      ensures chars == old(chars) || fresh(chars)
    {
      ghost var t := Text();
      var n := size;
      Resize(n + |d|);
      ghost var grown := chars[..];
      Memmove(chars, offset + |d|, offset, n - offset);
      ghost var moved := chars[..];
      Overwrite(offset, d);
      assert t == grown[..n];
      InsertShape(grown, moved, chars[..], n, offset, d);
    }

    /** `memcpy` into the string. */
    method Overwrite(offset: nat, d: seq<byte>)
      requires offset + |d| <= chars.Length
      modifies chars
      ensures chars[..] == old(chars[..offset]) + d + old(chars[offset + |d|..])
    {
      forall k | 0 <= k < |d| {
        chars[offset + k] := d[k];
      }
    }

    /** `string_erase_data`, of `n` characters at `position`. */
    method Erase(position: nat, n: nat)
      requires Valid() && position + n <= size
      modifies this, chars
      ensures Valid() && Text() == old(Text())[..position] + old(Text())[position + n..]
      ensures chars == old(chars) || fresh(chars)
    {
      ghost var t := Text();
      if n == 0 {
        assert t == t[..position] + t[position..];
        return;
      }
      Memmove(chars, position, position + n, size - position - n);
      ghost var moved := Text();
      assert moved[..position] == chars[..position] == t[..position];
      assert moved[position..size - n] == chars[position..size - n] == t[position + n..];
      Resize(size - n);
      assert Text() == moved[..|t| - n] == moved[..position] + moved[position..|t| - n];
    }

    /** `string_replace_data`: the leftmost occurrence only. */
    method Replace(m: seq<byte>, r: seq<byte>)
      requires Valid()
      modifies this, chars
      ensures Valid()
      ensures var first := if m == [] then None else FirstFrom(old(Text()), m, 0);
              Text() == match first
                        case None => old(Text())
                        case Some(i) => old(Text())[..i] + r + old(Text())[i + |m|..]
    {
      var found := FindAt(0, m);
      if found.None? {
        return;
      }
      Exchange(found.value, |m|, r);
    }

    /** The erasing and inserting that both replacements share. */
    method Exchange(position: nat, n: nat, r: seq<byte>)
      requires Valid() && position + n <= size
      modifies this, chars
      ensures Valid() && Text() == old(Text())[..position] + r + old(Text())[position + n..]
      ensures chars == old(chars) || fresh(chars)
    {
      ghost var t := Text();
      Erase(position, n);
      Insert(position, r);
      CutAndPaste(t, position, n, r);
    }

    /** One round of `string_replace_all_data`: `done` is the finished part of the text, `rest` the other. */
    method ReplaceFound(position: nat, m: seq<byte>, r: seq<byte>, ghost done: seq<byte>, ghost rest: seq<byte>)
      returns (ghost done': seq<byte>, ghost rest': seq<byte>)
      requires Valid() && Text() == done + rest && m != [] && FirstFrom(Text(), m, |done|) == Some(position)
      modifies this, chars
      ensures Valid() && Text() == done' + rest' && |done'| == position + |r| && |rest'| < |rest|
      ensures done + ReplaceAll(rest, m, r) == done' + ReplaceAll(rest', m, r)
      ensures chars == old(chars) || fresh(chars)
    {
      hide ReplaceAll, FirstFrom;
      done', rest' := ReplaceRound(Text(), done, rest, m, r, position);
      Exchange(position, |m|, r);
    }

    /** `string_replace_all_data`. */
    method ReplaceAllData(m: seq<byte>, r: seq<byte>)
      requires Valid()
      modifies this, chars
      ensures Valid()
      ensures Text() == ReplaceAll(old(Text()), m, r)
      ensures chars == old(chars) || fresh(chars)
    {
      hide ReplaceAll, FirstFrom;
      ghost var result, done, rest := ReplaceAll(Text(), m, r), [], Text();
      assert [] + rest == rest && [] + ReplaceAll(rest, m, r) == ReplaceAll(rest, m, r);
      var position := 0;
      while position < size
        invariant Valid() && position == |done| <= size
        invariant Text() == done + rest
        invariant result == done + ReplaceAll(rest, m, r)
        invariant chars == old(chars) || fresh(chars)
        decreases size - position
      {
        var found := FindAt(position, m);
        ReplaceEnd(Text(), done, rest, m, r);
        if found.None? {
          return;
        }
        position := found.value;
        done, rest := ReplaceFound(position, m, r, done, rest);
        position := position + |r|;
      }
      ReplaceNothing(rest, m, r);
    }
  }

  lemma InsertShape(grown: seq<byte>, moved: seq<byte>, now: seq<byte>, n: nat, offset: nat, d: seq<byte>)
    requires offset <= n && n + |d| < |grown| == |moved|
    requires moved[offset + |d|..n + |d|] == grown[offset..n]
    requires moved[..offset + |d|] == grown[..offset + |d|] && moved[n + |d|..] == grown[n + |d|..]
    requires now == moved[..offset] + d + moved[offset + |d|..]
    ensures now[..n + |d|] == grown[..n][..offset] + d + grown[..n][offset..]
    ensures now[n + |d|] == grown[n + |d|]
  {
    assert moved[..offset] == moved[..offset + |d|][..offset] == grown[..offset];
    assert now[n + |d|] == moved[n + |d|] == moved[n + |d|..][0] == grown[n + |d|..][0];
    assert now[..n + |d|] == moved[..offset] + d + moved[offset + |d|..n + |d|];
  }

  lemma CutAndPaste(t: seq<byte>, position: nat, n: nat, r: seq<byte>)
    requires position + n <= |t|
    ensures var cut := t[..position] + t[position + n..];
            cut[..position] + r + cut[position..] == t[..position] + r + t[position + n..]
  {
  }

  lemma ReplaceNothing(s: seq<byte>, m: seq<byte>, r: seq<byte>)
    ensures s == [] ==> ReplaceAll(s, m, r) == []
    ensures m == [] ==> ReplaceAll(s, m, r) == s
  {
  }

  lemma ReplaceEnd(t: seq<byte>, done: seq<byte>, rest: seq<byte>, m: seq<byte>, r: seq<byte>)
    requires t == done + rest && rest != []
    ensures m == [] || FirstFrom(t, m, |done|).None? ==> ReplaceAll(rest, m, r) == rest
  {
    hide FirstFrom;
    FirstFromShift(done, rest, m, 0);
  }

  /** One round: what is found in the whole text from the current position on is the first occurrence
      in the rest of it, and exchanging it leaves a shorter rest behind the replacement. */
  lemma ReplaceRound(t: seq<byte>, done: seq<byte>, rest: seq<byte>, m: seq<byte>, r: seq<byte>, i: nat)
    returns (done': seq<byte>, rest': seq<byte>)
    requires t == done + rest && m != [] && FirstFrom(t, m, |done|) == Some(i)
    ensures i + |m| <= |t|
    ensures t[..i] + r + t[i + |m|..] == done' + rest'
    ensures done + ReplaceAll(rest, m, r) == done' + ReplaceAll(rest', m, r)
    ensures |done'| == i + |r| && |rest'| < |rest|
  {
    hide FirstFrom, ReplaceAll;
    FirstFromShift(done, rest, m, 0);
    var k := i - |done|;
    done', rest' := done + (rest[..k] + r), rest[k + |m|..];
    ReplaceFirst(rest, m, r, k);
    Advance(done, rest, k, |m|, r, ReplaceAll(rest', m, r));
  }

  lemma {:induction false} ReplaceFirst(s: seq<byte>, m: seq<byte>, r: seq<byte>, k: nat)
    requires m != [] && FirstFrom(s, m, 0) == Some(k)
    ensures k + |m| <= |s| && ReplaceAll(s, m, r) == s[..k] + r + ReplaceAll(s[k + |m|..], m, r)
  {
    hide FirstFrom;
    assert OccursAt(s, m, k);
  }

  lemma Advance(done: seq<byte>, rest: seq<byte>, k: nat, n: nat, r: seq<byte>, tail: seq<byte>)
    requires k + n <= |rest|
    ensures done + (rest[..k] + r + tail) == done + (rest[..k] + r) + tail
    ensures (done + rest)[..|done| + k] + r + (done + rest)[|done| + k + n..] == done + (rest[..k] + r) + rest[k + n..]
  {
  }
}
