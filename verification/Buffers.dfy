/** Growable byte buffers: the first `size` bytes of `data` are the contents, the rest is room. */
module Buffers {
  import opened Bytes
  import opened Bits

  function Repeat(d: seq<byte>, count: nat): seq<byte> {
    if count == 0 then [] else Repeat(d, count - 1) + d
  }

  /** `memcpy` of `d` to position `p`. */
  method Copy(a: array<byte>, p: nat, d: seq<byte>)
    requires p + |d| <= a.Length
    modifies a
    ensures a[..] == old(a[..p]) + d + old(a[p + |d|..])
  {
    forall k | 0 <= k < |d| {
      a[p + k] := d[k];
    }
  }

  /** The copying loop of `buffer_insert_fill`. */
  method Fill(a: array<byte>, position: nat, count: nat, d: seq<byte>)
    requires position + count * |d| <= a.Length
    modifies a
    ensures |Repeat(d, count)| == count * |d|
    ensures a[..] == old(a[..position]) + Repeat(d, count) + old(a[position + count * |d|..])
  {
    hide Repeat;
    ghost var before := a[..];
    RepeatNothing(d);
    assert before == before[..position] + [] + before[position..];
    for i := 0 to count
      invariant |Repeat(d, i)| == i * |d| && position + i * |d| <= a.Length
      invariant a[..] == before[..position] + Repeat(d, i) + before[position + i * |d|..]
    {
      FitsNext(i, count, |d|);
      RepeatNext(d, i);
      FillStep(before, position, Repeat(d, i), d);
      Copy(a, position + i * |d|, d);
    }
  }

  lemma FillStep(before: seq<byte>, position: nat, done: seq<byte>, d: seq<byte>)
    requires position + |done| + |d| <= |before|
    ensures var now := before[..position] + done + before[position + |done|..];
            now[..position + |done|] + d + now[position + |done| + |d|..] ==
            before[..position] + (done + d) + before[position + |done + d|..]
  {
  }

  class Buffer {
    var data: array<byte>
    var size: nat

    ghost predicate Valid()
      reads this
    {
      size <= data.Length
    }

    function Contents(): seq<byte>
      reads this, data
      requires Valid()
    {
      data[..size]
    }

    constructor ()
      ensures Valid() && Contents() == [] && fresh(data) && data.Length == 0
    {
      data, size := new byte[0], 0;
    }

    function Capacity(): nat
      reads this
    {
      data.Length
    }

    /** `buffer_reserve`: room for `capacity` bytes, rounded up to a power of two when it must grow. */
    method Reserve(capacity: nat)
      requires Valid() && capacity <= WORD / 2
      modifies this
      ensures Valid() && size == old(size) && Contents() == old(Contents())
      ensures capacity <= Capacity()
      ensures if capacity <= old(Capacity()) then data == old(data)
              else fresh(data) && IsLeastPow2(capacity, Capacity())
    {
      if capacity > Capacity() {
        var n := RoundUp(capacity);
        Reallocate(n);
      }
    }

    /** `realloc`: a new block that starts with the old bytes, as many as fit. */
    method Reallocate(n: nat)
      requires Valid() && size <= n
      modifies this
      ensures Valid() && fresh(data) && Capacity() == n && size == old(size) && Contents() == old(Contents())
    {
      var block := new byte[n];
      forall k | 0 <= k < size {
        block[k] := data[k];
      }
      data := block;
      assert data[..size] == old(data[..size]);
    }

    /** `buffer_resize`: bytes beyond the old contents are not initialised. */
    method Resize(newSize: nat)
      requires Valid() && newSize <= WORD / 2
      modifies this
      ensures Valid() && size == newSize
      ensures data == old(data) || fresh(data)
      ensures newSize <= old(size) ==> Contents() == old(Contents())[..newSize]
      ensures old(size) <= newSize ==> Contents()[..old(size)] == old(Contents())
    {
      if newSize > Capacity() {
        Reserve(newSize);
      }
      ghost var grown := data[..];
      assert grown[..old(size)] == old(Contents());
      size := newSize;
    }

    /** `buffer_compact`. */
    method Compact()
      requires Valid()
      modifies this
      ensures Valid() && size == old(size) && Contents() == old(Contents()) && Capacity() == size
      ensures data == old(data) || fresh(data)
    {
      if Capacity() > size {
        Reallocate(size);
      }
    }

    /** `buffer_insert`. */
    method Insert(position: nat, d: seq<byte>)
      requires Valid() && position <= size && size + |d| <= WORD / 2
      modifies this, data
      ensures Valid()
      ensures Contents() == old(Contents())[..position] + d + old(Contents())[position..]
      ensures data == old(data) || fresh(data)
    {
      ghost var c := Contents();
      OpenGap(position, |d|);
      ghost var gapped := data[..];
      Copy(data, position, d);
      size := size + |d|;
      assert data[..size] == c[..position] + d + c[position..] by {
        assert gapped[..position] == c[..position];
        assert gapped[position + |d|..size] == c[position..];
      }
    }

    /** The first half of both insertions: room for `n` more bytes, with the tail moved out of the way. */
    method OpenGap(position: nat, n: nat)
      requires Valid() && position <= size && size + n <= WORD / 2
      modifies this, data
      ensures Valid() && size == old(size) && size + n <= data.Length
      ensures data[..position] == old(Contents())[..position]
      ensures data[position + n..size + n] == old(Contents())[position..]
      ensures data == old(data) || fresh(data)
    {
      Reserve(size + n);
      ghost var c := Contents();
      assert data[..position] == c[..position] && data[position..size] == c[position..];
      if position < size {
        Memmove(data, position + n, position, size - position);
        assert data[..position] == data[..position + n][..position];
      }
    }

    /** `buffer_insert_fill`: `count` copies of `d`. */
    method InsertFill(position: nat, count: nat, d: seq<byte>)
      requires Valid() && position <= size && size + count * |d| <= WORD / 2
      modifies this, data
      ensures Valid()
      ensures Contents() == old(Contents())[..position] + Repeat(d, count) + old(Contents())[position..]
      ensures data == old(data) || fresh(data)
    {
      ghost var c := Contents();
      var gap := count * |d|;
      OpenGap(position, gap);
      ghost var gapped := data[..];
      Fill(data, position, count, d);
      size := size + gap;
      assert data[..size] == c[..position] + Repeat(d, count) + c[position..] by {
        assert gapped[..position] == c[..position];
        assert gapped[position + gap..size] == c[position..];
      }
    }

    /** `buffer_erase`. */
    method Erase(position: nat, n: nat)
      requires Valid() && position + n <= size
      modifies this, data
      ensures Valid() && data == old(data)
      ensures Contents() == old(Contents())[..position] + old(Contents())[position + n..]
    {
      ghost var c := Contents();
      Memmove(data, position, position + n, size - position - n);
      size := size - n;
      assert data[..size] == data[..position] + data[position..size];
      assert data[position..size] == c[position + n..];
    }

    /** `buffer_clear`. */
    method Clear()
      modifies this
      ensures Valid() && Contents() == [] && Capacity() == 0 && fresh(data)
    {
      data, size := new byte[0], 0;
    }
  }

  lemma {:induction false} RepeatLength(d: seq<byte>, count: nat)
    ensures |Repeat(d, count)| == count * |d|
  {
    if count > 0 {
      RepeatLength(d, count - 1);
    }
  }

  /** Byte `k` of copy `i`. */
  lemma {:induction false} RepeatMeans(d: seq<byte>, count: nat, i: nat, k: nat)
    requires i < count && k < |d|
    ensures 0 <= i * |d| + k < |Repeat(d, count)| == count * |d| && Repeat(d, count)[i * |d| + k] == d[k]
  {
    RepeatLength(d, count);
    RepeatLength(d, count - 1);
    CopyWithin(|d|, count, i, k);
    if i < count - 1 {
      RepeatMeans(d, count - 1, i, k);
    }
  }

  lemma CopyWithin(n: nat, count: nat, i: nat, k: nat)
    requires i < count && k < n
    ensures count * n == (count - 1) * n + n
    ensures 0 <= i * n + k < count * n
    ensures i < count - 1 ==> i * n + k < (count - 1) * n
  {
    assert (i + 1) * n <= count * n;
    assert i < count - 1 ==> (i + 1) * n <= (count - 1) * n;
  }

  lemma RepeatNothing(d: seq<byte>)
    ensures Repeat(d, 0) == []
  {
  }

  lemma RepeatNext(d: seq<byte>, i: nat)
    ensures Repeat(d, i + 1) == Repeat(d, i) + d
  {
  }

  lemma FitsNext(i: nat, count: nat, n: nat)
    requires i < count
    ensures i * n + n == (i + 1) * n <= count * n
  {
    assert (count - (i + 1)) * n >= 0;
    assert count * n == (i + 1) * n + (count - (i + 1)) * n;
  }
}
