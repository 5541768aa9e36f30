/**
 Plain-socket streams: an input and an output buffer around a non-blocking descriptor. The ghost
 fields record everything that was queued for output and everything the descriptor accepted.
 */
module Streams {
  import opened Bytes
  import opened Bits
  import opened Buffers

  const RECEIVE_SIZE: nat := 65536

  /** What the descriptor is registered for. */
  datatype Interest = Interest(read: bool, write: bool)

  datatype SocketEvent = Readable(incoming: seq<byte>) | Writable | Hangup

  /** The event a callback hands on to the owner of the stream, if any. */
  datatype Dispatched = Nothing | StreamRead | StreamWrite | StreamClose

  /** What a writable event leaves of the output and of a pending notification, and what it reports,
      when the descriptor takes `taken` bytes. */
  datatype Written = Written(rest: seq<byte>, notify: bool, dispatched: Dispatched)

  function AfterWritable(output: seq<byte>, notify: bool, taken: nat): Written
    requires taken <= |output|
  {
    var rest := output[taken..];
    if rest == [] || notify then Written(rest, false, StreamWrite) else Written(rest, notify, Nothing)
  }

  lemma Taken(a: seq<byte>, c: seq<byte>, total: nat, n: nat)
    requires total + n <= |c|
    ensures a + c[..total] + c[total..][..n] == a + c[..total + n]
    ensures a + c[..0] == a
  {
  }

  lemma SplitTaken(a: seq<byte>, c: seq<byte>, total: nat)
    requires total <= |c|
    ensures a + c[..total] + c[total..] == a + c
  {
  }

  class Stream {
    const input: Buffer
    const output: Buffer
    var isOpen: bool
    var readMask: bool
    var notify: bool
    var interest: Interest
    ghost var queued: seq<byte>
    ghost var accepted: seq<byte>

    // Whether the last `write` refused, and whether the last `read` came back short or empty-handed.
    ghost var refused: bool
    ghost var exhausted: bool

    ghost predicate Valid()
      reads this, input, output
    {
      input != output && input.data != output.data && input.Valid() && output.Valid()
    }

    /** Conservation: what the descriptor took, followed by the output buffer, is all that was queued. */
    ghost predicate Conserved()
      reads this, output, output.data
      requires output.Valid()
    {
      accepted + output.Contents() == queued
    }

    /** Write interest is on exactly while output remains or a notification is pending. */
    ghost predicate InterestExact()
      reads this, output
    {
      interest == Interest(readMask, output.size > 0 || notify)
    }

    /** `stream_construct` and `stream_open` on a plain socket. */
    constructor (readMask: bool)
      ensures Valid() && Conserved() && InterestExact() && isOpen && !notify
      ensures fresh(input) && fresh(output) && fresh(input.data) && fresh(output.data)
      ensures input.Contents() == [] && output.Contents() == [] && queued == [] && this.readMask == readMask
    {
      input := new Buffer();
      output := new Buffer();
      isOpen, notify, this.readMask := true, false, readMask;
      interest := Interest(readMask, false);
      queued, accepted, refused, exhausted := [], [], false, false;
    }

    /** `write(2)` on the non-blocking descriptor: it takes some bytes, or none and says so. */
    method KernelWrite(bytes: seq<byte>) returns (n: int)
      requires bytes != []
      modifies this`accepted, this`refused
      ensures n == -1 || 1 <= n <= |bytes|
      ensures refused <==> n == -1
      ensures n == -1 ==> accepted == old(accepted)
      ensures n != -1 ==> accepted == old(accepted) + bytes[..n]
    {
      if * {
        n := -1;
      } else {
        assert 1 <= |bytes|;
        n :| 1 <= n <= |bytes|;
        accepted := accepted + bytes[..n];
      }
      refused := n == -1;
    }

    /** `stream_socket_write`: writes until done or the descriptor would block, then drops what was taken.
        Output is left over only if the descriptor refused to take it. */
    method SocketWrite()
      requires Valid() && Conserved()
      modifies this`accepted, this`refused, output, output.data
      ensures Valid() && Conserved() && output.data == old(output.data)
      ensures output.Contents() == [] || refused
      ensures exists total: nat :: total <= |old(output.Contents())|
                && output.Contents() == old(output.Contents())[total..]
                && accepted == old(accepted) + old(output.Contents())[..total]
    {
      ghost var c, a := output.Contents(), accepted;
      var size := output.size;
      var total: nat := 0;
      refused := false;
      Taken(a, c, 0, 0);
      while size - total != 0
        modifies this`accepted, this`refused
        invariant total <= size && !refused
        invariant accepted == a + c[..total]
      {
        ghost var rest := output.data[total..size];
        var n := KernelWrite(output.data[total..size]);
        assert rest == c[total..];
        if n == -1 {
          break;
        }
        Taken(a, c, total, n);
        total := total + n;
      }
      output.Erase(0, total);
      assert output.Contents() == c[total..];
      SplitTaken(a, c, total);
    }

    /** `stream_socket_mask` and `stream_socket_update`. */
    method Update()
      modifies this`interest
      ensures InterestExact()
    {
      var mask := Interest(readMask, output.size > 0 || notify);
      if interest != mask {
        interest := mask;
      }
    }

    /** `stream_flush` on a plain socket. */
    method Flush()
      requires Valid() && Conserved() && isOpen
      modifies this`accepted, this`refused, this`interest, output, output.data
      ensures Valid() && Conserved() && InterestExact() && output.data == old(output.data)
      ensures output.Contents() == [] || refused
      ensures output.size <= old(output.size)
      ensures interest.write <==> output.Contents() != [] || notify
    {
      SocketWrite();
      Update();
    }

    /** `stream_write`. */
    method Write(d: seq<byte>)
      requires Valid() && Conserved() && output.size + |d| <= WORD / 2
      modifies this`queued, output, output.data
      ensures Valid() && Conserved()
      ensures queued == old(queued) + d
      ensures output.Contents() == old(output.Contents()) + d
      ensures output.data == old(output.data) || fresh(output.data)
    {
      ghost var c := output.Contents();
      output.Insert(output.size, d);
      assert output.Contents() == c[..|c|] + d + c[|c|..] == c + d;
      queued := queued + d;
      assert accepted + (c + d) == accepted + c + d;
    }

    /** `stream_allocate`: `size` more bytes of output, to be filled by the caller from the returned
        position on. */
    method Allocate(size: nat) returns (at: nat)
      requires Valid() && output.size + size <= WORD / 2
      modifies output
      ensures Valid() && at == old(output.size) && output.size == at + size
      ensures output.data[..at] == old(output.Contents())
      ensures output.data == old(output.data) || fresh(output.data)
    {
      at := output.size;
      output.Resize(at + size);
      assert output.data[..at] == output.Contents()[..at];
    }

    /** `stream_consume`. */
    method Consume(size: nat)
      requires Valid() && size <= input.size
      modifies input, input.data
      ensures Valid() && input.data == old(input.data)
      ensures input.Contents() == old(input.Contents())[size..]
    {
      input.Erase(0, size);
    }

    /** `stream_notify`. */
    method Notify()
      modifies this`notify, this`interest
      ensures notify
      ensures if isOpen then InterestExact() else interest == old(interest)
    {
      notify := true;
      if !isOpen {
        return;
      }
      Update();
    }

    /** `stream_close`: what was not sent or read is dropped. */
    method Close()
      requires Valid()
      modifies this`isOpen, this`notify, input, output
      ensures Valid() && !isOpen
      ensures old(isOpen) ==> input.Contents() == [] && output.Contents() == [] && !notify
      ensures !old(isOpen) ==> unchanged(this) && unchanged(input) && unchanged(output)
    {
      if !isOpen {
        return;
      }
      notify, isOpen := false, false;
      input.Clear();
      output.Clear();
    }

    /** `read(2)`: some of the available bytes, at most one block; -1 when it would block. */
    method KernelRead(available: seq<byte>) returns (n: int)
      modifies this`exhausted
      ensures exhausted <==> n != RECEIVE_SIZE
      ensures n == -1 || (0 <= n <= |available| && n <= RECEIVE_SIZE)
    {
      n :| n == -1 || (0 <= n <= |available| && n <= RECEIVE_SIZE);
      exhausted := n != RECEIVE_SIZE;
    }

    /** `stream_socket_read`: block by block, and only until a read comes back short or would block. */
    method SocketRead(incoming: seq<byte>) returns (total: nat)
      requires Valid() && input.size + |incoming| + RECEIVE_SIZE <= WORD / 2
      modifies this`exhausted, input, input.data
      ensures Valid() && total <= |incoming| && exhausted
      ensures input.Contents() == old(input.Contents()) + incoming[..total]
      ensures input.data == old(input.data) || fresh(input.data)
    {
      ghost var c := input.Contents();
      total, exhausted := 0, false;
      assert c + incoming[..0] == c;
      while true
        invariant Valid() && total <= |incoming| && input.size == |c| + total && !exhausted
        invariant input.Contents() == c + incoming[..total]
        invariant input.data == old(input.data) || fresh(input.data)
        decreases |incoming| - total
      {
        input.Reserve(input.size + RECEIVE_SIZE);
        var n := KernelRead(incoming[total..]);
        if n == -1 {
          break;
        }
        Receive(incoming[total..][..n]);
        Taken(c, incoming, total, n);
        total := total + n;
        if n != RECEIVE_SIZE {
          break;
        }
      }
    }

    /** The bytes `read(2)` puts behind the buffer's contents. */
    method Receive(bytes: seq<byte>)
      requires Valid() && input.size + |bytes| <= input.Capacity()
      modifies input, input.data
      ensures Valid() && input.data == old(input.data)
      ensures input.Contents() == old(input.Contents()) + bytes
    {
      ghost var c := input.Contents();
      Copy(input.data, input.size, bytes);
      input.size := input.size + |bytes|;
      assert input.data[..input.size] == c + bytes;
    }

    /** `stream_socket_callback`. */
    method Callback(event: SocketEvent) returns (dispatched: Dispatched)
      requires Valid() && Conserved() && isOpen
      requires event.Readable? ==> input.size + |event.incoming| + RECEIVE_SIZE <= WORD / 2
      modifies this`accepted, this`refused, this`exhausted, this`interest, this`notify,
               input, input.data, output, output.data
      ensures Valid() && Conserved()
      ensures event.Readable? ==> exhausted
      ensures event == Writable ==> output.Contents() == [] || refused
      ensures event.Readable? ==>
                && dispatched == (if |input.Contents()| > |old(input.Contents())| then StreamRead else Nothing)
                && old(input.Contents()) <= input.Contents() <= old(input.Contents()) + event.incoming
                && output.Contents() == old(output.Contents())
      ensures event == Writable ==>
                && InterestExact() && input.Contents() == old(input.Contents())
                && exists taken: nat :: taken <= |old(output.Contents())|
                     && accepted == old(accepted) + old(output.Contents())[..taken]
                     && AfterWritable(old(output.Contents()), old(notify), taken) ==
                        Written(output.Contents(), notify, dispatched)
      ensures event == Writable ==> notify == (old(notify) && dispatched == Nothing)
      ensures event == Writable ==> (dispatched == StreamWrite <==> output.Contents() == [] || old(notify))
      ensures event == Hangup ==>
                && dispatched == StreamClose
                && input.Contents() == old(input.Contents()) && output.Contents() == old(output.Contents())
      ensures event != Writable ==> interest == old(interest) && notify == old(notify)
    {
      dispatched := Nothing;
      match event {
        case Readable(incoming) =>
          var n := SocketRead(incoming);
          assert incoming[..n] <= incoming;
          if n != 0 {
            dispatched := StreamRead;
          }
        case Writable =>
          SocketWrite();
          assert output.size == |output.Contents()|;
          if output.size == 0 || notify {
            notify := false;
            dispatched := StreamWrite;
          }
          Update();
        case Hangup =>
          dispatched := StreamClose;
      }
    }
  }
}
