/**
 One HTTP connection of the server: a reference-counted object driven by read events and by the
 answers of the application, which may come from inside the handler or at any later time.

 The stream is represented by the contents of its two buffers. The application's handler is
 arbitrary: it is a nondeterministic sequence of calls to the public operations. Ghost fields keep
 the history: what was received, which heads were dispatched, which responses were written, and how
 many references were handed out and came back.
 */
module Server {
  import opened Bytes
  import opened HttpSyntax
  import opened HttpMessages
  import opened Carving
  import Streams

  datatype State = NeedMoreData | Read | Handling | Closed

  /** What the stream of the connection reports. */
  datatype StreamEvent = StreamRead(bytes: seq<byte>) | StreamWrite | StreamClose

  /** "400 Bad Request" */
  const BAD_REQUEST: seq<byte> := [52, 48, 48, 32, 66, 97, 100, 32, 82, 101, 113, 117, 101, 115, 116]

  /** The dispatched heads are those the parser cuts from the stream, each was handed out once, and a
      refusal means that the parser rejects the rest. */
  ghost predicate Recorded(received: seq<byte>, heads: seq<Found>, consumed: nat, handed: nat, refused: bool) {
    && consumed <= |received| && Carved(received, heads, consumed)
    && handed == |heads| + (if refused then 1 else 0)
    && (refused ==> Request(received[consumed..], FIELDS_MAX).Bad?)
  }

  lemma RecordedNext(received: seq<byte>, heads: seq<Found>, consumed: nat, handed: nat)
    requires Recorded(received, heads, consumed, handed, false)
    requires consumed <= |received| && Request(received[consumed..], FIELDS_MAX).Ok?
    ensures var r := Request(received[consumed..], FIELDS_MAX);
            && 0 < r.pos <= |received| - consumed
            && Recorded(received, heads + [Found(consumed, r.value)], consumed + r.pos, handed + 1, false)
  {
    hide Request, Carved;
    CarvedNext(received, heads, consumed);
  }

  lemma RecordedRefusal(received: seq<byte>, heads: seq<Found>, consumed: nat, handed: nat)
    requires Recorded(received, heads, consumed, handed, false)
    requires consumed <= |received| && Request(received[consumed..], FIELDS_MAX).Bad?
    ensures Recorded(received, heads, consumed, handed + 1, true)
  {
    hide Request, Carved;
  }

  class ServerRequest {
    var ref: nat
    var state: State
    var eventTriggered: bool
    var input: seq<byte>
    var output: seq<byte>
    var data: seq<byte>
    var isOpen: bool
    var writeInterest: bool
    var freed: bool

    // The application's own account: dispatched requests it has not answered yet, and holds it took.
    var open: nat
    var holds: nat

    // Answers in progress, each of which keeps its request's reference until it returns.
    ghost var answering: nat

    // The ledger: references to requests handed to the application and given back by it, and holds it
    // took and gave back.
    ghost var handed: nat
    ghost var handedBack: nat
    ghost var taken: nat
    ghost var given: nat

    ghost var received: seq<byte>
    ghost var consumed: nat
    ghost var heads: seq<Found>
    ghost var responses: seq<seq<byte>>
    ghost var accepted: seq<byte>

    // Why a connection was closed: the parser rejected the input, or the application closed it or the
    // stream reported a write or a hang-up.
    ghost var refused: bool
    ghost var dropped: bool

    // How many of the dispatched heads the application's handler was called with.
    ghost var called: nat

    // Whether the descriptor refused the last bytes offered to it.
    ghost var blocked: bool

    /** Who must be holding a reference, given the rest of the state. */
    ghost function Holders(): nat
      reads this
    {
      (if state != Closed then 1 else 0) + open + answering + holds + (if eventTriggered then 1 else 0)
    }

    /** The reference count is exactly the number of holders, the application's account is what the
        ledger says, and the object is freed exactly when there are no holders. */
    ghost predicate Counted()
      reads this
    {
      && ref == Holders() && (freed <==> ref == 0) && (isOpen <==> state != Closed)
      && handed == handedBack + open && taken == given + holds
    }

    /** In every state, also after the connection was closed: what was dispatched, and that what went
        out is the start of the responses in order. */
    ghost predicate History()
      reads this
    {
      Recorded(received, heads, consumed, handed, refused) && accepted <= Concat(responses)
    }

    /** While the connection is open: the output carries the responses that are not out yet, what is not
        consumed is in the input. */
    ghost predicate Pipelined()
      reads this
    {
      && consumed <= |received| && accepted + output == Concat(responses)
      && (if state == Handling then open <= 1 && |heads| == |responses| + 1 else open == 0 && |heads| == |responses|)
      && (if eventTriggered
          then data == received[consumed..] && |data| <= |input| <= |received|
               && input == received[|received| - |input|..]
          else input == received[consumed..])
    }

    /** What every step keeps. A connection is closed for one of the two reasons and for no other. */
    ghost predicate Sound()
      reads this
    {
      && Counted() && History() && (state == Closed <==> refused || dropped)
      && (state != Closed ==> Pipelined())
    }

    /** Write interest is registered exactly while output remains, and output remains only where the
        descriptor refused it. */
    ghost predicate Flushed()
      reads this
    {
      (writeInterest <==> output != []) && (output != [] ==> blocked)
    }

    /** What becomes of the input `pending` of a connection that waits for data, given the state before:
        a complete head is handed out, a malformed one refused, and an incomplete one left where it is
        with nothing else changed. */
    ghost predicate Resumed(pending: seq<byte>, left: seq<byte>, at: nat, before: seq<Found>, sent: seq<seq<byte>>)
      reads this
    {
      match Request(pending, FIELDS_MAX)
      case Ok(_, head) => before + [Found(at, head)] <= heads
      case More => state == NeedMoreData && left == pending && heads == before && responses == sent
      case Bad =>
        && refused && heads == before && |responses| == |sent| + 1
        && (accepted == Concat(responses) || blocked)
    }

    /** Nothing is being worked on: a connection that is not waiting for an answer has no complete head
        left in its input, and write interest is registered exactly while output remains. */
    ghost predicate Idle()
      reads this
    {
      && state != Read && Flushed()
      && (state == NeedMoreData ==> Request(input, FIELDS_MAX).More?)
    }

    /** Between events no update and no answer is in progress. */
    ghost predicate Settled()
      reads this
    {
      Sound() && !eventTriggered && answering == 0 && called == |heads| && (state != Closed ==> Idle())
    }

    /** `server_socket_accept`. */
    constructor ()
      ensures Settled() && !freed && state == NeedMoreData
      ensures received == [] && heads == [] && responses == [] && handed == 0 && taken == 0
    {
      ref, state, eventTriggered, freed := 1, NeedMoreData, false, false;
      input, output, data, isOpen, writeInterest := [], [], [], true, false;
      open, answering, holds := 0, 0, 0;
      handed, handedBack, taken, given := 0, 0, 0, 0;
      received, consumed, heads, responses, accepted := [], 0, [], [], [];
      refused, dropped, blocked, called := false, false, false, 0;
      new;
      RequestEnds([]);
    }

    /** `server_hold`. */
    method Hold()
      requires !freed
      modifies this`ref
      ensures ref == old(ref) + 1
    {
      ref := ref + 1;
    }

    /** `server_release`: the caller has just given up one holder. The last reference frees the object. */
    method Release()
      requires !freed && ref == Holders() + 1
      modifies this`ref, this`freed, this`input, this`output, this`isOpen
      ensures ref == Holders() && (freed <==> ref == 0)
      ensures ref > 0 ==> input == old(input) && output == old(output) && isOpen == old(isOpen)
      ensures ref == 0 ==> !isOpen
    {
      ref := ref - 1;
      if ref > 0 {
        return;
      }
      input, output, isOpen := [], [], false;
      freed := true;
    }

    /** `stream_flush`: the descriptor takes the output, or some of it before it would block, and the
        interest follows. */
    method Flush()
      requires !freed && isOpen && accepted + output == Concat(responses)
      modifies this`output, this`accepted, this`writeInterest, this`blocked
      ensures accepted + output == Concat(responses) && accepted <= Concat(responses)
      ensures Flushed() && (accepted == Concat(responses) || blocked)
      ensures old(Sound()) ==> Sound()
    {
      hide Request, Recorded, Concat;
      var n := KernelWrite();
      Send(n);
      writeInterest := output != [];
    }

    /** How much of the output the descriptor takes before it refuses. */
    method KernelWrite() returns (n: nat)
      modifies this`blocked
      ensures n <= |output| && (blocked <==> n < |output|)
    {
      n :| n <= |output|;
      blocked := n < |output|;
    }

    /** The descriptor takes the first `n` bytes of the output. */
    method Send(n: nat)
      requires n <= |output| && accepted + output == Concat(responses)
      modifies this`output, this`accepted
      ensures accepted == old(accepted) + old(output)[..n] && output == old(output)[n..]
      ensures accepted + output == Concat(responses) && accepted <= Concat(responses)
    {
      hide Concat;
      assert accepted + output == accepted + output[..n] + output[n..];
      accepted, output := accepted + output[..n], output[n..];
      Prefix(accepted, output);
    }

    /** `http_write_response` into the output. */
    method WriteResponse(status: seq<byte>, date: Date, type_: seq<byte>, body: seq<byte>)
      requires !freed && accepted + output == Concat(responses)
      modifies this`output, this`responses
      ensures responses == old(responses) + [ResponseBytes(status, date, type_, body)]
      ensures accepted + output == Concat(responses) && accepted <= Concat(responses)
    {
      hide Concat, ResponseBytes;
      var message := ResponseBytes(status, date, type_, body);
      ConcatAppend(responses, message);
      assert accepted + (output + message) == accepted + output + message;
      output := output + message;
      responses := responses + [message];
      Prefix(accepted, output);
    }

    /** `server_close`. */
    method Close()
      requires !freed && Counted() && History() && (refused || dropped)
      modifies this`ref, this`state, this`freed, this`input, this`output, this`isOpen
      ensures Sound() && state == Closed && (eventTriggered || answering > 0 ==> !freed)
      ensures old(state) == Closed ==> unchanged(this)
    {
      hide Request, Recorded, Concat;
      if state != Closed {
        input, output, isOpen := [], [], false;
        state := Closed;
        Release();
      }
    }

    /** `server_close` by the application. */
    method UserClose()
      requires !freed && Sound()
      modifies this`ref, this`state, this`freed, this`input, this`output, this`isOpen, this`dropped
      ensures Sound() && state == Closed && (eventTriggered || answering > 0 ==> !freed)
      ensures dropped == (old(dropped) || old(state) != Closed)
    {
      hide Request, Recorded, Concat, ServerRequest.Counted;
      if state != Closed {
        Drop();
        Close();
      }
    }

    /** The reason for closing is noted. */
    method Drop()
      modifies this`dropped
      ensures dropped
      ensures old(Counted()) ==> Counted()
      ensures old(History()) ==> History()
    {
      dropped := true;
    }

    /** `server_bad_request` by the application. */
    method UserBadRequest(transaction: bool, date: Date)
      requires !freed && Sound() && (if transaction then open > 0 else holds > 0)
      modifies this`ref, this`state, this`freed, this`input, this`output, this`isOpen, this`writeInterest,
               this`open, this`holds, this`handedBack, this`given, this`answering, this`responses,
               this`accepted, this`blocked, this`dropped
      ensures Sound() && state == Closed && answering == old(answering) && (eventTriggered ==> !freed)
      ensures dropped == (old(dropped) || old(state) != Closed)
      ensures open == old(open) - (if transaction then 1 else 0)
      ensures holds == old(holds) - (if transaction then 0 else 1)
      ensures responses == if old(state) == Closed then old(responses)
                           else old(responses) + [ResponseBytes(BAD_REQUEST, date, [], [])]
      ensures old(state) != Closed ==> accepted == Concat(responses) || blocked
    {
      hide Request, Recorded, Concat, ResponseBytes, ServerRequest.Counted;
      if state != Closed {
        Drop();
      }
      BadRequest(transaction, date);
    }

    /** A hold taken by the application. */
    method UserHold()
      requires !freed && Sound()
      modifies this`ref, this`holds, this`taken
      ensures !freed && Sound() && holds == old(holds) + 1 && taken == old(taken) + 1
    {
      hide Request, Recorded, Concat;
      Hold();
      holds, taken := holds + 1, taken + 1;
    }

    /** The application gives a reference back, which an answer in progress takes over. */
    method Begin(transaction: bool)
      requires !freed && Counted() && (if transaction then open > 0 else holds > 0)
      modifies this`open, this`holds, this`handedBack, this`given, this`answering
      ensures Counted() && answering == old(answering) + 1
      ensures open == old(open) - (if transaction then 1 else 0) && open + handedBack == old(open + handedBack)
      ensures holds == old(holds) - (if transaction then 0 else 1)
      ensures old(Sound()) ==> Sound() && (transaction && state == Handling ==> open == 0)
    {
      hide Request, Recorded, Concat;
      if transaction {
        open, handedBack := open - 1, handedBack + 1;
      } else {
        holds, given := holds - 1, given + 1;
      }
      answering := answering + 1;
    }

    /** The end of an answer: `server_release` of the reference it was given. */
    method End()
      requires !freed && Sound() && answering > 0
      modifies this`ref, this`answering, this`freed, this`input, this`output, this`isOpen
      ensures Sound() && answering == old(answering) - 1
      ensures state != Closed || eventTriggered ==> !freed
      ensures state != Closed ==> input == old(input) && output == old(output)
      ensures state != Closed && old(Idle()) ==> Idle()
    {
      hide Request, Recorded, Concat;
      answering := answering - 1;
      Release();
    }

    /** `server_release` by the application: of an own hold, or of a dispatched request that it will
        not answer. */
    method UserRelease(transaction: bool)
      requires !freed && Sound() && (if transaction then open > 0 else holds > 0)
      modifies this`ref, this`holds, this`open, this`handedBack, this`given, this`answering,
               this`freed, this`input, this`output, this`isOpen
      ensures Sound() && answering == old(answering)
      ensures open == old(open) - (if transaction then 1 else 0)
      ensures holds == old(holds) - (if transaction then 0 else 1)
      ensures state != Closed || eventTriggered ==> !freed
      ensures state != Closed ==> input == old(input) && output == old(output)
    {
      hide Request, Recorded, Concat, ServerRequest.Counted, ServerRequest.History;
      Begin(transaction);
      End();
    }

    /** `server_respond`, answering a dispatched request (or, once the connection is closed, dropping
        any other reference). Outside of an update, it goes on with the input that is already there. */
    method Respond(transaction: bool, status: seq<byte>, date: Date, type_: seq<byte>, body: seq<byte>)
      requires !freed && Sound()
      requires if transaction then open > 0 else holds > 0 && state == Closed
      requires state != Closed ==> state == Handling
      modifies this
      ensures Sound() && answering == old(answering) && eventTriggered == old(eventTriggered)
      ensures received == old(received) && (eventTriggered ==> !freed)
      ensures old(state) == Closed ==> state == Closed && responses == old(responses) && dropped == old(dropped)
      ensures old(state) == Closed || eventTriggered ==>
                && open == old(open) - (if transaction then 1 else 0)
                && holds == old(holds) - (if transaction then 0 else 1)
                && data == old(data) && consumed == old(consumed) && heads == old(heads)
                && handed == old(handed) && taken == old(taken) && called == old(called)
      ensures called - |heads| == old(called - |heads|)
      ensures old(state) != Closed ==>
                && handedBack > old(handedBack) && old(heads) <= heads
                && old(responses) + [ResponseBytes(status, date, type_, body)] <= responses
      ensures eventTriggered && old(state) != Closed ==>
                state == Read && responses == old(responses) + [ResponseBytes(status, date, type_, body)]
      ensures !eventTriggered && state != Closed ==> Idle()
      ensures !eventTriggered && old(state) != Closed ==>
                && open <= 1
                && Resumed(old(input), input, old(consumed), old(heads),
                           old(responses) + [ResponseBytes(status, date, type_, body)])
      decreases if eventTriggered then 0 else 1, 2
    {
      hide Request, Recorded, Concat, ResponseBytes, ServerRequest.Counted, ServerRequest.History,
           ServerRequest.Pipelined, ServerRequest.Idle, ServerRequest.Flushed;
      Begin(transaction);
      if state != Closed {
        Answer(status, date, type_, body);
        if !eventTriggered {
          Flush();
          Update();
        }
      }
      End();
    }

    /** The response goes to the output, and the next state is chosen. */
    method Answer(status: seq<byte>, date: Date, type_: seq<byte>, body: seq<byte>)
      requires !freed && Sound() && state == Handling
      modifies this`output, this`responses, this`state
      ensures responses == old(responses) + [ResponseBytes(status, date, type_, body)]
      ensures !freed && isOpen && state == if eventTriggered then Read else NeedMoreData
      ensures accepted + output == Concat(responses) && (open == 0 ==> Sound())
    {
      hide Request, Recorded, Concat, ResponseBytes;
      WriteResponse(status, date, type_, body);
      state := if eventTriggered then Read else NeedMoreData;
    }

    /** `server_bad_request`: answers with 400 and closes. */
    method BadRequest(transaction: bool, date: Date)
      requires !freed && Counted() && History() && (if transaction then open > 0 else holds > 0)
      requires (refused || dropped) && (state != Closed ==> accepted + output == Concat(responses))
      modifies this`ref, this`state, this`freed, this`input, this`output, this`isOpen, this`writeInterest,
               this`open, this`holds, this`handedBack, this`given, this`answering, this`responses,
               this`accepted, this`blocked
      ensures Sound() && state == Closed && answering == old(answering) && (eventTriggered ==> !freed)
      ensures open == old(open) - (if transaction then 1 else 0)
      ensures holds == old(holds) - (if transaction then 0 else 1)
      ensures responses == if old(state) == Closed then old(responses)
                           else old(responses) + [ResponseBytes(BAD_REQUEST, date, [], [])]
      ensures old(state) != Closed ==> accepted == Concat(responses) || blocked
    {
      hide Request, Recorded, Concat, ResponseBytes, ServerRequest.Counted, ServerRequest.Pipelined;
      Begin(transaction);
      if state != Closed {
        SendBadRequest(date);
      }
      End();
    }

    /** What `server_bad_request` does while the connection is open. */
    method SendBadRequest(date: Date)
      requires !freed && Counted() && History() && answering > 0 && state != Closed
      requires (refused || dropped) && accepted + output == Concat(responses)
      modifies this`ref, this`state, this`freed, this`input, this`output, this`isOpen, this`writeInterest,
               this`responses, this`accepted, this`blocked
      ensures !freed && Sound() && state == Closed
      ensures responses == old(responses) + [ResponseBytes(BAD_REQUEST, date, [], [])]
      ensures accepted == Concat(responses) || blocked
    {
      hide Request, Recorded, Concat, ResponseBytes;
      WriteResponse(BAD_REQUEST, date, [], []);
      Flush();
      Close();
    }

    /** The application's handler, called with a fresh request: any number of calls, in any order, in
        which every reference is given up at most once. Returning without an answer defers it. */
    method Handle()
      requires !freed && Sound() && eventTriggered && state == Handling && open == 1
      modifies this
      ensures !freed && Sound() && eventTriggered && answering == old(answering)
      ensures received == old(received) && data == old(data) && consumed == old(consumed) && heads == old(heads)
      ensures state in {Handling, Read, Closed} && old(responses) <= responses
      ensures handed == old(handed) && open <= 1 && open + handedBack == 1 + old(handedBack)
      ensures called == old(called) + 1
      decreases if eventTriggered then 0 else 1, 3, 1
    {
      hide Request, Recorded, Concat, ResponseBytes, ServerRequest.History, ServerRequest.Pipelined;
      NoteCall();
      var calls: nat := *;
      while calls > 0
        invariant called == old(called) + 1
        invariant !freed && Sound() && eventTriggered && answering == old(answering)
        invariant received == old(received) && data == old(data) && consumed == old(consumed) && heads == old(heads)
        invariant state in {Handling, Read, Closed} && old(responses) <= responses
        invariant handed == old(handed) && open <= 1
      {
        Call();
        calls := calls - 1;
      }
    }

    /** The handler is called. */
    method NoteCall()
      modifies this`called
      ensures called == old(called) + 1
      ensures old(Sound()) ==> Sound()
    {
      called := called + 1;
    }

    /** One operation of the handler. */
    method Call()
      requires !freed && Sound() && eventTriggered && state in {Handling, Read, Closed}
      modifies this
      ensures !freed && Sound() && eventTriggered && answering == old(answering)
      ensures received == old(received) && data == old(data) && consumed == old(consumed) && heads == old(heads)
      ensures state in {Handling, Read, Closed} && old(responses) <= responses
      ensures handed == old(handed) && open <= old(open) && called == old(called)
      decreases if eventTriggered then 0 else 1, 3, 0
    {
      hide Request, Recorded, Concat, ResponseBytes, ServerRequest.Counted, ServerRequest.History;
      var status: seq<byte>, type_: seq<byte>, body: seq<byte> := *, *, *;
      var date: Date := *;
      if {
        case open > 0 =>
          Respond(true, status, date, type_, body);
        case open > 0 =>
          UserBadRequest(true, date);
        case state == Closed && holds > 0 =>
          Respond(false, status, date, type_, body);
        case holds > 0 =>
          UserBadRequest(false, date);
        case open > 0 =>
          UserRelease(true);
        case holds > 0 =>
          UserRelease(false);
        case true =>
          UserHold();
        case true =>
          UserClose();
        case true =>
      }
    }

    /** `server_request_read`: one attempt to read a request head from the rest of the data. */
    method ReadRequest(date: Date)
      requires !freed && Sound() && eventTriggered && state == Read
      modifies this
      ensures !freed && Sound() && eventTriggered && answering == old(answering)
      ensures received == old(received) && handedBack >= old(handedBack) && open <= 1
      ensures old(heads) <= heads && old(responses) <= responses
      ensures state == Read ==> |data| < |old(data)|
      ensures state == NeedMoreData ==> Request(data, FIELDS_MAX).More?
      ensures Resumed(old(data), data, old(consumed), old(heads), old(responses))
      ensures !Request(old(data), FIELDS_MAX).Ok? ==> dropped == old(dropped) && heads == old(heads)
      ensures Request(old(data), FIELDS_MAX).Ok? ==>
                heads == old(heads) + [Found(old(consumed), Request(old(data), FIELDS_MAX).value)]
      ensures Request(old(data), FIELDS_MAX).Bad? ==>
                && refused && state == Closed && open == 0 && holds == old(holds)
                && responses == old(responses) + [ResponseBytes(BAD_REQUEST, date, [], [])]
                && (accepted == Concat(responses) || blocked)
      ensures called == old(called) + |heads| - |old(heads)|
      decreases if eventTriggered then 0 else 1, 4
    {
      hide Request, Recorded, Concat, ResponseBytes;
      RequestEnds([]);
      if |data| == 0 {
        state := NeedMoreData;
        return;
      }
      match Request(data, FIELDS_MAX) {
        case More =>
          state := NeedMoreData;
        case Bad =>
          Refuse(date);
        case Ok(n, head) =>
          Dispatch(n, head);
          Handle();
      }
    }

    /** A request is held for whoever answers it. */
    method HandOut()
      requires !freed && Counted() && state != Closed
      modifies this`state, this`ref, this`open, this`handed
      ensures !freed && Counted() && state == Handling
      ensures open == old(open) + 1 && handed == old(handed) + 1
    {
      state := Handling;
      Hold();
      open, handed := open + 1, handed + 1;
    }

    /** The branch of `server_request_read` for a malformed head. */
    method Refuse(date: Date)
      requires !freed && Sound() && eventTriggered && state == Read && Request(data, FIELDS_MAX).Bad?
      modifies this
      ensures !freed && Sound() && eventTriggered && answering == old(answering)
      ensures received == old(received) && heads == old(heads) && handedBack >= old(handedBack)
      ensures refused && state == Closed && open == 0 && holds == old(holds) && dropped == old(dropped)
      ensures responses == old(responses) + [ResponseBytes(BAD_REQUEST, date, [], [])]
      ensures (accepted == Concat(responses) || blocked) && called == old(called)
    {
      hide Request, Recorded, Concat, ResponseBytes;
      RecordedRefusal(received, heads, consumed, handed);
      HandOut();
      refused := true;
      BadRequest(true, date);
    }

    /** The branch of `server_request_read` for a complete head, up to the call of the handler: the head
        is consumed and handed to the application. */
    method Dispatch(n: nat, head: RequestHead)
      requires !freed && Sound() && eventTriggered && state == Read
      requires Request(data, FIELDS_MAX) == Ok(n, head)
      modifies this`ref, this`state, this`open, this`handed, this`heads, this`consumed, this`data
      ensures !freed && Sound() && state == Handling && open == 1 && handed == old(handed) + 1
      ensures heads == old(heads) + [Found(old(consumed), head)] && consumed == old(consumed) + n
      ensures data == old(data)[n..] && |data| < |old(data)|
    {
      hide Request, Recorded, Concat;
      RecordedNext(received, heads, consumed, handed);
      SuffixOfSuffix(received, consumed, n);
      HandOut();
      heads, consumed, data := heads + [Found(consumed, head)], consumed + n, data[n..];
    }

    lemma AtMostOneOpen()
      requires Sound()
      ensures state != Closed ==> open <= 1
    {
    }

    /** `server_request_update`. */
    method Update()
      requires !freed && Sound() && !eventTriggered
      requires state != Closed ==> state != Read && Flushed()
      modifies this
      ensures Sound() && !eventTriggered && answering == old(answering) && (answering > 0 ==> !freed)
      ensures received == old(received) && handedBack >= old(handedBack)
      ensures old(heads) <= heads && old(responses) <= responses
      ensures called - |heads| == old(called - |heads|)
      ensures state != Closed ==> Idle()
      ensures if old(state) == NeedMoreData
              then open <= 1 && Resumed(old(input), input, old(consumed), old(heads), old(responses))
              else unchanged(this)
      decreases if eventTriggered then 0 else 1, 1
    {
      hide Request, Recorded, Concat, ResponseBytes, ServerRequest.Counted, ServerRequest.History,
           ServerRequest.Pipelined;
      RequestEnds([]);
      AtMostOneOpen();
      if state != NeedMoreData || |input| == 0 {
        return;
      }
      StartUpdate();
      while state == Read
        invariant !freed && Sound() && eventTriggered && answering == old(answering)
        invariant received == old(received) && handedBack >= old(handedBack) && open <= 1
        invariant old(heads) <= heads && old(responses) <= responses
        invariant state == NeedMoreData ==> Request(data, FIELDS_MAX).More?
        invariant called - |heads| == old(called - |heads|)
        invariant || Resumed(old(input), data, old(consumed), old(heads), old(responses))
                  || (&& state == Read && data == old(input) && consumed == old(consumed)
                      && heads == old(heads) && responses == old(responses))
        decreases if state == Read then 1 + |data| else 0
      {
        var date: Date := *;
        ReadRequest(date);
      }
      EndUpdate();
    }

    /** What `server_request_update` does before its loop. */
    method StartUpdate()
      requires !freed && Sound() && !eventTriggered && state == NeedMoreData
      modifies this`ref, this`eventTriggered, this`data, this`state
      ensures !freed && Sound() && eventTriggered && state == Read && data == input && open == 0
    {
      hide Request, Recorded, Concat;
      Hold();
      eventTriggered := true;
      data := input;
      state := Read;
    }

    /** What `server_request_update` does after its loop. */
    method EndUpdate()
      requires !freed && Sound() && eventTriggered && state != Read
      modifies this`ref, this`eventTriggered, this`input, this`output, this`accepted, this`writeInterest,
               this`freed, this`isOpen, this`blocked
      ensures Sound() && !eventTriggered && (answering > 0 ==> !freed)
      ensures state != Closed ==> input == old(data) && Flushed()
      ensures state == Closed ==> accepted == old(accepted) && blocked == old(blocked)
    {
      hide Request, Recorded, Concat;
      if state != Closed {
        input := input[|input| - |data|..];
        Flush();
      }
      eventTriggered := false;
      Release();
    }

    /** `server_request_callback`. Only a read event keeps the connection: a write event takes the
        default branch and closes it, just like a hang-up. */
    method Callback(event: StreamEvent)
      requires !freed && Settled() && isOpen
      modifies this
      ensures Settled()
      ensures received == if event.StreamRead? then old(received) + event.bytes else old(received)
      ensures old(heads) <= heads && old(responses) <= responses
      ensures state != Closed ==> event.StreamRead?
      ensures event.StreamRead? && old(state) == NeedMoreData ==>
                Resumed(old(input) + event.bytes, input, old(consumed), old(heads), old(responses))
      ensures event.StreamRead? && old(state) == Handling ==>
                && state == Handling && input == old(input) + event.bytes && output == old(output)
                && heads == old(heads) && responses == old(responses) && open == old(open)
      ensures !event.StreamRead? ==>
                && state == Closed && dropped && accepted == old(accepted)
                && responses == old(responses) && heads == old(heads)
    {
      hide Request, Carved, Concat, ResponseBytes;
      match event {
        case StreamRead(bytes) =>
          CarvedStable(received, received + bytes, heads, consumed);
          received := received + bytes;
          input := input + bytes;
          Update();
        case StreamWrite =>
          Drop();
          Close();
        case StreamClose =>
          Drop();
          Close();
      }
    }

    /** A writable event of the descriptor, which takes `n` more bytes of the output: what the stream
        does with it (the server never asks for a notification), and what the server does if the
        stream reports it. The connection is closed if and only if the event empties the output. */
    method Writable(n: nat)
      requires !freed && Settled() && isOpen && n <= |output|
      modifies this
      ensures Settled()
      ensures state == Closed <==> n == |old(output)|
      ensures accepted == old(accepted) + old(output)[..n]
      ensures state != Closed ==> output == old(output)[n..] && writeInterest
      ensures responses == old(responses) && heads == old(heads) && received == old(received)
    {
      hide Request, Carved, Concat;
      var after := Streams.AfterWritable(output, false, n);
      Send(n);
      blocked := output != [];
      writeInterest := output != [] || after.notify;
      if after.dispatched == Streams.StreamWrite {
        Callback(StreamWrite);
      }
    }
  }

  function Sum(ns: seq<nat>): nat {
    if ns == [] then 0 else ns[0] + Sum(ns[1..])
  }

  /** A client whose responses did not fit into the socket buffer at once: write interest is on, and
      however the rest is taken, in writable events of `takes` bytes, the connection is closed by the
      event that takes the last byte, and by no earlier one. */
  method SlowClient(r: ServerRequest, takes: seq<nat>)
    requires !r.freed && r.Settled() && r.isOpen && r.output != [] && Sum(takes) <= |r.output|
    modifies r
    ensures old(r.writeInterest) && r.Settled()
    ensures r.state == Closed <==> Sum(takes) == |old(r.output)|
    ensures r.state == Closed ==> r.accepted == Concat(r.responses) && r.responses == old(r.responses)
    ensures r.state != Closed ==> r.output == old(r.output)[Sum(takes)..] && r.writeInterest
  {
    hide Request, Carved, Concat;
    var i := 0;
    ghost var output, sent: nat := r.output, 0;
    assert output == output[0..];
    while i < |takes| && r.isOpen
      invariant i <= |takes| && r.Settled() && r.responses == old(r.responses) && !old(r.freed)
      invariant sent + Sum(takes[i..]) == Sum(takes) && sent <= |output|
      invariant r.state == Closed <==> sent == |output|
      invariant r.state == Closed ==> r.accepted == Concat(r.responses)
      invariant r.state != Closed ==> r.output == output[sent..] && r.writeInterest
      invariant r.state != Closed ==> !r.freed
    {
      assert takes[i..][0] == takes[i] && takes[i..][1..] == takes[i + 1..];
      SuffixOfSuffix(output, sent, takes[i]);
      r.Writable(takes[i]);
      sent, i := sent + takes[i], i + 1;
    }
  }

  /** What holds of every connection between events, whatever happened before, closed or not: the
      dispatched heads are the first heads of every stream that starts with the received bytes; what
      went out is the start of the responses in order; and a refusal means that there was nothing else
      to dispatch. While it is open, consumed bytes and input make up what was received, the dispatched
      heads are all that the received bytes hold once it waits for data, and at most one is unanswered. */
  lemma SettledIsPipelined(r: ServerRequest, stream: seq<byte>)
    requires r.Settled() && r.received <= stream
    ensures r.heads <= Carve(stream, 0)
    ensures r.accepted <= Concat(r.responses)
    ensures r.refused ==> r.heads == Carve(stream, 0)
    ensures r.state == Closed <==> r.refused || r.dropped
    ensures r.state == NeedMoreData ==> r.heads == Carve(r.received, 0) && |r.responses| == |r.heads|
    ensures r.state == Handling ==> |r.responses| == |r.heads| - 1 && r.open <= 1
    ensures r.state != Closed ==>
              && r.consumed <= |r.received| && r.received[..r.consumed] + r.input == r.received
              && r.accepted + r.output == Concat(r.responses)
    ensures r.handed == |r.heads| + (if r.refused then 1 else 0)
  {
    hide Request, Carved;
    CarvedFromWholeStream(r.received, stream, r.heads, r.consumed);
  }

  /** Any run of a connection: bytes arrive in any portions, the descriptor takes output in any
      portions or hangs up, and the application answers, holds, releases and closes at any time. The
      object is freed exactly when the connection is closed and every request handed out and every hold
      taken has come back; nothing touches it after. */
  method Session() returns (r: ServerRequest)
    ensures r.Settled()
    ensures r.freed <==> r.state == Closed && r.handedBack == r.handed && r.given == r.taken
  {
    hide Recorded, Request, Carved, Concat, ResponseBytes;
    r := new ServerRequest();
    var steps: nat := *;
    while steps > 0 && !r.freed
      invariant fresh(r) && r.Settled()
    {
      Event(r);
      steps := steps - 1;
    }
  }

  /** Anything that may happen to a connection between two moments. */
  method Event(r: ServerRequest)
    requires !r.freed && r.Settled()
    modifies r
    ensures r.Settled()
  {
    hide Recorded, Request, Carved, Concat, ResponseBytes, ServerRequest.History, ServerRequest.Resumed;
    var status: seq<byte>, type_: seq<byte>, body: seq<byte> := *, *, *;
    var date: Date := *;
    if {
      case r.isOpen =>
        r.Callback(StreamRead(body));
      case r.isOpen =>
        var n: nat :| n <= |r.output|;
        r.Writable(n);
      case r.isOpen =>
        r.Callback(StreamClose);
      case r.open > 0 =>
        r.Respond(true, status, date, type_, body);
      case r.state == Closed && r.holds > 0 =>
        r.Respond(false, status, date, type_, body);
      case r.open > 0 =>
        r.UserBadRequest(true, date);
      case r.holds > 0 =>
        r.UserBadRequest(false, date);
      case r.open > 0 =>
        r.UserRelease(true);
      case r.holds > 0 =>
        r.UserRelease(false);
      case true =>
        r.UserHold();
      case true =>
        r.UserClose();
    }
  }

  lemma Prefix(a: seq<byte>, b: seq<byte>)
    ensures a <= a + b
  {
  }

  lemma SuffixOfSuffix(s: seq<byte>, a: nat, n: nat)
    requires a + n <= |s|
    ensures s[a..][n..] == s[a + n..]
  {
  }

  lemma {:induction false} ConcatAppend(parts: seq<seq<byte>>, last: seq<byte>)
    ensures Concat(parts + [last]) == Concat(parts) + last
  {
    if parts == [] {
      assert [] + [last] == [last];
      assert Concat([last]) == last + [] == last;
    } else {
      ConcatAppend(parts[1..], last);
      assert (parts + [last])[1..] == parts[1..] + [last];
      assert parts[0] + (Concat(parts[1..]) + last) == parts[0] + Concat(parts[1..]) + last;
    }
  }
}
