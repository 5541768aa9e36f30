/**
 The event loop and its descriptors: a batch of events is fetched from the kernel and walked, while
 the callbacks it triggers may open, change and close any descriptors. Deleting a handler scrubs it
 from the rest of the batch, including the event being dispatched.

 Handlers are identified by numbers; `None` is the default handler, which does nothing. The user's
 callbacks are arbitrary sequences of descriptor operations.
 */
module Reactor {
  import opened Wrappers

  datatype Flags = Flags(readable: bool, writable: bool, other: bool)

  datatype EpollEvent = EpollEvent(flags: Flags, handler: Option<nat>)

  datatype Mask = Mask(read: bool, write: bool, level: bool)

  /** A descriptor record; `fd` is -1 while it is closed. */
  datatype Descriptor = Descriptor(fd: int, mask: Mask)

  /** What the kernel knows about a file descriptor: whose it is and what it is watched for. */
  datatype Registration = Registration(id: nat, mask: Mask)

  datatype DescriptorEvent = DescriptorRead | DescriptorWrite | DescriptorClose

  /** The history of the loop. */
  datatype Happened = BatchStart | Added(id: nat) | Deleted(id: nat) | Delivered(id: nat, kind: DescriptorEvent)

  const MAX_EVENTS: nat := 32
  const NO_FLAGS := Flags(false, false, false)
  const SCRUBBED := EpollEvent(NO_FLAGS, None)
  const NO_MASK := Mask(false, false, false)

  /** The handlers deleted since the current batch was fetched. */
  function Dead(log: seq<Happened>): set<nat> {
    if log == [] then {}
    else
      var last, before := log[|log| - 1], Dead(log[..|log| - 1]);
      if last == BatchStart then {} else if last.Deleted? then before + {last.id} else before
  }

  /** The handlers registered by now. */
  function Registered(log: seq<Happened>): set<nat> {
    if log == [] then {}
    else
      var last, before := log[|log| - 1], Registered(log[..|log| - 1]);
      if last.Added? then before + {last.id} else if last.Deleted? then before - {last.id} else before
  }

  /** The deliveries of a history, in order. */
  function Deliveries(log: seq<Happened>): seq<Happened> {
    if log == [] then []
    else
      var last, before := log[|log| - 1], Deliveries(log[..|log| - 1]);
      before + if last.Delivered? then [last] else []
  }

  /** Every event went to a handler that was registered, and not deleted since the batch was fetched. */
  predicate Quiet(log: seq<Happened>) {
    log == [] ||
    var last, before := log[|log| - 1], log[..|log| - 1];
    Quiet(before) && (last.Delivered? ==> last.id in Registered(before) && last.id !in Dead(before))
  }

  lemma {:induction false} DeadMeans(log: seq<Happened>, i: nat)
    requires i < |log| && log[i].Deleted?
    requires forall k :: i < k < |log| ==> log[k] != BatchStart
    ensures log[i].id in Dead(log)
    decreases |log|
  {
    if i < |log| - 1 {
      DeadMeans(log[..|log| - 1], i);
    }
  }

  /** In plain words: after a handler is deleted, nothing reaches it before the next batch. */
  lemma {:induction false} QuietMeans(log: seq<Happened>, i: nat, j: nat)
    requires Quiet(log) && i < j < |log|
    requires log[i].Deleted? && log[j].Delivered? && log[j].id == log[i].id
    ensures exists k :: i < k < j && log[k] == BatchStart
    decreases |log|
  {
    var before := log[..|log| - 1];
    if j < |log| - 1 {
      QuietMeans(before, i, j);
      var k :| i < k < j && before[k] == BatchStart;
      assert log[k] == BatchStart;
    } else if forall k :: i < k < j ==> log[k] != BatchStart {
      DeadMeans(before, i);
      assert false;
    }
  }

  lemma LogStep(log: seq<Happened>, last: Happened)
    ensures Dead(log + [last]) ==
            if last == BatchStart then {} else if last.Deleted? then Dead(log) + {last.id} else Dead(log)
    ensures Registered(log + [last]) ==
            if last.Added? then Registered(log) + {last.id}
            else if last.Deleted? then Registered(log) - {last.id} else Registered(log)
    ensures Quiet(log + [last]) <==>
            Quiet(log) && (last.Delivered? ==> last.id in Registered(log) && last.id !in Dead(log))
    ensures Deliveries(log + [last]) == Deliveries(log) + if last.Delivered? then [last] else []
  {
    assert (log + [last])[..|log|] == log;
  }

  /** The open descriptors are exactly the registrations the kernel knows, one for each handler, and each
      is watched for what its mask says. */
  ghost predicate Linked(kernel: map<nat, Registration>, table: map<nat, Descriptor>) {
    && (forall id :: id in table && table[id].fd >= 0 ==>
          table[id].fd in kernel && kernel[table[id].fd] == Registration(id, table[id].mask))
    && (forall fd :: fd in kernel ==> kernel[fd].id in table && table[kernel[fd].id].fd == fd)
  }

  function OpenIds(table: map<nat, Descriptor>): set<nat> {
    set id | id in table && table[id].fd >= 0
  }

  lemma Link(kernel: map<nat, Registration>, table: map<nat, Descriptor>, id: nat, fd: nat, mask: Mask)
    requires Linked(kernel, table) && id in table && table[id].fd < 0 && fd !in kernel
    ensures Linked(kernel[fd := Registration(id, mask)], table[id := Descriptor(fd, mask)])
    ensures |kernel[fd := Registration(id, mask)]| == |kernel| + 1
    ensures OpenIds(table[id := Descriptor(fd, mask)]) == OpenIds(table) + {id}
  {
  }

  lemma Unlink(kernel: map<nat, Registration>, table: map<nat, Descriptor>, id: nat)
    requires Linked(kernel, table) && id in table && table[id].fd >= 0
    ensures Linked(kernel - {table[id].fd}, table[id := Descriptor(-1, NO_MASK)])
    ensures |kernel - {table[id].fd}| == |kernel| - 1
    ensures OpenIds(table[id := Descriptor(-1, NO_MASK)]) == OpenIds(table) - {id}
  {
    var fd := table[id].fd;
    assert kernel.Keys == (kernel - {fd}).Keys + {fd};
  }

  lemma Remask(kernel: map<nat, Registration>, table: map<nat, Descriptor>, id: nat, mask: Mask)
    requires Linked(kernel, table) && id in table && table[id].fd >= 0
    ensures mask == table[id].mask ==> kernel[table[id].fd := Registration(id, mask)] == kernel
    ensures table[id].fd in kernel && |kernel[table[id].fd := Registration(id, mask)]| == |kernel|
    ensures Linked(kernel[table[id].fd := Registration(id, mask)], table[id := Descriptor(table[id].fd, mask)])
    ensures OpenIds(table[id := Descriptor(table[id].fd, mask)]) == OpenIds(table)
  {
  }

  function OneIf(set_: bool, id: nat, kind: DescriptorEvent): seq<Happened> {
    if set_ then [Delivered(id, kind)] else []
  }

  /** What a fetched event asks for: one delivery for each flag that is set, in this order. */
  function Asked(e: EpollEvent): seq<Happened> {
    match e.handler
    case None => []
    case Some(id) =>
      OneIf(e.flags.readable, id, DescriptorRead) + OneIf(e.flags.writable, id, DescriptorWrite) +
      OneIf(e.flags.other, id, DescriptorClose)
  }

  /** What was delivered for a fetched event: all it asks for, or the first part of that if its handler
      was deleted meanwhile. */
  predicate Served(log: seq<Happened>, e: EpollEvent, sent: seq<Happened>) {
    sent == Asked(e) || (sent <= Asked(e) && e.handler.Some? && e.handler.value in Dead(log))
  }

  function Flatten(parts: seq<seq<Happened>>): seq<Happened> {
    if parts == [] then [] else Flatten(parts[..|parts| - 1]) + parts[|parts| - 1]
  }

  lemma FlattenStep(parts: seq<seq<Happened>>, last: seq<Happened>)
    ensures Flatten(parts + [last]) == Flatten(parts) + last
  {
    assert (parts + [last])[..|parts|] == parts;
  }

  class Core {
    var active: bool
    var descriptors: nat
    var events: array<EpollEvent>
    var event: nat
    var eventEnd: nat
    var kernel: map<nat, Registration>
    var table: map<nat, Descriptor>
    ghost var log: seq<Happened>

    // What the last `epoll_wait` reported, how often it was called, and how often without need: after
    // an abort, or with nothing registered.
    ghost var reported: seq<EpollEvent>
    ghost var waits: nat
    ghost var idleWaits: nat

    ghost predicate Valid()
      reads this, events
    {
      && descriptors == |kernel|
      && Linked(kernel, table)
      && Registered(log) == OpenIds(table)
      && event <= eventEnd <= events.Length
      && Quiet(log)
      && (forall k :: event <= k < eventEnd && events[k].handler.Some? ==>
            events[k].handler.value in Registered(log) && events[k].handler.value !in Dead(log))
      && (forall k :: event <= k < eventEnd && events[k].handler.None? ==> events[k].flags == NO_FLAGS)
    }

    /** Callbacks leave each event of the batch alone, or scrub it because its handler was deleted. */
    twostate predicate OnlyScrubs()
      reads this, events
    {
      && events == old(events) && event == old(event) && eventEnd == old(eventEnd)
      && old(log) <= log && Dead(old(log)) <= Dead(log)
      && forall k :: event <= k < eventEnd <= events.Length ==>
           || events[k] == old(events[k])
           || (events[k] == SCRUBBED && old(events[k]).handler.Some? && old(events[k]).handler.value in Dead(log))
    }

    constructor (ids: set<nat>)
      ensures Valid() && fresh(events) && descriptors == 0 && table.Keys == ids
    {
      active, descriptors, event, eventEnd := true, 0, 0, 0;
      events := new EpollEvent[0];
      kernel, log := map[], [];
      reported, waits, idleWaits := [], 0, 0;
      table := map id | id in ids :: Descriptor(-1, NO_MASK);
    }

    /** `descriptor_open` with `reactor_add`. */
    method Open(id: nat, fd: nat, mask: Mask)
      requires Valid() && id in table && table[id].fd < 0 && fd !in kernel
      modifies this`table, this`kernel, this`descriptors, this`log
      ensures Valid() && OnlyScrubs() && descriptors == old(descriptors) + 1
      ensures table == old(table)[id := Descriptor(fd, mask)]
      ensures log == old(log) + [Added(id)] && Deliveries(log) == old(Deliveries(log))
    {
      hide Quiet, Registered, Dead, Linked, OpenIds, Deliveries;
      LogStep(log, Added(id));
      Link(kernel, table, id, fd, mask);
      table := table[id := Descriptor(fd, mask)];
      descriptors := descriptors + 1;
      kernel := kernel[fd := Registration(id, mask)];
      log := log + [Added(id)];
    }

    /** `descriptor_mask` with `reactor_modify`. */
    method ChangeMask(id: nat, mask: Mask)
      requires Valid() && id in table && (table[id].mask != mask ==> table[id].fd >= 0)
      modifies this`table, this`kernel
      ensures Valid() && |kernel| == |old(kernel)|
      ensures old(table)[id].fd >= 0 ==> kernel == old(kernel)[old(table)[id].fd := Registration(id, mask)]
      ensures table == old(table)[id := Descriptor(old(table)[id].fd, mask)]
    {
      hide Quiet, Registered, Dead, Linked, OpenIds, Deliveries;
      if table[id].fd >= 0 {
        Remask(kernel, table, id, mask);
      }
      if table[id].mask == mask {
        return;
      }
      table := table[id := Descriptor(table[id].fd, mask)];
      kernel := kernel[table[id].fd := Registration(id, mask)];
    }

    /** `descriptor_close` with `reactor_delete`: every event of the batch for this handler, from the
        one being dispatched on, is scrubbed. */
    method Close(id: nat)
      requires Valid() && id in table
      modifies this`table, this`kernel, this`descriptors, this`log, events
      ensures Valid() && OnlyScrubs() && Deliveries(log) == old(Deliveries(log))
      ensures old(table)[id].fd < 0 ==> unchanged(this)
      ensures old(table)[id].fd >= 0 ==>
                && descriptors == old(descriptors) - 1
                && table == old(table)[id := Descriptor(-1, NO_MASK)]
                && log == old(log) + [Deleted(id)]
                && forall k :: event <= k < eventEnd ==> events[k].handler != Some(id)
    {
      hide Quiet, Registered, Dead, Linked, OpenIds, Deliveries;
      if table[id].fd < 0 {
        return;
      }
      Unlink(kernel, table, id);
      Scrub(id);
      LogStep(log, Deleted(id));
      kernel := kernel - {table[id].fd};
      descriptors := descriptors - 1;
      table := table[id := Descriptor(-1, NO_MASK)];
      log := log + [Deleted(id)];
    }

    /** The loop of `reactor_delete`. */
    method Scrub(id: nat)
      requires event <= eventEnd <= events.Length
      modifies events
      ensures forall k :: event <= k < eventEnd ==>
                events[k] == if old(events[k].handler) == Some(id) then SCRUBBED else old(events[k])
    {
      for e := event to eventEnd
        invariant forall k :: event <= k < e ==>
                    events[k] == if old(events[k].handler) == Some(id) then SCRUBBED else old(events[k])
        invariant forall k :: e <= k < eventEnd ==> events[k] == old(events[k])
      {
        if events[e].handler == Some(id) {
          events[e] := SCRUBBED;
        }
      }
    }

    /** `reactor_abort`. */
    method Abort()
      modifies this`active
      ensures !active
    {
      active := false;
    }

    /** The user's handler is called: the delivery is noted, and then it does what it likes. */
    method UserCallback(id: nat, kind: DescriptorEvent)
      requires Valid() && id in Registered(log) && id !in Dead(log)
      modifies this`active, this`table, this`kernel, this`descriptors, this`log, events
      ensures Valid() && OnlyScrubs() && Deliveries(log) == old(Deliveries(log)) + [Delivered(id, kind)]
    {
      hide Quiet, Registered, Dead, Linked, OpenIds, Deliveries;
      LogStep(log, Delivered(id, kind));
      log := log + [Delivered(id, kind)];
      Operations();
    }

    /** What a callback may do: any descriptor operations, on any descriptors. */
    method Operations()
      requires Valid()
      modifies this`active, this`table, this`kernel, this`descriptors, this`log, events
      ensures Valid() && OnlyScrubs() && Deliveries(log) == old(Deliveries(log))
    {
      hide Quiet, Registered, Dead, Linked, Deliveries;
      var calls: nat := *;
      while calls > 0
        invariant Valid() && OnlyScrubs() && Deliveries(log) == old(Deliveries(log))
      {
        var id: nat, fd: nat, mask: Mask := *, *, *;
        if {
          case id in table && table[id].fd < 0 && fd !in kernel => Open(id, fd, mask);
          case id in table && table[id].fd >= 0 => ChangeMask(id, mask);
          case id in table => Close(id);
          case true => Abort();
          case true =>
        }
        calls := calls - 1;
      }
    }

    /** One test of `descriptor_callback` and, if it succeeds, `reactor_dispatch` to the user's handler. */
    method DeliverIf(set_: bool, id: nat, kind: DescriptorEvent)
      requires Valid() && (set_ ==> id in Registered(log) && id !in Dead(log))
      modifies this`active, this`table, this`kernel, this`descriptors, this`log, events
      ensures Valid() && OnlyScrubs()
      ensures Deliveries(log) == old(Deliveries(log)) + OneIf(set_, id, kind)
      ensures !set_ ==> log == old(log)
    {
      hide Quiet, Registered, Dead, Linked, OpenIds, Deliveries;
      if set_ {
        UserCallback(id, kind);
      }
    }

    /** `descriptor_callback`: the flags are read again from the batch before each delivery. */
    method DescriptorCallback(id: nat) returns (ghost sent: seq<Happened>)
      requires Valid() && event < eventEnd && events[event].handler == Some(id)
      modifies this`active, this`table, this`kernel, this`descriptors, this`log, events
      ensures Valid() && OnlyScrubs()
      ensures Deliveries(log) == old(Deliveries(log)) + sent && Served(log, old(events[event]), sent)
    {
      hide Quiet, Registered, Dead, Linked, OpenIds, Deliveries, OneIf;
      ghost var e := events[event];
      var read := events[event].flags.readable;
      DeliverIf(read, id, DescriptorRead);
      var write := events[event].flags.writable;
      DeliverIf(write, id, DescriptorWrite);
      var close := events[event].flags.other;
      DeliverIf(close, id, DescriptorClose);
      sent := OneIf(read, id, DescriptorRead) + OneIf(write, id, DescriptorWrite) + OneIf(close, id, DescriptorClose);
      ServedByParts(log, e, id, write, close);
    }

    /** `epoll_wait`: -1 if interrupted, else at most a batch of events, each for the handler of some
        registered descriptor. */
    method EpollWait(batch: array<EpollEvent>) returns (n: int)
      requires Valid() && batch.Length == MAX_EVENTS && batch != events
      modifies batch, this`reported, this`waits, this`idleWaits
      ensures -1 <= n <= MAX_EVENTS && reported == if n == -1 then [] else batch[..n]
      ensures forall k :: 0 <= k < n ==> batch[k].handler.Some? && batch[k].handler.value in Registered(log)
      ensures waits == old(waits) + 1
      ensures idleWaits == old(idleWaits) + if active && kernel != map[] then 0 else 1
    {
      hide Quiet, Registered, Dead;
      n := 0;
      var ready: nat := *;
      while n < ready && n < MAX_EVENTS && kernel != map[]
        modifies batch
        invariant 0 <= n <= MAX_EVENTS
        invariant forall k :: 0 <= k < n ==> batch[k].handler.Some? && batch[k].handler.value in Registered(log)
      {
        var fd :| fd in kernel;
        var flags: Flags := *;
        batch[n] := EpollEvent(flags, Some(kernel[fd].id));
        n := n + 1;
      }
      var interrupted: bool := *;
      if interrupted {
        n := -1;
      }
      reported := if n == -1 then [] else batch[..n];
      waits := waits + 1;
      idleWaits := idleWaits + if active && kernel != map[] then 0 else 1;
    }

    /** The events reported become the batch. */
    method StartBatch(batch: array<EpollEvent>, n: nat)
      requires Valid() && n <= batch.Length
      requires forall k :: 0 <= k < n ==> batch[k].handler.Some? && batch[k].handler.value in Registered(log)
      modifies this`log, this`events, this`event, this`eventEnd
      ensures Valid() && events == batch && event == 0 && eventEnd == n
      ensures log == old(log) + [BatchStart] && Deliveries(log) == old(Deliveries(log))
    {
      hide Quiet, Registered, Dead, Linked, OpenIds, Deliveries;
      LogStep(log, BatchStart);
      log := log + [BatchStart];
      events, event, eventEnd := batch, 0, n;
    }

    /** The walk over a fetched batch in `reactor_loop_once`. */
    method Walk() returns (ghost sent: seq<seq<Happened>>)
      requires Valid() && event == 0
      modifies this`event, this`active, this`table, this`kernel, this`descriptors, this`log, events
      ensures Valid() && event == eventEnd && events == old(events) && eventEnd == old(eventEnd)
      ensures old(log) <= log && |sent| == eventEnd
      ensures Deliveries(log) == old(Deliveries(log)) + Flatten(sent)
      ensures forall k :: 0 <= k < eventEnd ==> Served(log, old(events[k]), sent[k])
    {
      hide Quiet, Registered, Linked, OpenIds, Served, Dead, Deliveries;
      ghost var fetched := events[..];
      sent := [];
      while event < eventEnd
        invariant Valid() && old(log) <= log && |sent| == event
        invariant Deliveries(log) == old(Deliveries(log)) + Flatten(sent)
        invariant forall k :: 0 <= k < event ==> Served(log, fetched[k], sent[k])
        invariant forall k :: event <= k < eventEnd ==> Remains(log, events[k], fetched[k])
        decreases eventEnd - event
      {
        ghost var one := Visit(fetched, sent);
        FlattenStep(sent, one);
        sent := sent + [one];
        event := event + 1;
      }
    }

    /** One step of the walk. */
    method Visit(ghost fetched: seq<EpollEvent>, ghost before: seq<seq<Happened>>) returns (ghost sent: seq<Happened>)
      requires Valid() && event < eventEnd && |fetched| == events.Length && |before| == event
      requires forall k :: 0 <= k < event ==> Served(log, fetched[k], before[k])
      requires forall k :: event <= k < eventEnd ==> Remains(log, events[k], fetched[k])
      modifies this`active, this`table, this`kernel, this`descriptors, this`log, events
      ensures Valid() && OnlyScrubs() && Deliveries(log) == old(Deliveries(log)) + sent
      ensures Served(log, fetched[event], sent)
      ensures forall k :: 0 <= k < event ==> Served(log, fetched[k], before[k])
      ensures forall k :: event <= k < eventEnd ==> Remains(log, events[k], fetched[k])
    {
      hide Quiet, Registered, Linked, OpenIds, Served, Dead, Deliveries;
      ghost var log0 := log;
      match events[event].handler {
        case None =>
          sent := [];
          ServedWhenGone(log, events[event], fetched[event]);
        case Some(id) =>
          sent := DescriptorCallback(id);
      }
      forall k | 0 <= k < event ensures Served(log, fetched[k], before[k]) {
        ServedGrows(log0, log, fetched[k], before[k]);
      }
    }

    /** `reactor_loop_once`: one wait and one batch; an interrupted wait does nothing more. For every
        event reported, in the order of the batch, exactly what it asks for is delivered, or a first part
        of that if its handler was deleted; and nothing else is. */
    method LoopOnce() returns (ghost sent: seq<seq<Happened>>)
      requires Valid()
      modifies this
      ensures Valid() && event == eventEnd
      ensures (reported == [] && log == old(log)) || old(log) + [BatchStart] <= log
      ensures |sent| == |reported| && Deliveries(log) == old(Deliveries(log)) + Flatten(sent)
      ensures forall k :: 0 <= k < |reported| ==> Served(log, reported[k], sent[k])
      ensures waits == old(waits) + 1
      ensures idleWaits == old(idleWaits) + if old(active) && old(kernel) != map[] then 0 else 1
    {
      hide Quiet, Registered, Dead, Linked, OpenIds, Served, Deliveries;
      event := eventEnd;
      sent := [];
      var batch := new EpollEvent[MAX_EVENTS](_ => SCRUBBED);
      var n := EpollWait(batch);
      if n == -1 {
        return;
      }
      StartBatch(batch, n);
      sent := Walk();
    }

    /** `reactor_loop`, cut off after a number of rounds: every round waits once, and none waits after
        an abort or with nothing registered. */
    method Loop(limit: nat) returns (rounds: nat)
      requires Valid()
      modifies this
      ensures Valid() && rounds <= limit
      ensures rounds < limit ==> !active || kernel == map[]
      ensures waits == old(waits) + rounds && idleWaits == old(idleWaits)
    {
      hide Quiet, Registered, Dead, Linked, OpenIds, Served, Deliveries;
      rounds := 0;
      while active && descriptors > 0 && rounds < limit
        invariant Valid() && rounds <= limit
        invariant waits == old(waits) + rounds && idleWaits == old(idleWaits)
        decreases limit - rounds
      {
        ghost var _ := LoopOnce();
        rounds := rounds + 1;
      }
    }
  }

  /** An event of the batch is still as fetched, or was scrubbed because its handler was deleted. */
  predicate Remains(log: seq<Happened>, now: EpollEvent, fetched: EpollEvent) {
    now == fetched || (now == SCRUBBED && fetched.handler.Some? && fetched.handler.value in Dead(log))
  }

  lemma ServedWhenGone(log: seq<Happened>, now: EpollEvent, fetched: EpollEvent)
    requires Remains(log, now, fetched) && now.handler.None?
    ensures Served(log, fetched, [])
  {
  }

  lemma ServedGrows(log: seq<Happened>, log': seq<Happened>, e: EpollEvent, sent: seq<Happened>)
    requires Dead(log) <= Dead(log') && Served(log, e, sent)
    ensures Served(log', e, sent)
  {
    hide Dead;
  }

  /** The tests after the first one see the flags of the event, or none once its handler is deleted. */
  lemma ServedByParts(log: seq<Happened>, e: EpollEvent, id: nat, write: bool, close: bool)
    requires e.handler == Some(id)
    requires (write == e.flags.writable && close == e.flags.other) ||
             (id in Dead(log) && !close && (write ==> e.flags.writable))
    ensures Served(log, e, OneIf(e.flags.readable, id, DescriptorRead) + OneIf(write, id, DescriptorWrite) +
                           OneIf(close, id, DescriptorClose))
  {
    hide Dead;
  }
}
