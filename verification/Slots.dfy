/** The life of a connection slot: free stack, fd map, reference count and generation, as a
    transition system of one event thread and any number of sender threads.

    Sources: src/ws/ws_message_processor.c, src/ws/ws_connection_handler.c,
    src/ws/ws_connection.c, src/ws/ws_event_thread.c, src/ws/ws_server.c, src/ws/ws_mpsc.c.

    Senders look a connection up in the shared hash and take a reference under the bucket lock,
    read its state and generation, queue a message and release the reference.  The event thread
    opens and closes connections and dispatches the queued messages.
 */
module Slots {

  const WRAP: nat := 0x1_0000_0000          // generation is 32 bits wide
  const INDEX_WRAP: nat := 0x1_0000         // pool_index is 16 bits wide

  type Tid = nat
  type Fd = int

  datatype ConnState = CONNECTING | OPEN | CLOSING | CLOSED | HTTP | TLS_HANDSHAKE

  /** `life` counts the initialisations of the slot; it is history, not a field of the source. */
  datatype Slot = Slot(fd: Fd, state: ConnState, refs: int, generation: nat, poolIndex: nat, life: nat)

  /** A queued text or binary send.  `life` records which life of the slot it was captured for. */
  datatype Message = Message(fd: Fd, slot: nat, generation: nat, life: nat)

  /** Where a sender stands; every variant but Out holds a reference to slot i, which it found
      under `fd` in life `life`. */
  datatype Sender =
    | Out
    | Found(i: nat, fd: Fd, life: nat)
    | Checked(i: nat, fd: Fd, life: nat)
    | Captured(i: nat, fd: Fd, life: nat, generation: nat)
    | Leaving(i: nat, fd: Fd, life: nat)

  /** Where the event thread stands. */
  datatype Thread =
    | Idle
    | Popped(fd: Fd, i: nat)           // new connection: slot taken from the free stack
    | Inited(fd: Fd, i: nat)           // slot initialised
    | Mapped(fd: Fd, i: nat)           // entered in the fd map, not in the hash yet
    | Unmapped(fd: Fd, i: nat)         // closing: left the fd map
    | Unhashed(fd: Fd, i: nat)         // server-initiated close: left the hash first
    | Detached(i: nat)                 // left both
    | LastRef(i: nat)                  // released its reference, which was the last
    | NotLast(i: nat)                  // released its reference, others remain
    | Wiped(index: nat)                // slot cleaned up, saved pool_index to be pushed

  /** A message handed to `target` in its life `life`; `now` was the life of the message's slot. */
  datatype Delivery = Delivery(m: Message, now: nat, target: nat, life: nat)

  datatype State = State(
    slots: seq<Slot>, free: seq<nat>, fdMap: map<Fd, nat>, hash: map<Fd, nat>,
    thread: Thread, senders: seq<Sender>, queue: seq<Message>, deliveries: seq<Delivery>)

  datatype Action =
    | Accept(fd: Fd)                       // a new-connection message is processed
    | Close(fd: Fd)                        // close_connection
    | CloseRequested(fd: Fd)               // process_close_message
    | SetState(fd: Fd, state: ConnState)   // the protocol moves a registered connection on
    | Dispatch(k: nat)                     // the k-th queued send is processed
    | Proceed                              // the event thread goes on with what it is doing
    | Find(t: Tid, fd: Fd)                 // sender t looks fd up and takes a reference
    | Send(t: Tid)                         // the next step of sender t
    | GiveUp(t: Tid)                       // sender t only wanted to look

  /** ws_init_event_thread: all slots on the free stack, slot 0 on top. */
  function Init(size: nat, senders: nat): State {
    State(seq(size, (i: nat) => Slot(-1, CLOSED, 0, 0, i % INDEX_WRAP, 0)),
          seq(size, (k: nat) requires k < size => size - 1 - k),
          map[], map[], Idle, seq(senders, (_: nat) => Out), [], [])
  }

  // ----- The slot operations

  /** ws_connection_init: wipes the slot but bumps its generation. */
  function InitSlot(c: Slot, fd: Fd, i: nat): Slot {
    Slot(fd, CONNECTING, 1, (c.generation + 1) % WRAP, i % INDEX_WRAP, c.life + 1)
  }

  /** ws_connection_cleanup: wipes the slot but keeps its generation. */
  function CleanupSlot(c: Slot): Slot {
    Slot(0, CONNECTING, 0, c.generation, 0, c.life)
  }

  function Update(s: State, i: nat, c: Slot): seq<Slot> {
    if i < |s.slots| then s.slots[i := c] else s.slots
  }

  function At(s: State, i: nat): Slot {
    if i < |s.slots| then s.slots[i] else Slot(-1, CLOSED, 0, 0, 0, 0)
  }

  // ----- Event thread

  function AcceptStep(s: State, fd: Fd): State {
    if s.free == [] then s        // no slot: the socket is closed again
    else s.(free := s.free[..|s.free| - 1], thread := Popped(fd, s.free[|s.free| - 1]))
  }

  function ProceedStep(s: State): State {
    match s.thread
    case Idle => s
    case Popped(fd, i) => s.(slots := Update(s, i, InitSlot(At(s, i), fd, i)), thread := Inited(fd, i))
    case Inited(fd, i) => s.(fdMap := s.fdMap[fd := i], thread := Mapped(fd, i))
    case Mapped(fd, i) => s.(hash := s.hash[fd := i], thread := Idle)
    case Unmapped(fd, i) => s.(hash := s.hash - {fd}, thread := Detached(i))
    case Unhashed(fd, i) => s.(fdMap := s.fdMap - {fd}, thread := Detached(i))
    case Detached(i) =>
      var c := At(s, i);
      s.(slots := Update(s, i, c.(refs := c.refs - 1)), thread := if c.refs == 1 then LastRef(i) else NotLast(i))
    case LastRef(i) =>
      s.(slots := Update(s, i, CleanupSlot(At(s, i))), thread := Wiped(At(s, i).poolIndex))
    case NotLast(i) =>
      s.(slots := Update(s, i, At(s, i).(state := CLOSED)), thread := Idle)
    case Wiped(index) =>
      s.(free := if |s.free| < |s.slots| then s.free + [index] else s.free, thread := Idle)
  }

  /** The generation guard of ws_mpsc_process_messages, then the fd lookup of the send. */
  function DispatchStep(s: State, m: Message): State {
    var c := At(s, m.slot);
    if c.generation == m.generation && c.state == OPEN && m.fd in s.fdMap && At(s, s.fdMap[m.fd]).state == OPEN then
      s.(deliveries := s.deliveries + [Delivery(m, c.life, s.fdMap[m.fd], At(s, s.fdMap[m.fd]).life)])
    else s
  }

  // ----- Senders

  function SendStep(s: State, t: Tid): State {
    if t >= |s.senders| then s else
    match s.senders[t]
    case Out => s
    case Found(i, fd, life) =>
      s.(senders := s.senders[t := if At(s, i).state == OPEN then Checked(i, fd, life) else Leaving(i, fd, life)])
    case Checked(i, fd, life) =>
      s.(senders := s.senders[t := Captured(i, fd, life, At(s, i).generation)])
    case Captured(i, fd, life, g) =>
      s.(queue := s.queue + [Message(fd, i, g, life)], senders := s.senders[t := Leaving(i, fd, life)])
    case Leaving(i, fd, life) =>
      s.(slots := Update(s, i, At(s, i).(refs := At(s, i).refs - 1)), senders := s.senders[t := Out])
  }

  function Step(s: State, a: Action): State {
    match a
    case Accept(fd) => if s.thread.Idle? then AcceptStep(s, fd) else s
    case Close(fd) =>
      if s.thread.Idle? && fd in s.fdMap then s.(fdMap := s.fdMap - {fd}, thread := Unmapped(fd, s.fdMap[fd])) else s
    case CloseRequested(fd) =>
      if s.thread.Idle? && fd in s.fdMap then s.(hash := s.hash - {fd}, thread := Unhashed(fd, s.fdMap[fd])) else s
    case SetState(fd, state) =>
      if s.thread.Idle? && fd in s.fdMap then s.(slots := Update(s, s.fdMap[fd], At(s, s.fdMap[fd]).(state := state))) else s
    case Dispatch(k) => if s.thread.Idle? && k < |s.queue| then DispatchStep(s, s.queue[k]) else s
    case Proceed => ProceedStep(s)
    case Find(t, fd) =>
      if t < |s.senders| && s.senders[t].Out? && fd in s.hash then
        var i := s.hash[fd];
        s.(slots := Update(s, i, At(s, i).(refs := At(s, i).refs + 1)),
           senders := s.senders[t := Found(i, fd, At(s, i).life)])
      else s
    case Send(t) => SendStep(s, t)
    case GiveUp(t) =>
      if t < |s.senders| && s.senders[t].Found? then
        s.(senders := s.senders[t := Leaving(s.senders[t].i, s.senders[t].fd, s.senders[t].life)])
      else s
  }

  /** The operating system hands out descriptors that are not in use, and only closing a
      connection makes it CLOSED. */
  predicate Legal(s: State, a: Action) {
    && (a.Accept? ==> a.fd !in s.fdMap)
    && (a.SetState? ==> a.state != CLOSED)
  }

  function Run(s: State, acts: seq<Action>): State {
    if acts == [] then s else Step(Run(s, acts[..|acts| - 1]), acts[|acts| - 1])
  }

  predicate LegalRun(s: State, acts: seq<Action>) {
    acts == [] ||
    (LegalRun(s, acts[..|acts| - 1]) && Legal(Run(s, acts[..|acts| - 1]), acts[|acts| - 1]))
  }
}
