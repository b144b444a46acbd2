/** The lock-free multi-producer single-consumer queue of src/ws/ws_mpsc.c together with
    its pool of nodes, as a transition system.

    Every atomic operation of the source is one step: loads, stores, the exchange of `tail`,
    the compare-and-swap of `tail`, taking and releasing the mutex of the free list.  Any
    number of producers run `get_node; fill; enqueue`; the one consumer runs
    `dequeue; process; return_node`.  Steps are sequentially consistent.  The pool has a
    fixed size, because automatic growth is switched off in the source.
 */
module Mpsc {

  type Tid = nat
  type Msg = nat

  /** A node pointer; nodes are named by their index in the pool. */
  datatype Ptr = Null | At(node: nat)

  /** The message a node carries, if any. */
  datatype Data = Empty | Holds(m: Msg)

  datatype Lock = Unlocked | HeldByProducer(p: Tid) | HeldByConsumer

  /** Where a producer stands.  `m` is the message it is going to send. */
  datatype Producer =
    | PIdle
    | PLocked(m: Msg)                          // get_node: free_lock taken
    | PSawHead(m: Msg, n: nat)                 // loaded free_head
    | PSawNext(m: Msg, n: nat, rest: Ptr)      // loaded n->next
    | PPopped(m: Msg, n: nat)                  // stored free_head
    | PCounted(m: Msg, n: nat)                 // decremented free_nodes
    | PGot(m: Msg, n: nat)                     // released free_lock
    | PReset(m: Msg, n: nat)                   // cleared data and next
    | PFilled(n: nat)                          // stored the message
    | PReady(n: nat)                           // enqueue: cleared next
    | PSwapped(n: nat, prev: Ptr)              // exchanged tail, link still to come

  /** Where the consumer stands. */
  datatype Consumer =
    | CIdle
    | CSawHead(h: nat)                         // loaded head
    | CSawNull(h: nat)                         // loaded head->next, it was NULL
    | CSpin(h: nat)                            // head != tail: wait for the link
    | CAdvance(h: nat, nx: nat)                // head->next known: head is to move to it
    | CLast(h: nat)                            // head == tail: head is to become NULL
    | CCas(h: nat)                             // head is NULL: tail is to be compared and swapped
    | CWait(h: nat)                            // the swap failed: wait for the link
    | CRepublish(h: nat, nx: nat)              // link seen: head is to become nx
    | CTaken(h: nat)                           // dequeue returned h
    | CProcessed(h: nat)                       // the message of h was handed over
    | CCleared(h: nat)                         // return_node: data cleared
    | CLocked(h: nat)                          // free_lock taken
    | CSawFree(h: nat, top: Ptr)               // loaded free_head
    | CLinked(h: nat)                          // stored h->next
    | CPushed                                  // stored free_head
    | CCounted                                 // incremented free_nodes

  /** `order` and `delivered` record the history: the messages in the order of the exchanges
      of `tail`, and the messages handed to the consumer's callbacks. */
  datatype State = State(
    next: seq<Ptr>, data: seq<Data>,
    head: Ptr, tail: Ptr,
    freeHead: Ptr, freeNodes: int, lock: Lock,
    producers: seq<Producer>, consumer: Consumer,
    order: seq<Msg>, delivered: seq<Msg>)

  /** One producer (`m` is the message of a new send) or the consumer takes a step. */
  datatype Action = Produce(p: Tid, m: Msg) | Consume

  function PtrTo(n: nat, size: nat): Ptr {
    if n < size then At(n) else Null
  }

  /** ws_mpsc_queue_create: all nodes chained on the free list, the queue empty. */
  function Init(size: nat, producers: nat): State
    requires size > 0
  {
    State(seq(size, (i: nat) => PtrTo(i + 1, size)), seq(size, (_: nat) => Empty),
          Null, Null,
          At(0), size, Unlocked,
          seq(producers, (_: nat) => PIdle), CIdle,
          [], [])
  }

  // Memory accesses.  That they never leave the pool is part of the invariant.

  function Read(a: seq<Ptr>, n: nat): Ptr {
    if n < |a| then a[n] else Null
  }

  function Write<T>(a: seq<T>, n: nat, v: T): seq<T> {
    if n < |a| then a[n := v] else a
  }

  function Message(s: State, n: nat): Msg {
    if n < |s.data| && s.data[n].Holds? then s.data[n].m else 0
  }

  /** The next atomic operation of producer `p`. */
  function ProducerStep(s: State, p: Tid, m: Msg): State {
    if p >= |s.producers| then s else
    match s.producers[p]
    case PIdle =>
      if s.lock != Unlocked then s
      else s.(lock := HeldByProducer(p), producers := s.producers[p := PLocked(m)])
    case PLocked(m) =>
      (match s.freeHead
       case Null => s.(lock := Unlocked, producers := s.producers[p := PIdle])
       case At(n) => s.(producers := s.producers[p := PSawHead(m, n)]))
    case PSawHead(m, n) =>
      s.(producers := s.producers[p := PSawNext(m, n, Read(s.next, n))])
    case PSawNext(m, n, rest) =>
      s.(freeHead := rest, producers := s.producers[p := PPopped(m, n)])
    case PPopped(m, n) =>
      s.(freeNodes := s.freeNodes - 1, producers := s.producers[p := PCounted(m, n)])
    case PCounted(m, n) =>
      s.(lock := Unlocked, producers := s.producers[p := PGot(m, n)])
    case PGot(m, n) =>
      s.(data := Write(s.data, n, Empty), next := Write(s.next, n, Null),
         producers := s.producers[p := PReset(m, n)])
    case PReset(m, n) =>
      s.(data := Write(s.data, n, Holds(m)), producers := s.producers[p := PFilled(n)])
    case PFilled(n) =>
      s.(next := Write(s.next, n, Null), producers := s.producers[p := PReady(n)])
    case PReady(n) =>
      s.(tail := At(n), producers := s.producers[p := PSwapped(n, s.tail)],
         order := s.order + [Message(s, n)])
    case PSwapped(n, prev) =>
      (match prev
       case At(q) => s.(next := Write(s.next, q, At(n)), producers := s.producers[p := PIdle])
       case Null => s.(head := At(n), producers := s.producers[p := PIdle]))
  }

  /** The next atomic operation of the consumer. */
  function ConsumerStep(s: State): State {
    match s.consumer
    case CIdle =>
      (match s.head
       case Null => s                                    // dequeue returns NULL
       case At(h) => s.(consumer := CSawHead(h)))
    case CSawHead(h) =>
      (match Read(s.next, h)
       case Null => s.(consumer := CSawNull(h))
       case At(nx) => s.(consumer := CAdvance(h, nx)))
    case CSawNull(h) =>
      s.(consumer := if s.tail == At(h) then CLast(h) else CSpin(h))
    case CSpin(h) =>
      (match Read(s.next, h)
       case Null => s
       case At(nx) => s.(consumer := CAdvance(h, nx)))
    case CAdvance(h, nx) =>
      s.(head := At(nx), consumer := CTaken(h))
    case CLast(h) =>
      s.(head := Null, consumer := CCas(h))
    case CCas(h) =>
      if s.tail == At(h) then s.(tail := Null, consumer := CTaken(h))
      else s.(consumer := CWait(h))
    case CWait(h) =>
      (match Read(s.next, h)
       case Null => s
       case At(nx) => s.(consumer := CRepublish(h, nx)))
    case CRepublish(h, nx) =>
      s.(head := At(nx), consumer := CTaken(h))
    case CTaken(h) =>
      s.(consumer := CProcessed(h),
         delivered := s.delivered + [Message(s, h)])
    case CProcessed(h) =>
      s.(data := Write(s.data, h, Empty), consumer := CCleared(h))
    case CCleared(h) =>
      if s.lock != Unlocked then s else s.(lock := HeldByConsumer, consumer := CLocked(h))
    case CLocked(h) =>
      s.(consumer := CSawFree(h, s.freeHead))
    case CSawFree(h, top) =>
      s.(next := Write(s.next, h, top), consumer := CLinked(h))
    case CLinked(h) =>
      s.(freeHead := At(h), consumer := CPushed)
    case CPushed =>
      s.(freeNodes := s.freeNodes + 1, consumer := CCounted)
    case CCounted =>
      s.(lock := Unlocked, consumer := CIdle)
  }

  function Step(s: State, a: Action): State {
    match a
    case Produce(p, m) => ProducerStep(s, p, m)
    case Consume => ConsumerStep(s)
  }

  /** The state after a schedule: any interleaving is some sequence of actions. */
  function Run(s: State, acts: seq<Action>): State {
    if acts == [] then s else Step(Run(s, acts[..|acts| - 1]), acts[|acts| - 1])
  }
}
