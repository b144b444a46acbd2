/** The inductive invariant of the queue and its preservation by every step.

    The invariant is a conjunction of small predicates over the parts of the state they read,
    so that a step only has to re-establish the parts it writes.
 */
module MpscInvariant {
  import opened Mpsc

  /** Who a pool node belongs to. */
  datatype Place =
    | Free(i: nat)                // on the free list, i nodes below it
    | Linked(i: nat)              // in the queue, carrying the i-th message of `order`
    | Unlinked(i: nat, p: Tid)    // likewise, but p has not stored the link to it yet
    | Owned(p: Tid)               // taken from the pool by producer p
    | Held                        // dequeued, in the hands of the consumer

  /** What the pointers of a state mean: the node each message of `order` travelled in, the
      free list from its bottom to its top, and the place of every node. */
  datatype View = View(nodes: seq<nat>, free: seq<nat>, place: seq<Place>)

  // ----- The parts of the invariant

  /** Messages that left the queue: those delivered, and one that is about to be. */
  function Removed(s: State): nat {
    |s.delivered| + if s.consumer.CTaken? then 1 else 0
  }

  predicate Queued(pl: Place) {
    pl.Linked? || pl.Unlinked?
  }

  /** Queue and free list are duplicate-free and hold exactly the nodes placed there. */
  predicate Places(v: View, removed: nat) {
    && removed <= |v.nodes|
    && (forall i | removed <= i < |v.nodes| ::
          v.nodes[i] < |v.place| && Queued(v.place[v.nodes[i]]) && v.place[v.nodes[i]].i == i)
    && (forall n | 0 <= n < |v.place| && Queued(v.place[n]) ::
          removed <= v.place[n].i < |v.nodes| && v.nodes[v.place[n].i] == n)
    && (forall i | 0 <= i < |v.free| :: v.free[i] < |v.place| && v.place[v.free[i]] == Free(i))
    && (forall n | 0 <= n < |v.place| && v.place[n].Free? ::
          v.place[n].i < |v.free| && v.free[v.place[n].i] == n)
  }

  /** The node a producer got from the pool and has not published. */
  function OwnedBy(pr: Producer): Ptr {
    match pr
    case PPopped(_, n) => At(n)
    case PCounted(_, n) => At(n)
    case PGot(_, n) => At(n)
    case PReset(_, n) => At(n)
    case PFilled(n) => At(n)
    case PReady(n) => At(n)
    case _ => Null
  }

  /** What producer `p` says about its node agrees with the node's place ... */
  predicate OwnsNode(place: seq<Place>, p: Tid, pr: Producer) {
    && (OwnedBy(pr).At? ==> OwnedBy(pr).node < |place| && place[OwnedBy(pr).node] == Owned(p))
    && (pr.PSwapped? ==> pr.n < |place| && place[pr.n].Unlinked? && place[pr.n].p == p)
  }

  /** ... and the other way round. */
  predicate HasOwner(producers: seq<Producer>, n: nat, pl: Place) {
    match pl
    case Owned(p) => p < |producers| && OwnedBy(producers[p]) == At(n)
    case Unlinked(_, p) => p < |producers| && producers[p].PSwapped? && producers[p].n == n
    case _ => true
  }

  predicate Owners(producers: seq<Producer>, place: seq<Place>) {
    && (forall p | 0 <= p < |producers| :: OwnsNode(place, p, producers[p]))
    && (forall n | 0 <= n < |place| :: HasOwner(producers, n, place[n]))
  }

  /** A node about to be published carries its message and ends the list. */
  predicate Prepared(s: State, pr: Producer) {
    && (pr.PFilled? || pr.PReady? ==> pr.n < |s.data| && s.data[pr.n].Holds?)
    && (pr.PReady? ==> pr.n < |s.next| && s.next[pr.n] == Null)
  }

  predicate AllPrepared(s: State) {
    forall p | 0 <= p < |s.producers| :: Prepared(s, s.producers[p])
  }

  predicate HoldsLock(pr: Producer) {
    pr.PLocked? || pr.PSawHead? || pr.PSawNext? || pr.PPopped? || pr.PCounted?
  }

  predicate ConsumerLocks(c: Consumer) {
    c.CLocked? || c.CSawFree? || c.CLinked? || c.CPushed? || c.CCounted?
  }

  function Top(free: seq<nat>): Ptr {
    if free == [] then Null else At(free[|free| - 1])
  }

  /** The mutex excludes, and its holder has an up-to-date picture of the free list. */
  predicate Locking(s: State, free: seq<nat>) {
    && (forall p | 0 <= p < |s.producers| :: HoldsLock(s.producers[p]) ==> s.lock == HeldByProducer(p))
    && (ConsumerLocks(s.consumer) <==> s.lock == HeldByConsumer)
    && s.freeHead == Top(free)
    && match s.lock
       case Unlocked => s.freeNodes == |free|
       case HeldByProducer(p) =>
         && p < |s.producers|
         && HoldsLock(s.producers[p])
         && s.freeNodes == |free| + (if s.producers[p].PPopped? then 1 else 0)
         && (s.producers[p].PSawHead? || s.producers[p].PSawNext? ==> Top(free) == At(s.producers[p].n))
         && (s.producers[p].PSawNext? ==> s.producers[p].rest == Read(s.next, s.producers[p].n))
       case HeldByConsumer =>
         && s.freeNodes == |free| - (if s.consumer.CPushed? then 1 else 0)
         && (s.consumer.CSawFree? ==> s.consumer.top == s.freeHead)
         && (s.consumer.CLinked? ==> Read(s.next, s.consumer.h) == s.freeHead)
  }

  /** The i-th node of the free list, counted from the bottom, points to the one below. */
  predicate FreeLink(next: seq<Ptr>, free: seq<nat>, i: nat) {
    i < |free| && free[i] < |next| && next[free[i]] == if i == 0 then Null else At(free[i - 1])
  }

  predicate FreeList(next: seq<Ptr>, free: seq<nat>) {
    forall i | 0 <= i < |free| :: FreeLink(next, free, i)
  }

  /** The link from the i-th queued node to the next is stored, or its producer is about to. */
  predicate QueueLink(next: seq<Ptr>, producers: seq<Producer>, v: View, i: nat) {
    && i < |v.nodes| && v.nodes[i] < |next|
    && if i + 1 == |v.nodes| then next[v.nodes[i]] == Null
       else
         && v.nodes[i + 1] < |v.place|
         && match v.place[v.nodes[i + 1]]
            case Linked(_) => next[v.nodes[i]] == At(v.nodes[i + 1])
            case Unlinked(_, p) =>
              next[v.nodes[i]] == Null && p < |producers| && producers[p] == PSwapped(v.nodes[i + 1], At(v.nodes[i]))
            case _ => false
  }

  predicate QueueList(next: seq<Ptr>, producers: seq<Producer>, v: View, removed: nat) {
    forall i | removed <= i < |v.nodes| :: QueueLink(next, producers, v, i)
  }

  /** The consumer has set head to NULL and not repaired it yet. */
  predicate Emptying(c: Consumer) {
    c.CCas? || c.CWait? || c.CRepublish?
  }

  /** `tail` is the newest node; `head` is the oldest, unless its producer or the consumer is
      about to store it. */
  predicate Ends(s: State, v: View, removed: nat) {
    && removed <= |v.nodes|
    && s.tail == (if removed == |v.nodes| then Null else At(v.nodes[|v.nodes| - 1]))
    && if removed == |v.nodes| || Emptying(s.consumer) then s.head == Null
       else
         && v.nodes[removed] < |v.place|
         && match v.place[v.nodes[removed]]
            case Unlinked(_, p) => s.head == Null && p < |s.producers| && s.producers[p] == PSwapped(v.nodes[removed], Null)
            case _ => s.head == At(v.nodes[removed])
  }

  /** The dequeued node still in the consumer's hands. */
  function HeldBy(c: Consumer): Ptr {
    match c
    case CTaken(h) => At(h)
    case CProcessed(h) => At(h)
    case CCleared(h) => At(h)
    case CLocked(h) => At(h)
    case CSawFree(h, _) => At(h)
    case CLinked(h) => At(h)
    case _ => Null
  }

  /** The consumer works on the oldest node of the queue, which is its `h`. */
  predicate Inspecting(c: Consumer) {
    c.CSawHead? || c.CSawNull? || c.CSpin? || c.CAdvance? || c.CLast? || Emptying(c)
  }

  predicate Consuming(c: Consumer, v: View, removed: nat) {
    && (HeldBy(c).At? ==> HeldBy(c).node < |v.place| && v.place[HeldBy(c).node] == Held)
    && (forall n | 0 <= n < |v.place| :: v.place[n].Held? ==> HeldBy(c) == At(n))
    && (Inspecting(c) ==> c.h < |v.place| && v.place[c.h] == Linked(removed))
    && (c.CSpin? || c.CWait? ==> removed + 1 < |v.nodes|)
    && (c.CAdvance? || c.CRepublish? ==> c.nx < |v.place| && v.place[c.nx] == Linked(removed + 1))
  }

  /** The queued nodes carry the messages not yet taken, in order. */
  predicate Carrying(data: seq<Data>, order: seq<Msg>, nodes: seq<nat>, removed: nat) {
    && |order| == |nodes|
    && (forall i | removed <= i < |nodes| :: nodes[i] < |data| && data[nodes[i]] == Holds(order[i]))
  }

  /** What was delivered is a prefix of what was sent, and the dequeued message comes next. */
  predicate Delivering(s: State) {
    && s.delivered <= s.order
    && (s.consumer.CTaken? ==>
          |s.delivered| < |s.order| && s.consumer.h < |s.data| && s.data[s.consumer.h] == Holds(s.order[|s.delivered|]))
  }

  predicate Inv(s: State, v: View) {
    && |s.next| == |s.data| == |v.place|
    && Places(v, Removed(s))
    && Owners(s.producers, v.place)
    && AllPrepared(s)
    && Locking(s, v.free)
    && FreeList(s.next, v.free)
    && QueueList(s.next, s.producers, v, Removed(s))
    && Ends(s, v, Removed(s))
    && Consuming(s.consumer, v, Removed(s))
    && Carrying(s.data, s.order, v.nodes, Removed(s))
    && Delivering(s)
  }

  // ----- The initial state

  function InitView(size: nat): View {
    View([], seq(size, (i: nat) requires i < size => size - 1 - i),
         seq(size, (i: nat) requires i < size => Free(size - 1 - i)))
  }

  lemma InitInv(size: nat, producers: nat)
    requires size > 0
    ensures Inv(Init(size, producers), InitView(size))
  {
    hide Places, Owners, FreeList, QueueList;
    var s, v := Init(size, producers), InitView(size);
    InitPlaces(size);
    InitOwners(producers, v.place);
    InitFree(size);
    InitQueue(s.next, s.producers, v);
  }

  lemma InitPlaces(size: nat)
    ensures Places(InitView(size), 0)
  {
  }

  lemma InitOwners(producers: nat, place: seq<Place>)
    requires forall n | 0 <= n < |place| :: place[n].Free?
    ensures Owners(seq(producers, (_: nat) => PIdle), place)
  {
  }

  lemma InitFree(size: nat)
    ensures FreeList(seq(size, (i: nat) => PtrTo(i + 1, size)), InitView(size).free)
  {
  }

  lemma InitQueue(next: seq<Ptr>, producers: seq<Producer>, v: View)
    requires v.nodes == []
    ensures QueueList(next, producers, v, 0)
  {
  }

  // ----- How the view follows the steps; most steps leave it alone

  function ProducerView(s: State, v: View, p: Tid): View {
    if p >= |s.producers| then v else
    match s.producers[p]
    case PSawNext(_, n, _) =>
      if v.free == [] || n >= |v.place| then v
      else v.(free := v.free[..|v.free| - 1], place := v.place[n := Owned(p)])
    case PReady(n) =>
      if n >= |v.place| then v
      else v.(nodes := v.nodes + [n], place := v.place[n := Unlinked(|v.nodes|, p)])
    case PSwapped(n, _) =>
      if n >= |v.place| || !v.place[n].Unlinked? then v
      else v.(place := v.place[n := Linked(v.place[n].i)])
    case _ => v
  }

  function ConsumerView(s: State, v: View): View {
    match s.consumer
    case CAdvance(h, _) => if h < |v.place| then v.(place := v.place[h := Held]) else v
    case CRepublish(h, _) => if h < |v.place| then v.(place := v.place[h := Held]) else v
    case CCas(h) => if h < |v.place| && s.tail == At(h) then v.(place := v.place[h := Held]) else v
    case CLinked(h) =>
      if h < |v.place| then v.(free := v.free + [h], place := v.place[h := Free(|v.free|)]) else v
    case _ => v
  }

  // ----- What each part depends on

  /** The queue's links depend only on the queued nodes and on the producers about to link. */
  lemma QueueFrame(s: State, t: State, v: View, w: View, removed: nat)
    requires QueueList(s.next, s.producers, v, removed) && Places(v, removed)
    requires |t.next| == |s.next| == |v.place| == |w.place| && |t.producers| == |s.producers| && w.nodes == v.nodes
    requires forall n | 0 <= n < |v.place| && Queued(v.place[n]) :: w.place[n] == v.place[n] && t.next[n] == s.next[n]
    requires forall p | 0 <= p < |s.producers| && s.producers[p].PSwapped? :: t.producers[p] == s.producers[p]
    ensures QueueList(t.next, t.producers, w, removed)
  {
    forall i | removed <= i < |v.nodes| ensures QueueLink(t.next, t.producers, w, i) {
      assert QueueLink(s.next, s.producers, v, i);
      assert Queued(v.place[v.nodes[i]]);
      if i + 1 < |v.nodes| {
        assert Queued(v.place[v.nodes[i + 1]]);
      }
    }
  }

  /** The free list depends only on the free nodes. */
  lemma FreeFrame(s: State, t: State, v: View, removed: nat)
    requires FreeList(s.next, v.free) && Places(v, removed)
    requires |t.next| == |s.next| == |v.place|
    requires forall n | 0 <= n < |v.place| && v.place[n].Free? :: t.next[n] == s.next[n]
    ensures FreeList(t.next, v.free)
  {
    forall i | 0 <= i < |v.free| ensures FreeLink(t.next, v.free, i) {
      assert FreeLink(s.next, v.free, i);
      assert v.place[v.free[i]].Free?;
    }
  }

  /** A producer moves on without gaining, losing or publishing a node. */
  lemma OwnersFrame(producers: seq<Producer>, p: Tid, pr: Producer, place: seq<Place>)
    requires Owners(producers, place) && p < |producers|
    requires OwnedBy(pr) == OwnedBy(producers[p]) && !pr.PSwapped? && !producers[p].PSwapped?
    ensures Owners(producers[p := pr], place)
  {
    var after := producers[p := pr];
    forall q | 0 <= q < |after| ensures OwnsNode(place, q, after[q]) {
      assert OwnsNode(place, q, producers[q]);
    }
    forall n | 0 <= n < |place| ensures HasOwner(after, n, place[n]) {
      assert HasOwner(producers, n, place[n]);
    }
  }

  /** The messages in the queue do not depend on nodes outside it. */
  lemma CarryingFrame(s: State, t: State, v: View, removed: nat)
    requires Carrying(s.data, s.order, v.nodes, removed) && Places(v, removed)
    requires t.order == s.order && |t.data| == |s.data| == |v.place|
    requires forall n | 0 <= n < |v.place| && Queued(v.place[n]) :: t.data[n] == s.data[n]
    ensures Carrying(t.data, t.order, v.nodes, removed)
  {
    forall i | removed <= i < |v.nodes| ensures t.data[v.nodes[i]] == Holds(t.order[i]) {
      assert Queued(v.place[v.nodes[i]]);
    }
  }

  /** The producers' nodes are prepared as before when the step writes no node of theirs. */
  lemma PreparedFrame(s: State, t: State, p: Tid, v: View)
    requires AllPrepared(s) && Owners(s.producers, v.place) && p < |s.producers| == |t.producers|
    requires forall q | 0 <= q < |s.producers| && q != p :: t.producers[q] == s.producers[q]
    requires |t.data| == |s.data| == |t.next| == |s.next| == |v.place|
    requires forall n | 0 <= n < |v.place| && v.place[n].Owned? && v.place[n] != Owned(p) ::
               t.data[n] == s.data[n] && t.next[n] == s.next[n]
    requires Prepared(t, t.producers[p])
    ensures AllPrepared(t)
  {
    forall q | 0 <= q < |t.producers| ensures Prepared(t, t.producers[q]) {
      if q != p {
        assert Prepared(s, s.producers[q]);
        assert OwnsNode(v.place, q, s.producers[q]);
      }
    }
  }

  lemma PreparedByConsumer(s: State, t: State, v: View)
    requires AllPrepared(s) && Owners(s.producers, v.place) && t.producers == s.producers
    requires |t.data| == |s.data| == |t.next| == |s.next| == |v.place|
    requires forall n | 0 <= n < |v.place| && v.place[n].Owned? :: t.data[n] == s.data[n] && t.next[n] == s.next[n]
    ensures AllPrepared(t)
  {
    forall q | 0 <= q < |t.producers| ensures Prepared(t, t.producers[q]) {
      assert Prepared(s, s.producers[q]);
      assert OwnsNode(v.place, q, s.producers[q]);
    }
  }

  /** A step outside the mutex leaves the mutex and the free list to their holder. */
  lemma LockingFrame(s: State, t: State, v: View, removed: nat)
    requires Locking(s, v.free) && Places(v, removed) && Consuming(s.consumer, v, removed)
    requires t.lock == s.lock && t.freeHead == s.freeHead && t.freeNodes == s.freeNodes
    requires |t.producers| == |s.producers| && |t.next| == |s.next| == |v.place|
    requires forall p | 0 <= p < |s.producers| ::
               t.producers[p] == s.producers[p] || (!HoldsLock(s.producers[p]) && !HoldsLock(t.producers[p]))
    requires t.consumer == s.consumer || (!ConsumerLocks(s.consumer) && !ConsumerLocks(t.consumer))
    requires forall n | 0 <= n < |v.place| && (v.place[n].Free? || v.place[n].Held?) :: t.next[n] == s.next[n]
    ensures Locking(t, v.free)
  {
    forall p | 0 <= p < |t.producers| && HoldsLock(t.producers[p]) ensures t.lock == HeldByProducer(p) {
      assert t.producers[p] == s.producers[p];
    }
    if v.free != [] {
      assert v.place[v.free[|v.free| - 1]].Free?;
    }
  }

  /** The node of a producer is marked as its own. */
  lemma Mine(s: State, v: View, p: Tid)
    requires Owners(s.producers, v.place) && p < |s.producers|
    ensures OwnsNode(v.place, p, s.producers[p])
  {
  }

  lemma HeldNode(s: State, v: View)
    requires Consuming(s.consumer, v, Removed(s))
    ensures HeldBy(s.consumer).At? ==> HeldBy(s.consumer).node < |v.place| && v.place[HeldBy(s.consumer).node] == Held
  {
  }
  /** Both ends stay when the oldest and the newest node and their producers do. */
  lemma EndsFrame(s: State, t: State, v: View, w: View, removed: nat)
    requires Ends(s, v, removed) && Places(v, removed)
    requires t.head == s.head && t.tail == s.tail && w.nodes == v.nodes && |w.place| == |v.place|
    requires Emptying(t.consumer) == Emptying(s.consumer) && |t.producers| == |s.producers|
    requires forall n | 0 <= n < |v.place| && Queued(v.place[n]) :: w.place[n] == v.place[n]
    requires forall p | 0 <= p < |s.producers| && s.producers[p].PSwapped? :: t.producers[p] == s.producers[p]
    ensures Ends(t, w, removed)
  {
    if removed < |v.nodes| {
      assert Queued(v.place[v.nodes[removed]]);
    }
  }

  // ----- Producer steps

  /** Taking and releasing the mutex, looking at the free list, counting. */
  lemma ProducerUnderLock(s: State, v: View, p: Tid, m: Msg)
    requires Inv(s, v) && p < |s.producers|
    requires s.producers[p].PIdle? || (HoldsLock(s.producers[p]) && !s.producers[p].PSawNext?)
    ensures Inv(ProducerStep(s, p, m), v)
  {
    hide Places, Owners, AllPrepared, QueueList, FreeList, Ends, Consuming, Carrying;
    var t := ProducerStep(s, p, m);
    QueueFrame(s, t, v, v, Removed(s));
    OwnersFrame(s.producers, p, t.producers[p], v.place);
    PreparedFrame(s, t, p, v);
    EndsFrame(s, t, v, v, Removed(s));
  }

  /** Preparing the node before it is published. */
  lemma ProducerPrepares(s: State, v: View, p: Tid, m: Msg)
    requires Inv(s, v) && p < |s.producers|
    requires s.producers[p].PGot? || s.producers[p].PReset? || s.producers[p].PFilled?
    ensures Inv(ProducerStep(s, p, m), v)
  {
    hide Places, Owners, QueueList, FreeList, Ends, Consuming, Carrying, Locking;
    var t := ProducerStep(s, p, m);
    Mine(s, v, p);
    HeldNode(s, v);
    QueueFrame(s, t, v, v, Removed(s));
    FreeFrame(s, t, v, Removed(s));
    OwnersFrame(s.producers, p, t.producers[p], v.place);
    CarryingFrame(s, t, v, Removed(s));
    PreparedFrame(s, t, p, v);
    LockingFrame(s, t, v, Removed(s));
    EndsFrame(s, t, v, v, Removed(s));
  }

  // Popping a node: it moves from the free list to its producer.

  lemma PlacesPop(v: View, removed: nat, p: Tid)
    requires Places(v, removed) && v.free != []
    ensures var n := v.free[|v.free| - 1];
            Places(v.(free := v.free[..|v.free| - 1], place := v.place[n := Owned(p)]), removed)
  {
  }

  lemma OwnersPop(producers: seq<Producer>, p: Tid, m: Msg, n: nat, place: seq<Place>)
    requires Owners(producers, place) && p < |producers| && n < |place| && place[n].Free?
    requires OwnedBy(producers[p]).Null? && !producers[p].PSwapped?
    ensures Owners(producers[p := PPopped(m, n)], place[n := Owned(p)])
  {
    var after, place' := producers[p := PPopped(m, n)], place[n := Owned(p)];
    forall q | 0 <= q < |after| ensures OwnsNode(place', q, after[q]) {
      assert OwnsNode(place, q, producers[q]);
    }
    forall k | 0 <= k < |place| ensures HasOwner(after, k, place'[k]) {
      assert HasOwner(producers, k, place[k]);
    }
  }

  lemma FreePop(next: seq<Ptr>, free: seq<nat>)
    requires FreeList(next, free) && free != []
    ensures FreeList(next, free[..|free| - 1])
    ensures Read(next, free[|free| - 1]) == Top(free[..|free| - 1])
  {
    var rest := free[..|free| - 1];
    forall i | 0 <= i < |rest| ensures FreeLink(next, rest, i) {
      assert FreeLink(next, free, i);
    }
    assert FreeLink(next, free, |free| - 1);
  }

  /** A node that is neither queued nor held before or after changes its place. */
  lemma ConsumingFrame(c: Consumer, v: View, w: View, removed: nat)
    requires Consuming(c, v, removed) && |w.nodes| >= |v.nodes| && |w.place| == |v.place|
    requires forall n | 0 <= n < |v.place| && (v.place[n].Linked? || v.place[n].Held? || w.place[n].Held?) :: w.place[n] == v.place[n]
    ensures Consuming(c, w, removed)
  {
  }

  lemma ProducerPops(s: State, v: View, p: Tid, m: Msg)
    requires Inv(s, v) && p < |s.producers| && s.producers[p].PSawNext?
    ensures Inv(ProducerStep(s, p, m), ProducerView(s, v, p))
  {
    hide Places, Owners, QueueList, FreeList, Ends, Consuming, Carrying, AllPrepared;
    var t, w := ProducerStep(s, p, m), ProducerView(s, v, p);
    var n := s.producers[p].n;
    FreeTop(v, Removed(s));
    PlacesPop(v, Removed(s), p);
    OwnersPop(s.producers, p, s.producers[p].m, n, v.place);
    PreparedFrame(s, t, p, v);
    FreePop(s.next, v.free);
    QueueFrame(s, t, v, w, Removed(s));
    EndsFrame(s, t, v, w, Removed(s));
    ConsumingFrame(s.consumer, v, w, Removed(s));
  }

  lemma FreeTop(v: View, removed: nat)
    requires Places(v, removed) && v.free != []
    ensures v.free[|v.free| - 1] < |v.place| && v.place[v.free[|v.free| - 1]].Free?
  {
  }

  // Exchanging tail: the node enters the queue, unlinked.

  lemma PlacesSwap(v: View, removed: nat, n: nat, p: Tid)
    requires Places(v, removed) && n < |v.place| && v.place[n].Owned?
    ensures Places(v.(nodes := v.nodes + [n], place := v.place[n := Unlinked(|v.nodes|, p)]), removed)
  {
  }

  lemma OwnersSwap(producers: seq<Producer>, p: Tid, n: nat, prev: Ptr, i: nat, place: seq<Place>)
    requires Owners(producers, place) && p < |producers| && producers[p] == PReady(n) && n < |place|
    ensures Owners(producers[p := PSwapped(n, prev)], place[n := Unlinked(i, p)])
  {
    var after, place' := producers[p := PSwapped(n, prev)], place[n := Unlinked(i, p)];
    forall q | 0 <= q < |after| ensures OwnsNode(place', q, after[q]) {
      assert OwnsNode(place, p, producers[p]);
      assert OwnsNode(place, q, producers[q]);
    }
    forall k | 0 <= k < |place| ensures HasOwner(after, k, place'[k]) {
      assert HasOwner(producers, k, place[k]);
    }
  }

  lemma QueueSwap(s: State, t: State, v: View, w: View, removed: nat, p: Tid, n: nat)
    requires QueueList(s.next, s.producers, v, removed) && Places(v, removed) && Ends(s, v, removed)
    requires p < |s.producers| && s.producers[p] == PReady(n) && n < |v.place| == |s.next| && v.place[n].Owned?
    requires s.next[n] == Null && t.next == s.next && t.producers == s.producers[p := PSwapped(n, s.tail)]
    requires w == v.(nodes := v.nodes + [n], place := v.place[n := Unlinked(|v.nodes|, p)])
    ensures QueueList(t.next, t.producers, w, removed)
  {
    forall i | removed <= i < |w.nodes| ensures QueueLink(t.next, t.producers, w, i) {
      if i < |v.nodes| {
        assert QueueLink(s.next, s.producers, v, i);
        assert Queued(v.place[v.nodes[i]]);
        if i + 1 < |v.nodes| {
          assert Queued(v.place[v.nodes[i + 1]]);
        }
      }
    }
  }

  lemma EndsSwap(s: State, t: State, v: View, w: View, removed: nat, p: Tid, n: nat)
    requires Ends(s, v, removed) && Places(v, removed) && Consuming(s.consumer, v, removed)
    requires p < |s.producers| && s.producers[p] == PReady(n) && n < |v.place| && v.place[n].Owned?
    requires t == s.(tail := At(n), producers := s.producers[p := PSwapped(n, s.tail)], order := t.order)
    requires w == v.(nodes := v.nodes + [n], place := v.place[n := Unlinked(|v.nodes|, p)])
    ensures Ends(t, w, removed)
  {
    if removed < |v.nodes| {
      assert Queued(v.place[v.nodes[removed]]);
    }
  }

  lemma CarryingSwap(s: State, t: State, v: View, removed: nat, n: nat)
    requires Carrying(s.data, s.order, v.nodes, removed) && removed <= |v.nodes|
    requires n < |s.data| && s.data[n].Holds? && t.data == s.data && t.order == s.order + [s.data[n].m]
    ensures Carrying(t.data, t.order, v.nodes + [n], removed)
  {
  }

  lemma ProducerSwaps(s: State, v: View, p: Tid, m: Msg)
    requires Inv(s, v) && p < |s.producers| && s.producers[p].PReady?
    ensures Inv(ProducerStep(s, p, m), ProducerView(s, v, p))
  {
    hide Places, Owners, QueueList, FreeList, Ends, Consuming, Carrying, Locking;
    var t, w := ProducerStep(s, p, m), ProducerView(s, v, p);
    var n := s.producers[p].n;
    Mine(s, v, p);
    PlacesSwap(v, Removed(s), n, p);
    OwnersSwap(s.producers, p, n, s.tail, |v.nodes|, v.place);
    PreparedFrame(s, t, p, v);
    LockingFrame(s, t, v, Removed(s));
    QueueSwap(s, t, v, w, Removed(s), p, n);
    EndsSwap(s, t, v, w, Removed(s), p, n);
    ConsumingFrame(s.consumer, v, w, Removed(s));
    assert Removed(s) <= |v.nodes| by { RemovedBound(v, Removed(s)); }
    CarryingSwap(s, t, v, Removed(s), n);
  }

  lemma RemovedBound(v: View, removed: nat)
    requires Places(v, removed)
    ensures removed <= |v.nodes|
  {
  }

  // Storing the link.

  lemma PlacesLink(v: View, removed: nat, n: nat)
    requires Places(v, removed) && n < |v.place| && v.place[n].Unlinked?
    ensures Places(v.(place := v.place[n := Linked(v.place[n].i)]), removed)
  {
  }

  lemma OwnersLink(producers: seq<Producer>, p: Tid, i: nat, place: seq<Place>)
    requires Owners(producers, place) && p < |producers| && producers[p].PSwapped? && producers[p].n < |place|
    ensures Owners(producers[p := PIdle], place[producers[p].n := Linked(i)])
  {
    var n := producers[p].n;
    var after, place' := producers[p := PIdle], place[n := Linked(i)];
    forall q | 0 <= q < |after| ensures OwnsNode(place', q, after[q]) {
      assert OwnsNode(place, p, producers[p]);
      assert OwnsNode(place, q, producers[q]);
    }
    forall k | 0 <= k < |place| ensures HasOwner(after, k, place'[k]) {
      assert HasOwner(producers, k, place[k]);
    }
  }

  /** The link a producer is about to store: into the node before its own, or into `head`
      when its own node is the oldest. */
  lemma PendingLink(s: State, v: View, p: Tid)
    requires Inv(s, v) && p < |s.producers| && s.producers[p].PSwapped?
    ensures var pr := s.producers[p];
            && pr.n < |v.place| && v.place[pr.n].Unlinked? && v.place[pr.n].p == p
            && var i := v.place[pr.n].i;
            && Removed(s) <= i < |v.nodes| && v.nodes[i] == pr.n
            && if i == Removed(s) then pr.prev == Null && s.head == Null && !Emptying(s.consumer)
               else v.nodes[i - 1] < |v.place| && Queued(v.place[v.nodes[i - 1]]) && pr.prev == At(v.nodes[i - 1])
  {
    hide AllPrepared, Locking, FreeList, Carrying, Delivering;
    Mine(s, v, p);
    var i := v.place[s.producers[p].n].i;
    if i > Removed(s) {
      assert QueueLink(s.next, s.producers, v, i - 1);
    }
  }

  lemma QueueLinked(s: State, t: State, v: View, w: View, removed: nat, p: Tid, i: nat)
    requires QueueList(s.next, s.producers, v, removed) && Places(v, removed)
    requires removed <= i < |v.nodes| && |v.place| == |s.next|
    requires p < |s.producers| && s.producers[p].PSwapped? && s.producers[p].n == v.nodes[i]
    requires v.place[v.nodes[i]] == Unlinked(i, p)
    requires i > removed ==> v.nodes[i - 1] < |s.next|
    requires t.next == if i == removed then s.next else s.next[v.nodes[i - 1] := At(v.nodes[i])]
    requires t.producers == s.producers[p := PIdle]
    requires w == v.(place := v.place[v.nodes[i] := Linked(i)])
    ensures QueueList(t.next, t.producers, w, removed)
  {
    forall k | removed <= k < |w.nodes| ensures QueueLink(t.next, t.producers, w, k) {
      assert QueueLink(s.next, s.producers, v, k);
      assert v.place[v.nodes[k]].i == k;
      if k + 1 < |v.nodes| {
        assert v.place[v.nodes[k + 1]].i == k + 1;
      }
      if i > removed {
        assert v.place[v.nodes[i - 1]].i == i - 1;
      }
    }
  }

  lemma EndsLinked(s: State, t: State, v: View, w: View, removed: nat, p: Tid, i: nat)
    requires Ends(s, v, removed) && Places(v, removed)
    requires removed <= i < |v.nodes| && p < |s.producers| && s.producers[p].PSwapped?
    requires s.producers[p].n == v.nodes[i] && v.place[v.nodes[i]] == Unlinked(i, p)
    requires i == removed ==> !Emptying(s.consumer)
    requires t.tail == s.tail && t.consumer == s.consumer && t.producers == s.producers[p := PIdle]
    requires t.head == if i == removed then At(v.nodes[i]) else s.head
    requires w == v.(place := v.place[v.nodes[i] := Linked(i)])
    ensures Ends(t, w, removed)
  {
    assert v.place[v.nodes[removed]].i == removed;
  }

  lemma ProducerLinks(s: State, v: View, p: Tid, m: Msg)
    requires Inv(s, v) && p < |s.producers| && s.producers[p].PSwapped?
    ensures Inv(ProducerStep(s, p, m), ProducerView(s, v, p))
  {
    hide Places, Owners, QueueList, FreeList, Ends, Consuming, Carrying, Locking, AllPrepared;
    var t, w := ProducerStep(s, p, m), ProducerView(s, v, p);
    PendingLink(s, v, p);
    var n := s.producers[p].n;
    var i := v.place[n].i;
    PlacesLink(v, Removed(s), n);
    OwnersLink(s.producers, p, i, v.place);
    PreparedFrame(s, t, p, v);
    LockingFrame(s, t, v, Removed(s));
    FreeFrame(s, t, v, Removed(s));
    QueueLinked(s, t, v, w, Removed(s), p, i);
    EndsLinked(s, t, v, w, Removed(s), p, i);
    ConsumingFrame(s.consumer, v, w, Removed(s));
  }

  // ----- Consumer steps

  /** What the consumer reads from the oldest node `h`: a link leads to the second oldest, and
      without one, `tail` tells whether there is a second one. */
  lemma OldestNode(s: State, v: View, h: nat)
    requires Places(v, Removed(s)) && QueueList(s.next, s.producers, v, Removed(s)) && Ends(s, v, Removed(s))
    requires h < |v.place| == |s.next| && v.place[h] == Linked(Removed(s))
    ensures Removed(s) < |v.nodes| && v.nodes[Removed(s)] == h
    ensures s.tail != At(h) ==> Removed(s) + 1 < |v.nodes|
    ensures s.tail == At(h) ==> Removed(s) + 1 == |v.nodes|
    ensures s.next[h].At? ==>
              && Removed(s) + 1 < |v.nodes|
              && s.next[h].node == v.nodes[Removed(s) + 1] < |v.place|
              && v.place[s.next[h].node] == Linked(Removed(s) + 1)
    ensures s.head == if Emptying(s.consumer) then Null else At(h)
  {
    assert QueueLink(s.next, s.producers, v, Removed(s));
    if Removed(s) + 1 < |v.nodes| {
      assert v.place[v.nodes[Removed(s) + 1]].i == Removed(s) + 1;
      assert v.place[v.nodes[|v.nodes| - 1]].i == |v.nodes| - 1;
    }
  }

  /** What `head` says when the consumer is not emptying the queue. */
  lemma HeadNode(s: State, v: View)
    requires Places(v, Removed(s)) && Ends(s, v, Removed(s)) && !Emptying(s.consumer) && s.head.At?
    ensures s.head.node < |v.place| && v.place[s.head.node] == Linked(Removed(s))
  {
    assert Queued(v.place[v.nodes[Removed(s)]]);
  }

  predicate Looking(c: Consumer) {
    c.CIdle? || c.CSawHead? || c.CSawNull? || c.CSpin? || c.CLast? || c.CWait?
  }

  /** Nobody is held while the consumer only looks. */
  lemma ConsumingLook(c: Consumer, d: Consumer, v: View, removed: nat)
    requires Consuming(c, v, removed) && HeldBy(c).Null? && HeldBy(d).Null?
    requires Inspecting(d) ==> d.h < |v.place| && v.place[d.h] == Linked(removed)
    requires d.CSpin? || d.CWait? ==> removed + 1 < |v.nodes|
    requires d.CAdvance? || d.CRepublish? ==> d.nx < |v.place| && v.place[d.nx] == Linked(removed + 1)
    ensures Consuming(d, v, removed)
  {
  }

  lemma InspectedNode(s: State, v: View)
    requires Consuming(s.consumer, v, Removed(s)) && Inspecting(s.consumer)
    ensures s.consumer.h < |v.place| && v.place[s.consumer.h] == Linked(Removed(s))
    ensures s.consumer.CSpin? || s.consumer.CWait? ==> Removed(s) + 1 < |v.nodes|
  {
  }

  lemma ConsumerLooks(s: State, v: View)
    requires Inv(s, v) && Looking(s.consumer)
    ensures Inv(ConsumerStep(s), v)
  {
    hide Places, Owners, QueueList, FreeList, Ends, Consuming, Carrying, Locking, AllPrepared;
    var t := ConsumerStep(s);
    if s.consumer.CIdle? {
      if s.head.At? {
        HeadNode(s, v);
      }
    } else {
      InspectedNode(s, v);
      OldestNode(s, v, s.consumer.h);
    }
    ConsumingLook(s.consumer, t.consumer, v, Removed(s));
    LockingFrame(s, t, v, Removed(s));
    PreparedByConsumer(s, t, v);
    if s.consumer.CLast? {
      EndsClear(s, t, v, Removed(s));
    } else {
      EndsFrame(s, t, v, v, Removed(s));
    }
  }

  lemma EndsClear(s: State, t: State, v: View, removed: nat)
    requires Ends(s, v, removed) && Emptying(t.consumer) && t.head == Null && t.tail == s.tail
    ensures Ends(t, v, removed)
  {
  }

  // Removing the oldest node.

  lemma PlacesTake(v: View, removed: nat, h: nat)
    requires Places(v, removed) && h < |v.place| && v.place[h] == Linked(removed)
    ensures Places(v.(place := v.place[h := Held]), removed + 1)
  {
  }

  /** A node that no producer has changes its place. */
  lemma OwnersPlace(producers: seq<Producer>, place: seq<Place>, h: nat, pl: Place)
    requires Owners(producers, place) && h < |place|
    requires !place[h].Owned? && !place[h].Unlinked? && !pl.Owned? && !pl.Unlinked?
    ensures Owners(producers, place[h := pl])
  {
    var place' := place[h := pl];
    forall q | 0 <= q < |producers| ensures OwnsNode(place', q, producers[q]) {
      assert OwnsNode(place, q, producers[q]);
    }
    forall k | 0 <= k < |place'| ensures HasOwner(producers, k, place'[k]) {
      assert HasOwner(producers, k, place[k]);
    }
  }

  lemma QueueTake(next: seq<Ptr>, producers: seq<Producer>, v: View, removed: nat, h: nat)
    requires QueueList(next, producers, v, removed) && Places(v, removed)
    requires h < |v.place| && v.place[h] == Linked(removed)
    ensures QueueList(next, producers, v.(place := v.place[h := Held]), removed + 1)
  {
    var w := v.(place := v.place[h := Held]);
    forall i | removed + 1 <= i < |w.nodes| ensures QueueLink(next, producers, w, i) {
      assert QueueLink(next, producers, v, i);
      if i + 1 < |v.nodes| {
        assert v.place[v.nodes[i + 1]].i == i + 1;
      }
    }
  }

  lemma EndsTake(s: State, t: State, v: View, w: View, removed: nat, h: nat)
    requires Ends(s, v, removed) && Places(v, removed) && h < |v.place| && v.place[h] == Linked(removed)
    requires w == v.(place := v.place[h := Held]) && !Emptying(t.consumer)
    requires if removed + 1 == |v.nodes| then t.head == t.tail == Null
             else t.tail == s.tail && removed + 1 < |v.nodes| && t.head == At(v.nodes[removed + 1])
                  && v.nodes[removed + 1] < |v.place| && v.place[v.nodes[removed + 1]].Linked?
    ensures Ends(t, w, removed + 1)
  {
    if removed + 1 < |v.nodes| {
      assert v.place[v.nodes[removed + 1]].i == removed + 1;
    }
  }

  lemma ConsumingTake(c: Consumer, v: View, removed: nat)
    requires Consuming(c, v, removed) && Inspecting(c)
    ensures Consuming(CTaken(c.h), v.(place := v.place[c.h := Held]), removed + 1)
  {
  }

  lemma ConsumerTakes(s: State, v: View)
    requires Inv(s, v) && (s.consumer.CAdvance? || s.consumer.CCas? || s.consumer.CRepublish?)
    ensures Inv(ConsumerStep(s), ConsumerView(s, v))
  {
    hide Places, Owners, QueueList, FreeList, Ends, Consuming, Locking, AllPrepared;
    var t, w, h := ConsumerStep(s), ConsumerView(s, v), s.consumer.h;
    InspectedNode(s, v);
    OldestNode(s, v, h);
    LockingFrame(s, t, v, Removed(s));
    PreparedByConsumer(s, t, v);
    if s.consumer.CCas? && s.tail != At(h) {
      ConsumingLook(s.consumer, t.consumer, v, Removed(s));
      EndsFrame(s, t, v, v, Removed(s));
    } else {
      if !s.consumer.CCas? {
        NextNode(s, v);
      }
      PlacesTake(v, Removed(s), h);
      OwnersPlace(s.producers, v.place, h, Held);
      QueueTake(s.next, s.producers, v, Removed(s), h);
      EndsTake(s, t, v, w, Removed(s), h);
      ConsumingTake(s.consumer, v, Removed(s));
    }
  }

  lemma NextNode(s: State, v: View)
    requires Consuming(s.consumer, v, Removed(s)) && (s.consumer.CAdvance? || s.consumer.CRepublish?)
    requires Places(v, Removed(s))
    ensures var nx := s.consumer.nx;
            && nx < |v.place| && v.place[nx] == Linked(Removed(s) + 1)
            && Removed(s) + 1 < |v.nodes| && v.nodes[Removed(s) + 1] == nx
  {
  }

  // Handing the message over and returning the node.

  lemma ConsumingHeld(c: Consumer, d: Consumer, v: View, removed: nat)
    requires Consuming(c, v, removed) && HeldBy(d) == HeldBy(c) && HeldBy(c).At?
    ensures Consuming(d, v, removed)
  {
  }

  /** No node outside the consumer's hands is written. */
  lemma DisposesFrame(s: State, v: View)
    requires |s.next| == |s.data| == |v.place| && Consuming(s.consumer, v, Removed(s))
    requires HeldBy(s.consumer).At? && !s.consumer.CLinked?
    ensures var t := ConsumerStep(s);
            && |t.next| == |s.next| && |t.data| == |s.data| && t.producers == s.producers && t.order == s.order
            && t.head == s.head && t.tail == s.tail && HeldBy(t.consumer) == HeldBy(s.consumer)
            && (forall n | 0 <= n < |v.place| && !v.place[n].Held? :: t.next[n] == s.next[n] && t.data[n] == s.data[n])
            && (s.consumer.CTaken? || Removed(t) == Removed(s)) && (s.consumer.CTaken? ==> Removed(t) == |s.delivered| + 1)
  {
  }

  lemma ConsumerDisposes(s: State, v: View)
    requires Inv(s, v) && HeldBy(s.consumer).At? && !s.consumer.CLinked?
    ensures Inv(ConsumerStep(s), v)
  {
    hide Places, Owners, QueueList, FreeList, Ends, Consuming, AllPrepared, Carrying, Locking, Delivering, ConsumerStep;
    var t := ConsumerStep(s);
    DisposesFrame(s, v);
    QueueFrame(s, t, v, v, Removed(s));
    FreeFrame(s, t, v, Removed(s));
    PreparedByConsumer(s, t, v);
    EndsFrame(s, t, v, v, Removed(s));
    ConsumingHeld(s.consumer, t.consumer, v, Removed(s));
    CarryingFrame(s, t, v, Removed(s));
    DisposesLocking(s, v);
    DisposesDelivering(s, v);
  }

  lemma DisposesLocking(s: State, v: View)
    requires Locking(s, v.free) && HeldBy(s.consumer).At? && !s.consumer.CLinked?
    requires HeldBy(s.consumer).node < |s.next|
    ensures Locking(ConsumerStep(s), v.free)
  {
  }

  lemma DisposesDelivering(s: State, v: View)
    requires Delivering(s) && HeldBy(s.consumer).At? && !s.consumer.CLinked?
    ensures Delivering(ConsumerStep(s))
  {
  }

  lemma PlacesPush(v: View, removed: nat, h: nat)
    requires Places(v, removed) && h < |v.place| && v.place[h].Held?
    ensures Places(v.(free := v.free + [h], place := v.place[h := Free(|v.free|)]), removed)
  {
  }

  lemma FreePush(next: seq<Ptr>, free: seq<nat>, h: nat)
    requires FreeList(next, free) && h < |next| && next[h] == Top(free)
    ensures FreeList(next, free + [h])
  {
    var more := free + [h];
    forall i | 0 <= i < |more| ensures FreeLink(next, more, i) {
      if i < |free| {
        assert FreeLink(next, free, i);
      }
    }
  }

  lemma ConsumerPushes(s: State, v: View)
    requires Inv(s, v) && s.consumer.CLinked?
    ensures Inv(ConsumerStep(s), ConsumerView(s, v))
  {
    hide Places, Owners, QueueList, FreeList, Ends, Carrying, AllPrepared;
    var t, w, h := ConsumerStep(s), ConsumerView(s, v), s.consumer.h;
    PlacesPush(v, Removed(s), h);
    OwnersPlace(s.producers, v.place, h, Free(|v.free|));
    PreparedByConsumer(s, t, v);
    FreePush(s.next, v.free, h);
    QueueFrame(s, t, v, w, Removed(s));
    EndsFrame(s, t, v, w, Removed(s));
  }

  lemma ConsumerReleases(s: State, v: View)
    requires Inv(s, v) && (s.consumer.CPushed? || s.consumer.CCounted?)
    ensures Inv(ConsumerStep(s), v)
  {
    hide Places, Owners, QueueList, FreeList, Ends, Carrying, AllPrepared, Consuming;
    var t := ConsumerStep(s);
    PreparedByConsumer(s, t, v);
    EndsFrame(s, t, v, v, Removed(s));
    ConsumingLook(s.consumer, t.consumer, v, Removed(s));
  }

  // ----- Every step

  function NextView(s: State, v: View, a: Action): View {
    match a
    case Produce(p, _) => ProducerView(s, v, p)
    case Consume => ConsumerView(s, v)
  }

  /** The invariant is inductive. */
  lemma StepInv(s: State, v: View, a: Action)
    requires Inv(s, v)
    ensures Inv(Step(s, a), NextView(s, v, a))
  {
    hide Inv;
    match a
    case Produce(p, m) =>
      if p < |s.producers| {
        match s.producers[p]
        case PSawNext(_, _, _) => ProducerPops(s, v, p, m);
        case PReady(_) => ProducerSwaps(s, v, p, m);
        case PSwapped(_, _) => ProducerLinks(s, v, p, m);
        case PGot(_, _) => ProducerPrepares(s, v, p, m);
        case PReset(_, _) => ProducerPrepares(s, v, p, m);
        case PFilled(_) => ProducerPrepares(s, v, p, m);
        case _ => ProducerUnderLock(s, v, p, m);
      }
    case Consume =>
      match s.consumer
      case CAdvance(_, _) => ConsumerTakes(s, v);
      case CCas(_) => ConsumerTakes(s, v);
      case CRepublish(_, _) => ConsumerTakes(s, v);
      case CLinked(_) => ConsumerPushes(s, v);
      case CPushed => ConsumerReleases(s, v);
      case CCounted => ConsumerReleases(s, v);
      case _ => if Looking(s.consumer) { ConsumerLooks(s, v); } else { ConsumerDisposes(s, v); }
  }

  function RunView(size: nat, producers: nat, acts: seq<Action>): View
    requires size > 0
  {
    if acts == [] then InitView(size)
    else
      var before := acts[..|acts| - 1];
      NextView(Run(Init(size, producers), before), RunView(size, producers, before), acts[|acts| - 1])
  }

  /** Every state of every run satisfies the invariant. */
  lemma {:induction false} RunInv(size: nat, producers: nat, acts: seq<Action>)
    requires size > 0
    ensures Inv(Run(Init(size, producers), acts), RunView(size, producers, acts))
  {
    hide Inv;
    if acts == [] {
      InitInv(size, producers);
    } else {
      var before := acts[..|acts| - 1];
      RunInv(size, producers, before);
      StepInv(Run(Init(size, producers), before), RunView(size, producers, before), acts[|acts| - 1]);
    }
  }
}
