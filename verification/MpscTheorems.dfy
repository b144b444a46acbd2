/** What the queue guarantees in every state of every run, stated on the raw pointers. */
module MpscTheorems {
  import opened Common
  import opened Mpsc
  import opened MpscInvariant

  function After(size: nat, producers: nat, acts: seq<Action>): State
    requires size > 0
  {
    Run(Init(size, producers), acts)
  }

  /** No producer is between its exchange of `tail` and its link. */
  predicate NoneHalfway(s: State) {
    forall p | 0 <= p < |s.producers| :: !s.producers[p].PSwapped?
  }

  // ----- Order and loss

  /** The messages delivered are a prefix of the messages in the order of the exchanges:
      nothing is lost in between, repeated or reordered. */
  lemma DeliveredInOrder(size: nat, producers: nat, acts: seq<Action>)
    requires size > 0
    ensures var s := After(size, producers, acts); s.delivered <= s.order
  {
    RunInv(size, producers, acts);
  }

  /** With no producer halfway, dequeue finds `head` NULL only if everything was delivered. */
  lemma NullMeansAllDelivered(size: nat, producers: nat, acts: seq<Action>)
    requires size > 0
    ensures var s := After(size, producers, acts);
            s.consumer.CIdle? && s.head == Null && NoneHalfway(s) ==> s.delivered == s.order
  {
    RunInv(size, producers, acts);
  }

  function Alone(s: State, k: nat): State {
    if k == 0 then s else ConsumerStep(Alone(s, k - 1))
  }

  lemma OldestIsHead(s: State, v: View)
    requires Inv(s, v) && s.consumer.CIdle? && NoneHalfway(s) && |s.delivered| < |v.nodes|
    ensures var h := v.nodes[|s.delivered|];
            h < |v.place| && s.head == At(h) && v.place[h] == Linked(|s.delivered|)
  {
    hide AllPrepared, Locking, FreeList, Consuming, QueueList, Carrying, Delivering;
    var h := v.nodes[|s.delivered|];
    assert Queued(v.place[h]);
    assert HasOwner(s.producers, h, v.place[h]);
  }

  lemma OldestIsLast(s: State, v: View)
    requires Inv(s, v) && s.consumer.CIdle? && NoneHalfway(s) && |s.delivered| < |v.nodes|
    requires Read(s.next, v.nodes[|s.delivered|]) == Null
    ensures s.tail == At(v.nodes[|s.delivered|])
  {
    hide AllPrepared, Locking, FreeList, Consuming, Carrying, Delivering;
    assert QueueLink(s.next, s.producers, v, |s.delivered|);
  }

  /** Both spin loops wait for a link that some producer is about to store, and one step of
      that producer ends the wait. */
  lemma SpinsAwaitAProducer(size: nat, producers: nat, acts: seq<Action>, m: Msg)
    requires size > 0
    requires var s := After(size, producers, acts);
             (s.consumer.CSpin? || s.consumer.CWait?) && Read(s.next, s.consumer.h) == Null
    ensures var s := After(size, producers, acts);
            exists p | 0 <= p < |s.producers| ::
              && s.producers[p].PSwapped? && s.producers[p].prev == At(s.consumer.h)
              && Read(Step(s, Produce(p, m)).next, s.consumer.h).At?
  {
    var s, v := After(size, producers, acts), RunView(size, producers, acts);
    RunInv(size, producers, acts);
    SpinWitness(s, v, m);
  }

  lemma SpinWitness(s: State, v: View, m: Msg)
    requires Inv(s, v) && (s.consumer.CSpin? || s.consumer.CWait?) && Read(s.next, s.consumer.h) == Null
    ensures exists p | 0 <= p < |s.producers| ::
              && s.producers[p].PSwapped? && s.producers[p].prev == At(s.consumer.h)
              && Read(Step(s, Produce(p, m)).next, s.consumer.h).At?
  {
    hide AllPrepared, Locking, FreeList, Carrying, Delivering, Owners;
    InspectedNode(s, v);
    OldestNode(s, v, s.consumer.h);
    assert QueueLink(s.next, s.producers, v, Removed(s));
    var p := v.place[v.nodes[Removed(s) + 1]].p;
    assert s.producers[p].PSwapped? && s.producers[p].prev == At(s.consumer.h);
    assert Read(Step(s, Produce(p, m)).next, s.consumer.h).At?;
  }

  // ----- Nodes

  /** Following `next` k times. */
  function Walk(next: seq<Ptr>, from: Ptr, k: nat): Ptr {
    if k == 0 then from
    else match Walk(next, from, k - 1) case Null => Null case At(n) => Read(next, n)
  }

  ghost predicate Leads(next: seq<Ptr>, from: Ptr, n: nat) {
    exists k: nat :: Walk(next, from, k) == At(n)
  }

  /** A pointer from which the queue is traversed: `head`, the node being replaced as the last
      one, or a node whose link is still to be stored. */
  predicate Root(s: State, r: Ptr) {
    || r == s.head
    || (Emptying(s.consumer) && r == At(s.consumer.h))
    || exists p | 0 <= p < |s.producers| :: s.producers[p].PSwapped? && r == At(s.producers[p].n)
  }

  ghost predicate OnFreeList(s: State, n: nat) {
    Leads(s.next, s.freeHead, n)
  }

  ghost predicate OnQueue(s: State, n: nat) {
    exists r :: Root(s, r) && Leads(s.next, r, n)
  }

  predicate WithProducer(s: State, n: nat) {
    exists p | 0 <= p < |s.producers| :: OwnedBy(s.producers[p]) == At(n)
  }

  predicate WithConsumer(s: State, n: nat) {
    HeldBy(s.consumer) == At(n)
  }

  lemma {:induction false} FreeWalk(s: State, v: View, k: nat)
    requires FreeList(s.next, v.free) && s.freeHead == Top(v.free)
    ensures Walk(s.next, s.freeHead, k) == if k < |v.free| then At(v.free[|v.free| - 1 - k]) else Null
  {
    if k > 0 {
      FreeWalk(s, v, k - 1);
      if k - 1 < |v.free| {
        assert FreeLink(s.next, v.free, |v.free| - k);
      }
    }
  }

  lemma FreeIffListed(s: State, v: View, n: nat)
    requires Inv(s, v) && n < |v.place|
    ensures OnFreeList(s, n) <==> v.place[n].Free?
  {
    hide Owners, AllPrepared, QueueList, Ends, Consuming, Carrying, Delivering;
    if v.place[n].Free? {
      var k := |v.free| - 1 - v.place[n].i;
      FreeWalk(s, v, k);
      assert Walk(s.next, s.freeHead, k) == At(n);
    }
    if OnFreeList(s, n) {
      var k: nat :| Walk(s.next, s.freeHead, k) == At(n);
      FreeWalk(s, v, k);
    }
  }

  lemma {:induction false} QueueWalk(s: State, v: View, r: Ptr, k: nat)
    requires Places(v, Removed(s)) && QueueList(s.next, s.producers, v, Removed(s))
    requires r.At? ==> r.node < |v.place| && Queued(v.place[r.node])
    ensures var w := Walk(s.next, r, k); w.At? ==> w.node < |v.place| && Queued(v.place[w.node])
  {
    if k > 0 {
      QueueWalk(s, v, r, k - 1);
      var w := Walk(s.next, r, k - 1);
      if w.At? {
        assert QueueLink(s.next, s.producers, v, v.place[w.node].i);
      }
    }
  }

  lemma RootIsQueued(s: State, v: View, r: Ptr)
    requires Inv(s, v) && Root(s, r) && r.At?
    ensures r.node < |v.place| && Queued(v.place[r.node])
  {
    hide AllPrepared, Locking, FreeList, Carrying, Delivering;
    if Emptying(s.consumer) && r == At(s.consumer.h) {
      InspectedNode(s, v);
    } else if r == s.head {
      HeadNode(s, v);
    } else {
      var p :| 0 <= p < |s.producers| && s.producers[p].PSwapped? && r == At(s.producers[p].n);
      Mine(s, v, p);
    }
  }

  lemma {:induction false} QueuedIsReached(s: State, v: View, i: nat)
    requires Inv(s, v) && Removed(s) <= i < |v.nodes|
    ensures OnQueue(s, v.nodes[i])
  {
    hide AllPrepared, Locking, FreeList, Carrying, Delivering;
    var n := v.nodes[i];
    assert Queued(v.place[n]);
    if v.place[n].Unlinked? {
      assert HasOwner(s.producers, n, v.place[n]);
      assert Root(s, At(n));
      assert Walk(s.next, At(n), 0) == At(n);
    } else if i == Removed(s) {
      if Emptying(s.consumer) {
        InspectedNode(s, v);
        OldestNode(s, v, s.consumer.h);
      }
      assert Root(s, At(n));
      assert Walk(s.next, At(n), 0) == At(n);
    } else {
      QueuedIsReached(s, v, i - 1);
      var r :| Root(s, r) && Leads(s.next, r, v.nodes[i - 1]);
      var k: nat :| Walk(s.next, r, k) == At(v.nodes[i - 1]);
      assert QueueLink(s.next, s.producers, v, i - 1);
      assert Walk(s.next, r, k + 1) == At(n);
    }
  }

  lemma QueuedIffReached(s: State, v: View, n: nat)
    requires Inv(s, v) && n < |v.place|
    ensures OnQueue(s, n) <==> Queued(v.place[n])
  {
    hide AllPrepared, Locking, FreeList, Carrying, Delivering, Ends, Consuming, Owners, Root;
    if Queued(v.place[n]) {
      QueuedIsReached(s, v, v.place[n].i);
    }
    if OnQueue(s, n) {
      var r :| Root(s, r) && Leads(s.next, r, n);
      var k: nat :| Walk(s.next, r, k) == At(n);
      if r.At? {
        RootIsQueued(s, v, r);
      }
      QueueWalk(s, v, r, k);
    }
  }

  lemma OwnedIffPlaced(s: State, v: View, n: nat)
    requires Inv(s, v) && n < |v.place|
    ensures WithProducer(s, n) <==> v.place[n].Owned?
    ensures WithConsumer(s, n) <==> v.place[n].Held?
    ensures forall p, q | 0 <= p < q < |s.producers| ::
              !(OwnedBy(s.producers[p]) == At(n) && OwnedBy(s.producers[q]) == At(n))
  {
    hide Places, AllPrepared, Locking, FreeList, Carrying, Delivering, Ends, QueueList;
    assert HasOwner(s.producers, n, v.place[n]);
    forall p | 0 <= p < |s.producers| && OwnedBy(s.producers[p]) == At(n) ensures v.place[n] == Owned(p) {
      assert OwnsNode(v.place, p, s.producers[p]);
    }
  }

  /** Every node of the pool is in exactly one place -- free list, queue, a producer's hands,
      the consumer's hands -- and in the hands of at most one producer. */
  lemma EveryNodeInOnePlace(size: nat, producers: nat, acts: seq<Action>, n: nat)
    requires 0 < size && n < size
    ensures var s := After(size, producers, acts);
            && One(OnFreeList(s, n)) + One(OnQueue(s, n)) + One(WithProducer(s, n)) + One(WithConsumer(s, n)) == 1
            && forall p, q | 0 <= p < q < |s.producers| ::
                 !(OwnedBy(s.producers[p]) == At(n) && OwnedBy(s.producers[q]) == At(n))
  {
    hide Inv, OnFreeList, OnQueue, WithProducer, WithConsumer;
    var s, v := After(size, producers, acts), RunView(size, producers, acts);
    RunInv(size, producers, acts);
    PoolSize(size, producers, acts);
    FreeIffListed(s, v, n);
    QueuedIffReached(s, v, n);
    OwnedIffPlaced(s, v, n);
  }

  lemma StepSize(s: State, v: View, a: Action)
    ensures |Step(s, a).next| == |s.next| && |NextView(s, v, a).place| == |v.place|
  {
  }

  lemma {:induction false} PoolSize(size: nat, producers: nat, acts: seq<Action>)
    requires size > 0
    ensures |RunView(size, producers, acts).place| == size
    ensures |After(size, producers, acts).next| == size
  {
    hide Step, NextView;
    if acts != [] {
      var before := acts[..|acts| - 1];
      PoolSize(size, producers, before);
      StepSize(After(size, producers, before), RunView(size, producers, before), acts[|acts| - 1]);
    }
  }

  /** Whenever the mutex is free, `free_nodes` is the length of the free list. */
  lemma FreeNodesIsLength(size: nat, producers: nat, acts: seq<Action>)
    requires size > 0
    ensures var s := After(size, producers, acts);
            s.lock == Unlocked ==>
              && s.freeNodes >= 0
              && (forall k: nat | k < s.freeNodes :: Walk(s.next, s.freeHead, k).At?)
              && Walk(s.next, s.freeHead, s.freeNodes) == Null
  {
    var s, v := After(size, producers, acts), RunView(size, producers, acts);
    RunInv(size, producers, acts);
    forall k: nat ensures Walk(s.next, s.freeHead, k) == if k < |v.free| then At(v.free[|v.free| - 1 - k]) else Null {
      FreeWalk(s, v, k);
    }
  }

  /** A link still to be stored goes into a node of the queue -- never into one that went back
      to the free list or changed hands -- and that node has no link yet. */
  lemma PendingLinkHitsTheQueue(size: nat, producers: nat, acts: seq<Action>, p: Tid)
    requires size > 0
    requires var s := After(size, producers, acts);
             p < |s.producers| && s.producers[p].PSwapped? && s.producers[p].prev.At?
    ensures var s := After(size, producers, acts);
            var q := s.producers[p].prev.node;
            q < size && Read(s.next, q) == Null && OnQueue(s, q) && !OnFreeList(s, q) && !WithProducer(s, q) && !WithConsumer(s, q)
  {
    hide OnFreeList, OnQueue, WithProducer, WithConsumer;
    var s, v := After(size, producers, acts), RunView(size, producers, acts);
    RunInv(size, producers, acts);
    PoolSize(size, producers, acts);
    PendingLink(s, v, p);
    var q := s.producers[p].prev.node;
    PendingTarget(s, v, p);
    FreeIffListed(s, v, q);
    QueuedIffReached(s, v, q);
    OwnedIffPlaced(s, v, q);
  }

  lemma PendingTarget(s: State, v: View, p: Tid)
    requires Inv(s, v) && p < |s.producers| && s.producers[p].PSwapped? && s.producers[p].prev.At?
    ensures var q := s.producers[p].prev.node;
            q < |v.place| && Queued(v.place[q]) && s.next[q] == Null
  {
    hide AllPrepared, Locking, FreeList, Carrying, Delivering, Owners, Consuming;
    PendingLink(s, v, p);
    assert QueueLink(s.next, s.producers, v, v.place[s.producers[p].n].i - 1);
  }
}
