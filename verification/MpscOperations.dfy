/** What a send and a receive achieve: the messages of `order` are those the senders were given, and a
    thread that nobody disturbs completes its operation. */
module MpscOperations {
  import opened Common
  import opened Mpsc
  import opened MpscInvariant
  import opened MpscTheorems

  // ----- What is queued is what was sent

  /** The message producer p is sending, before its exchange of `tail`. */
  function Bears(s: State, p: Tid): Option<Msg> {
    if p >= |s.producers| then None else
    match s.producers[p]
    case PIdle => None
    case PSwapped(_, _) => None
    case PFilled(n) => Some(Message(s, n))
    case PReady(n) => Some(Message(s, n))
    case pr => Some(pr.m)
  }

  /** Nobody but p changes the message p is sending; p takes it from the step that begins the send, and
      its exchange puts it at the end of `order`. */
  lemma BearsStep(s: State, v: View, a: Action, p: Tid)
    requires Inv(s, v) && p < |s.producers|
    ensures var t := Step(s, a);
            && |t.producers| == |s.producers|
            && (!(a.Produce? && a.p == p) ==> t.producers[p] == s.producers[p] && Bears(t, p) == Bears(s, p))
            && (a.Produce? && a.p == p && s.producers[p].PIdle? && !t.producers[p].PIdle? ==>
                  t.producers[p] == PLocked(a.m))
            && (a.Produce? && a.p == p && Bears(s, p).Some? ==>
                  || Bears(t, p) == Bears(s, p) || t.producers[p].PIdle?
                  || (s.producers[p].PReady? && t.producers[p].PSwapped? && t.order == s.order + [Bears(s, p).value]))
            && (a.Produce? && a.p == p && s.producers[p].PReady? ==> t.order == s.order + [Bears(s, p).value])
            && (a.Produce? && a.p == p && s.producers[p].PSwapped? ==> t.producers[p].PIdle?)
  {
    hide Places, Locking, FreeList, QueueList, Ends, Carrying, Delivering;
    Mine(s, v, p);
    if a.Produce? && a.p < |s.producers| {
      Mine(s, v, a.p);
    } else if a.Consume? && HeldBy(s.consumer).At? {
      HeldNode(s, v);
    }
  }

  /** `order` grows by exchanges only. */
  lemma OrderStep(s: State, a: Action)
    ensures var t := Step(s, a);
            || t.order == s.order
            || (a.Produce? && a.p < |s.producers| && s.producers[a.p].PReady? && |t.order| == |s.order| + 1 && s.order <= t.order)
  {
  }

  /** Producer p began a send of m with step j and has not been idle since. */
  predicate Began(size: nat, producers: nat, acts: seq<Action>, p: Tid, m: Msg, j: nat)
    requires size > 0
  {
    && j < |acts| && acts[j] == Produce(p, m) && p < producers
    && InPhase(size, producers, acts[..j], p, PIdle) && InPhase(size, producers, acts[..j + 1], p, PLocked(m))
    && forall l | j < l <= |acts| :: !InPhase(size, producers, acts[..l], p, PIdle)
  }

  predicate InPhase(size: nat, producers: nat, acts: seq<Action>, p: Tid, pr: Producer)
    requires size > 0
  {
    var s := After(size, producers, acts); p < |s.producers| && s.producers[p] == pr
  }

  lemma BeganLonger(size: nat, producers: nat, acts: seq<Action>, a: Action, p: Tid, m: Msg, j: nat)
    requires size > 0 && Began(size, producers, acts, p, m, j) && !InPhase(size, producers, acts + [a], p, PIdle)
    ensures Began(size, producers, acts + [a], p, m, j)
  {
    hide InPhase;
    var all := acts + [a];
    assert forall l | 0 <= l <= |acts| :: all[..l] == acts[..l];
    assert all[..|all|] == all;
  }

  lemma {:induction false} ProducerCount(size: nat, producers: nat, acts: seq<Action>)
    requires size > 0
    ensures |After(size, producers, acts).producers| == producers
  {
    if acts != [] {
      ProducerCount(size, producers, acts[..|acts| - 1]);
    }
  }

  /** Whoever is sending a message was given it by the step that began the send. */
  lemma {:induction false} BearsWhatBegan(size: nat, producers: nat, acts: seq<Action>, p: Tid) returns (j: nat)
    requires size > 0 && Bears(After(size, producers, acts), p).Some?
    ensures Began(size, producers, acts, p, Bears(After(size, producers, acts), p).value, j)
  {
    hide Inv, Step, Began;
    assert acts != [] by { NobodyAtFirst(size, producers, p); }
    var before, a := acts[..|acts| - 1], acts[|acts| - 1];
    var s, t := After(size, producers, before), After(size, producers, acts);
    assert acts == before + [a];
    RunInv(size, producers, before);
    ProducerCount(size, producers, before);
    ProducerCount(size, producers, acts);
    BearsStep(s, RunView(size, producers, before), a, p);
    if Bears(s, p).Some? {
      j := BearsWhatBegan(size, producers, before, p);
      BeganLonger(size, producers, before, a, p, Bears(s, p).value, j);
    } else {
      j := |before|;
      BeginsNow(size, producers, before, a, p);
    }
  }

  lemma NobodyAtFirst(size: nat, producers: nat, p: Tid)
    requires size > 0
    ensures Bears(After(size, producers, []), p).None?
  {
  }

  lemma BeginsNow(size: nat, producers: nat, before: seq<Action>, a: Action, p: Tid)
    requires size > 0 && p < producers && a.Produce? && a.p == p
    requires InPhase(size, producers, before, p, PIdle) && InPhase(size, producers, before + [a], p, PLocked(a.m))
    ensures Began(size, producers, before + [a], p, a.m, |before|)
  {
    hide Run, Init;
    var all := before + [a];
    assert all[..|before|] == before && all[..|before| + 1] == all;
  }

  /** Producer p sent message m as the i-th: it began with step j of the schedule, which gave it m, was
      not idle in between, and exchanged `tail` with step k. */
  predicate Sent(size: nat, producers: nat, acts: seq<Action>, i: nat, p: Tid, m: Msg, j: nat, k: nat)
    requires size > 0
  {
    && j < k < |acts| && Began(size, producers, acts[..k], p, m, j)
    && acts[k].Produce? && acts[k].p == p
    && |After(size, producers, acts[..k]).order| == i
    && After(size, producers, acts[..k + 1]).order == After(size, producers, acts[..k]).order + [m]
  }

  /** Every message of `order` is the one its sender was given, in every interleaving. */
  lemma {:induction false} OrderIsSent(size: nat, producers: nat, acts: seq<Action>, i: nat) returns (p: Tid, j: nat, k: nat)
    requires size > 0 && i < |After(size, producers, acts).order|
    ensures Sent(size, producers, acts, i, p, After(size, producers, acts).order[i], j, k)
  {
    hide Inv, Step, Began, Sent;
    assert acts != [] by { NothingAtFirst(size, producers); }
    var before, a := acts[..|acts| - 1], acts[|acts| - 1];
    var s := After(size, producers, before);
    assert acts == before + [a];
    OrderStep(s, a);
    if i < |s.order| {
      p, j, k := OrderIsSent(size, producers, before, i);
      SentLonger(size, producers, before, a, i, p, s.order[i], j, k);
    } else {
      p, k := a.p, |before|;
      RunInv(size, producers, before);
      BearsStep(s, RunView(size, producers, before), a, p);
      assert Bears(s, p).Some? by { ReadyBears(s, p); }
      j := BearsWhatBegan(size, producers, before, p);
      SentNow(size, producers, before, a, p, Bears(s, p).value, j);
    }
  }

  lemma NothingAtFirst(size: nat, producers: nat)
    requires size > 0
    ensures After(size, producers, []).order == []
  {
  }

  lemma ReadyBears(s: State, p: Tid)
    requires p < |s.producers| && s.producers[p].PReady?
    ensures Bears(s, p).Some?
  {
  }

  lemma SentLonger(size: nat, producers: nat, before: seq<Action>, a: Action, i: nat, p: Tid, m: Msg, j: nat, k: nat)
    requires size > 0 && Sent(size, producers, before, i, p, m, j, k)
    ensures Sent(size, producers, before + [a], i, p, m, j, k)
  {
    hide Began, Run;
    var all := before + [a];
    assert all[..k] == before[..k] && all[..k + 1] == before[..k + 1] && all[k] == before[k];
  }

  lemma SentNow(size: nat, producers: nat, before: seq<Action>, a: Action, p: Tid, m: Msg, j: nat)
    requires size > 0 && Began(size, producers, before, p, m, j) && a.Produce? && a.p == p
    requires After(size, producers, before + [a]).order == After(size, producers, before).order + [m]
    ensures Sent(size, producers, before + [a], |After(size, producers, before).order|, p, m, j, |before|)
  {
    hide Run;
    var all := before + [a];
    assert all[..|before|] == before && all[..|before| + 1] == all;
  }

  // ----- A send by itself

  /** k steps of producer p and of nobody else. */
  function Sending(s: State, p: Tid, m: Msg, k: nat): State {
    if k == 0 then s else ProducerStep(Sending(s, p, m, k - 1), p, m)
  }

  /** With the mutex free and a node in the pool, eleven steps of its own take a producer through a whole
      send: its message is the newest, one node fewer is free, and nobody else has moved. */
  lemma SendAlone(size: nat, producers: nat, acts: seq<Action>, p: Tid, m: Msg)
    requires size > 0
    requires var s := After(size, producers, acts);
             p < |s.producers| && s.producers[p].PIdle? && s.lock == Unlocked && s.freeHead.At?
    ensures var s := After(size, producers, acts);
            var t := Sending(s, p, m, 11);
            && t.order == s.order + [m] && t.delivered == s.delivered
            && t.producers == s.producers && t.consumer == s.consumer
            && t.lock == Unlocked && t.freeNodes == s.freeNodes - 1 && t.tail == s.freeHead
            && t.head == (if s.tail.Null? then s.freeHead else s.head)
  {
    hide Run;
    var s, v := After(size, producers, acts), RunView(size, producers, acts);
    RunInv(size, producers, acts);
    PoolTop(s, v);
    SendSteps(s, p, m, s.freeHead.node);
  }

  lemma PoolTop(s: State, v: View)
    requires Inv(s, v) && s.freeHead.At?
    ensures s.freeHead.node < |s.data| == |s.next|
  {
    hide Owners, AllPrepared, QueueList, Ends, Consuming, Carrying, Delivering, FreeList;
    assert v.place[v.free[|v.free| - 1]].Free?;
  }

  /** Getting a node from the pool. */
  lemma GetSteps(s: State, p: Tid, m: Msg, n: nat)
    requires p < |s.producers| && s.producers[p].PIdle? && s.lock == Unlocked && s.freeHead == At(n) && n < |s.next|
    ensures Sending(s, p, m, 6) == s.(freeHead := s.next[n], freeNodes := s.freeNodes - 1, producers := s.producers[p := PGot(m, n)])
    ensures forall j | 0 <= j <= 6 :: Unpublished(Sending(s, p, m, j), p)
  {
    hide Sending;
    SendingNext(s, p, m, 0);
    var s1 := s.(lock := HeldByProducer(p), producers := s.producers[p := PLocked(m)]);
    assert Sending(s, p, m, 1) == s1;
    var s2 := s1.(producers := s.producers[p := PSawHead(m, n)]);
    assert Sending(s, p, m, 2) == s2 by { SendingNext(s, p, m, 1); }
    var s3 := s1.(producers := s.producers[p := PSawNext(m, n, s.next[n])]);
    assert Sending(s, p, m, 3) == s3 by { SendingNext(s, p, m, 2); }
    var s4 := s1.(freeHead := s.next[n], producers := s.producers[p := PPopped(m, n)]);
    assert Sending(s, p, m, 4) == s4 by { SendingNext(s, p, m, 3); }
    var s5 := s4.(freeNodes := s.freeNodes - 1, producers := s.producers[p := PCounted(m, n)]);
    assert Sending(s, p, m, 5) == s5 by { SendingNext(s, p, m, 4); }
    SendingNext(s, p, m, 5);
    forall j | 0 <= j <= 6 ensures Unpublished(Sending(s, p, m, j), p) {
      assert j == 0 || j == 1 || j == 2 || j == 3 || j == 4 || j == 5 || j == 6;
    }
  }

  /** Before its exchange of `tail`. */
  predicate Unpublished(s: State, p: Tid) {
    p < |s.producers| && !s.producers[p].PSwapped?
  }

  /** Filling it and putting it on the queue. */
  lemma PublishSteps(s: State, p: Tid, m: Msg, n: nat)
    requires p < |s.producers| && s.producers[p] == PGot(m, n) && n < |s.data| == |s.next|
    ensures forall j | 0 <= j <= 3 :: Unpublished(Sending(s, p, m, j), p)
    ensures Sending(s, p, m, 4).producers == s.producers[p := PSwapped(n, s.tail)]
    ensures var t := Sending(s, p, m, 5);
            && t.order == s.order + [m] && t.delivered == s.delivered
            && t.producers == s.producers[p := PIdle] && t.consumer == s.consumer
            && t.lock == s.lock && t.freeHead == s.freeHead && t.freeNodes == s.freeNodes && t.tail == At(n)
            && t.head == (if s.tail.Null? then At(n) else s.head)
  {
    hide Sending;
    SendingNext(s, p, m, 0);
    var s1 := s.(data := s.data[n := Empty], next := s.next[n := Null], producers := s.producers[p := PReset(m, n)]);
    assert Sending(s, p, m, 1) == s1;
    var s2 := s1.(data := s1.data[n := Holds(m)], producers := s.producers[p := PFilled(n)]);
    assert Sending(s, p, m, 2) == s2 by { SendingNext(s, p, m, 1); }
    var s3 := s2.(next := s2.next[n := Null], producers := s.producers[p := PReady(n)]);
    assert Sending(s, p, m, 3) == s3 by { SendingNext(s, p, m, 2); }
    var s4 := s3.(tail := At(n), producers := s.producers[p := PSwapped(n, s.tail)], order := s.order + [m]);
    assert Sending(s, p, m, 4) == s4 by { SendingNext(s, p, m, 3); }
    SendingNext(s, p, m, 4);
    forall j | 0 <= j <= 3 ensures Unpublished(Sending(s, p, m, j), p) {
      assert j == 0 || j == 1 || j == 2 || j == 3;
    }
  }

  lemma SendSteps(s: State, p: Tid, m: Msg, n: nat)
    requires p < |s.producers| && s.producers[p].PIdle? && s.lock == Unlocked && s.freeHead == At(n)
    requires n < |s.data| == |s.next|
    ensures forall j | 0 <= j < 10 :: Unpublished(Sending(s, p, m, j), p)
    ensures Sending(s, p, m, 10).producers == s.producers[p := PSwapped(n, s.tail)]
    ensures var t := Sending(s, p, m, 11);
            && t.order == s.order + [m] && t.delivered == s.delivered
            && t.producers == s.producers && t.consumer == s.consumer
            && t.lock == Unlocked && t.freeNodes == s.freeNodes - 1 && t.tail == s.freeHead
            && t.head == (if s.tail.Null? then s.freeHead else s.head)
  {
    hide Sending, ProducerStep, Unpublished;
    GetSteps(s, p, m, n);
    var t := Sending(s, p, m, 6);
    PublishSteps(t, p, m, n);
    forall j | 0 <= j < 10 ensures Unpublished(Sending(s, p, m, j), p) {
      if j > 6 {
        SendingSplit(s, p, m, 6, j - 6);
        assert 6 + (j - 6) == j;
      }
    }
    SendingSplit(s, p, m, 6, 4);
    SendingSplit(s, p, m, 6, 5);
    assert t.producers[p := PIdle] == s.producers;
    assert t.producers[p := PSwapped(n, s.tail)] == s.producers[p := PSwapped(n, s.tail)];
  }

  lemma {:induction false} SendingSplit(s: State, p: Tid, m: Msg, j: nat, k: nat)
    ensures Sending(s, p, m, j + k) == Sending(Sending(s, p, m, j), p, m, k)
  {
    hide ProducerStep;
    if k > 0 {
      SendingSplit(s, p, m, j, k - 1);
    }
  }

  lemma SendingNext(s: State, p: Tid, m: Msg, k: nat)
    ensures Sending(s, p, m, k + 1) == ProducerStep(Sending(s, p, m, k), p, m) && Sending(s, p, m, 0) == s
  {
  }

  /** With the pool empty the send is given up, and nothing has changed. */
  lemma SendRefused(s: State, p: Tid, m: Msg)
    requires p < |s.producers| && s.producers[p].PIdle? && s.lock == Unlocked && s.freeHead.Null?
    ensures Sending(s, p, m, 2) == s
  {
    SendingNext(s, p, m, 0);
    SendingNext(s, p, m, 1);
    assert Sending(s, p, m, 1) == s.(lock := HeldByProducer(p), producers := s.producers[p := PLocked(m)]);
    assert s.producers[p := PIdle] == s.producers;
  }

  // ----- A receive by itself

  lemma AloneNext(s: State, k: nat)
    ensures Alone(s, k + 1) == ConsumerStep(Alone(s, k)) && Alone(s, 0) == s
  {
  }

  lemma {:induction false} AloneSplit(s: State, j: nat, k: nat)
    ensures Alone(s, j + k) == Alone(Alone(s, j), k)
  {
    hide ConsumerStep;
    if k > 0 {
      AloneSplit(s, j, k - 1);
    }
  }

  /** The consumer has taken a message, handed it over and given its node back. */
  predicate Received(s: State, t: State, h: nat) {
    && t.delivered == s.delivered + [Message(s, h)] && t.order == s.order
    && t.producers == s.producers && t.consumer.CIdle?
    && t.lock == Unlocked && t.freeNodes == s.freeNodes + 1 && t.freeHead == At(h) && Read(t.next, h) == s.freeHead
    && h < |t.data| && t.data[h] == Empty
  }

  /** Until then it is not idle, and its last step is the release of the mutex. */
  predicate Busy(s: State, k: nat) {
    k > 0 && forall j | 0 <= j < k :: BusyAt(Alone(s, j).consumer, j, k)
  }

  predicate BusyAt(c: Consumer, j: nat, k: nat) {
    (j > 0 ==> !c.CIdle?) && (c.CCounted? <==> j == k - 1)
  }

  lemma ReturnSteps(s: State, h: nat)
    requires s.consumer == CTaken(h) && s.lock == Unlocked && h < |s.next| == |s.data|
    ensures Received(s, Alone(s, 8), h) && Busy(s, 8)
  {
    hide Alone, Received, Busy;
    var t := s.(consumer := CCleared(h), delivered := s.delivered + [Message(s, h)], data := s.data[h := Empty]);
    HandOver(s, h);
    Release(t, h);
    var u := Alone(t, 6);
    AloneSplit(s, 2, 1);
    AloneSplit(s, 2, 2);
    AloneSplit(s, 2, 3);
    AloneSplit(s, 2, 4);
    AloneSplit(s, 2, 5);
    AloneSplit(s, 2, 6);
    assert Received(s, u, h) by { GivenBack(s, t, u, h); }
    AloneNext(s, 0);
    BusyEight(s);
  }

  lemma HandOver(s: State, h: nat)
    requires s.consumer == CTaken(h) && h < |s.data|
    ensures Alone(s, 1).consumer == CProcessed(h)
    ensures Alone(s, 2) == s.(consumer := CCleared(h), delivered := s.delivered + [Message(s, h)], data := s.data[h := Empty])
  {
    assert Alone(s, 1) == s.(consumer := CProcessed(h), delivered := s.delivered + [Message(s, h)]);
  }

  lemma Release(s: State, h: nat)
    requires s.consumer == CCleared(h) && s.lock == Unlocked && h < |s.next|
    ensures Alone(s, 1).consumer == CLocked(h) && Alone(s, 2).consumer == CSawFree(h, s.freeHead)
    ensures Alone(s, 3).consumer == CLinked(h) && Alone(s, 4).consumer == CPushed && Alone(s, 5).consumer == CCounted
    ensures Alone(s, 6) == s.(next := s.next[h := s.freeHead], freeHead := At(h), freeNodes := s.freeNodes + 1, consumer := CIdle)
  {
    hide Alone, ConsumerStep;
    LinkBack(s, h);
    var t := Alone(s, 3);
    PutBack(t, h);
    AloneSplit(s, 3, 1);
    AloneSplit(s, 3, 2);
    AloneSplit(s, 3, 3);
  }

  lemma LinkBack(s: State, h: nat)
    requires s.consumer == CCleared(h) && s.lock == Unlocked && h < |s.next|
    ensures Alone(s, 1).consumer == CLocked(h) && Alone(s, 2).consumer == CSawFree(h, s.freeHead)
    ensures Alone(s, 3) == s.(lock := HeldByConsumer, next := s.next[h := s.freeHead], consumer := CLinked(h))
  {
    assert Alone(s, 1) == s.(lock := HeldByConsumer, consumer := CLocked(h));
    assert Alone(s, 2) == s.(lock := HeldByConsumer, consumer := CSawFree(h, s.freeHead));
  }

  lemma PutBack(s: State, h: nat)
    requires s.consumer == CLinked(h)
    ensures Alone(s, 1).consumer == CPushed && Alone(s, 2).consumer == CCounted
    ensures Alone(s, 3) == s.(lock := Unlocked, freeHead := At(h), freeNodes := s.freeNodes + 1, consumer := CIdle)
  {
    assert Alone(s, 1) == s.(freeHead := At(h), consumer := CPushed);
    assert Alone(s, 2) == s.(freeHead := At(h), freeNodes := s.freeNodes + 1, consumer := CCounted);
  }

  lemma GivenBack(s: State, t: State, u: State, h: nat)
    requires s.lock == Unlocked && h < |s.next|
    requires h < |s.data| && t == s.(consumer := t.consumer, delivered := s.delivered + [Message(s, h)], data := s.data[h := Empty])
    requires u == t.(next := s.next[h := s.freeHead], freeHead := At(h), freeNodes := s.freeNodes + 1, consumer := CIdle)
    ensures Received(s, u, h)
  {
  }

  lemma BusyEight(s: State)
    requires Alone(s, 0).consumer.CTaken? && Alone(s, 1).consumer.CProcessed? && Alone(s, 2).consumer.CCleared?
    requires Alone(s, 3).consumer.CLocked? && Alone(s, 4).consumer.CSawFree? && Alone(s, 5).consumer.CLinked?
    requires Alone(s, 6).consumer.CPushed? && Alone(s, 7).consumer.CCounted?
    ensures Busy(s, 8)
  {
    hide Alone;
    forall j | 0 <= j < 8 ensures BusyAt(Alone(s, j).consumer, j, 8) {
      assert j == 0 || j == 1 || j == 2 || j == 3 || j == 4 || j == 5 || j == 6 || j == 7;
    }
  }

  /** From the start of a dequeue to the node in hand. */
  lemma TakeSteps(s: State, v: View) returns (k: nat)
    requires Inv(s, v) && s.consumer.CIdle? && NoneHalfway(s) && s.delivered != s.order
    ensures |s.delivered| < |s.order| && s.head.At? && s.head.node < |s.next| == |s.data|
    ensures Message(s, s.head.node) == s.order[|s.delivered|] && 3 <= k <= 5
    ensures var t := Alone(s, k);
            t == s.(head := t.head, tail := t.tail, consumer := CTaken(s.head.node))
    ensures forall j | 0 < j <= k :: !Alone(s, j).consumer.CIdle? && !Alone(s, j).consumer.CCounted?
  {
    hide AllPrepared, Locking, FreeList, Consuming, QueueList, Alone;
    var n := |s.delivered|;
    var h := v.nodes[n];
    OldestIsHead(s, v);
    OldestNode(s, v, h);
    if s.next[h].At? {
      k := 3;
      TakeAdvancing(s, h);
    } else {
      k := 5;
      OldestIsLast(s, v);
      TakeEmptying(s, h);
    }
  }

  lemma TakeAdvancing(s: State, h: nat)
    requires s.consumer.CIdle? && s.head == At(h) && Read(s.next, h).At?
    ensures Alone(s, 1).consumer.CSawHead? && Alone(s, 2).consumer.CAdvance?
    ensures Alone(s, 3) == s.(head := s.next[h], consumer := CTaken(h))
  {
    assert Alone(s, 1) == s.(consumer := CSawHead(h));
    assert Alone(s, 2) == s.(consumer := CAdvance(h, s.next[h].node));
  }

  lemma TakeEmptying(s: State, h: nat)
    requires s.consumer.CIdle? && s.head == At(h) == s.tail && Read(s.next, h) == Null
    ensures Alone(s, 1).consumer.CSawHead? && Alone(s, 2).consumer.CSawNull? && Alone(s, 3).consumer.CLast?
    ensures Alone(s, 4).consumer.CCas? && Alone(s, 5) == s.(head := Null, tail := Null, consumer := CTaken(h))
  {
    assert Alone(s, 1) == s.(consumer := CSawHead(h));
    assert Alone(s, 2) == s.(consumer := CSawNull(h));
    assert Alone(s, 3) == s.(consumer := CLast(h));
    assert Alone(s, 4) == s.(head := Null, consumer := CCas(h));
  }

  /** With no producer halfway and something to deliver, the consumer needs nobody else: four to six of
      its own steps from the start of a dequeue deliver exactly the next message. */
  lemma DequeueAlone(size: nat, producers: nat, acts: seq<Action>)
    requires size > 0
    requires var s := After(size, producers, acts);
             s.consumer.CIdle? && NoneHalfway(s) && s.delivered != s.order
    ensures var s := After(size, producers, acts);
            |s.delivered| < |s.order| &&
            exists k | 4 <= k <= 6 :: Alone(s, k).delivered == s.delivered + [s.order[|s.delivered|]]
  {
    hide Run, Inv, NoneHalfway, Alone;
    var s := After(size, producers, acts);
    RunInv(size, producers, acts);
    var j := TakeSteps(s, RunView(size, producers, acts));
    AloneNext(s, j);
    assert Alone(s, j + 1).delivered == s.delivered + [s.order[|s.delivered|]];
  }

  /** With no producer halfway, the mutex free and something to deliver, the consumer's own steps deliver
      exactly the next message and put its node back on top of the free list. */
  lemma ReceiveAlone(s: State, v: View) returns (k: nat)
    requires Inv(s, v) && s.consumer.CIdle? && NoneHalfway(s) && s.delivered != s.order && s.lock == Unlocked
    ensures |s.delivered| < |s.order| && s.head.At? && Message(s, s.head.node) == s.order[|s.delivered|]
    ensures Received(s, Alone(s, k), s.head.node) && Busy(s, k)
  {
    hide Inv, Received, Busy, Alone, NoneHalfway;
    var j := TakeSteps(s, v);
    var h, t := s.head.node, Alone(s, j);
    ReturnSteps(t, h);
    k := j + 8;
    AloneSplit(s, j, 8);
    SameReceived(s, t, Alone(t, 8), h);
    BusyLonger(s, j);
  }

  lemma SameReceived(s: State, t: State, u: State, h: nat)
    requires t == s.(head := t.head, tail := t.tail, consumer := t.consumer) && Received(t, u, h)
    ensures Received(s, u, h)
  {
  }

  lemma BusyLonger(s: State, j: nat)
    requires 0 < j && Busy(Alone(s, j), 8) && s.consumer.CIdle?
    requires forall i | 0 < i <= j :: !Alone(s, i).consumer.CIdle? && !Alone(s, i).consumer.CCounted?
    ensures Busy(s, j + 8)
  {
    hide Alone, ConsumerStep;
    AloneNext(s, 0);
    forall i | 0 <= i < j + 8 ensures BusyAt(Alone(s, i).consumer, i, j + 8) {
      if i > j {
        BusyLater(s, Alone(s, j), j, i);
      }
    }
  }

  lemma BusyLater(s: State, t: State, j: nat, i: nat)
    requires t == Alone(s, j) && Busy(t, 8) && j < i < j + 8
    ensures BusyAt(Alone(s, i).consumer, i, j + 8)
  {
    hide Alone, ConsumerStep;
    AloneSplit(s, j, i - j);
    var d := i - j;
    assert BusyAt(Alone(t, d).consumer, d, 8);
  }

  /** The same as a statement about runs. */
  lemma DequeueReturns(size: nat, producers: nat, acts: seq<Action>) returns (k: nat)
    requires size > 0
    requires var s := After(size, producers, acts);
             s.consumer.CIdle? && NoneHalfway(s) && s.delivered != s.order && s.lock == Unlocked
    ensures var s := After(size, producers, acts);
            && |s.delivered| < |s.order| && s.head.At?
            && Alone(s, k).delivered == s.delivered + [s.order[|s.delivered|]] && Alone(s, k).consumer.CIdle?
            && Alone(s, k).lock == Unlocked && Alone(s, k).freeNodes == s.freeNodes + 1 && Alone(s, k).freeHead == s.head
  {
    hide Run, Inv, Busy, NoneHalfway, Alone;
    RunInv(size, producers, acts);
    k := ReceiveAlone(After(size, producers, acts), RunView(size, producers, acts));
  }
}
