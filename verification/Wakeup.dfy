/** The event thread's wakeup: senders enqueue a message and then write the thread's eventfd, which is
    registered edge-triggered; the thread reads the eventfd empty and then takes messages off the queue
    until there are none. On top of the queue's own steps. */
module Wakeup {
  import Mpsc
  import MpscInvariant
  import MpscOperations
  import MpscTheorems

  type Tid = nat

  const BATCH := 256
  const TIMEOUT_BATCH := 10

  /** Where the event thread stands. */
  datatype Loop =
    | Outside                  // in epoll_wait, or with other descriptors
    | Reading                  // woken: reading the eventfd until it is empty
    | Draining(batch: nat)     // taking messages; so many in this batch
    | Polling(left: nat)       // after a timeout: at most so many more

  /** `owes` marks the senders that have enqueued and not yet written the eventfd; `edge` an event that
      epoll_wait has not reported yet. */
  datatype State = State(mpsc: Mpsc.State, owes: seq<bool>, counter: nat, edge: bool, loop: Loop)

  datatype Action =
    | Produce(p: Tid, m: Mpsc.Msg)
    | Notify(p: Tid)
    | Wake
    | Timeout
    | Proceed

  function Init(size: nat, producers: nat): State
    requires size > 0
  {
    State(Mpsc.Init(size, producers), seq(producers, _ => false), 0, false, Outside)
  }

  /** epoll_wait will report the eventfd. */
  predicate WakePending(s: State) {
    s.edge && s.counter > 0
  }

  /** A sender owes its write until it has made it, and sends nothing else before. */
  function ProduceStep(s: State, p: Tid, m: Mpsc.Msg): State {
    if p >= |s.owes| || p >= |s.mpsc.producers| || s.owes[p] then s
    else s.(mpsc := Mpsc.Step(s.mpsc, Mpsc.Produce(p, m)), owes := s.owes[p := s.mpsc.producers[p].PSwapped?])
  }

  /** The queue is found empty, or the consumer takes its next step; a message is done with when its node
      has gone back to the pool. */
  function ProceedStep(s: State): State {
    match s.loop
    case Outside => s
    case Reading => if s.counter > 0 then s.(counter := 0) else s.(loop := Draining(0))
    case Draining(batch) =>
      if s.mpsc.consumer.CIdle? && s.mpsc.head == Mpsc.Null then
        s.(loop := if batch > 0 then Draining(0) else Outside)
      else
        s.(mpsc := Mpsc.Step(s.mpsc, Mpsc.Consume),
           loop := if s.mpsc.consumer.CCounted? then Draining(if batch + 1 < BATCH then batch + 1 else 0) else s.loop)
    case Polling(left) =>
      if s.mpsc.consumer.CIdle? && (left == 0 || s.mpsc.head == Mpsc.Null) then s.(loop := Outside)
      else
        s.(mpsc := Mpsc.Step(s.mpsc, Mpsc.Consume),
           loop := if s.mpsc.consumer.CCounted? && left > 0 then Polling(left - 1) else s.loop)
  }

  function Step(s: State, a: Action): State {
    match a
    case Produce(p, m) => ProduceStep(s, p, m)
    case Notify(p) =>
      if p < |s.owes| && s.owes[p] then s.(counter := s.counter + 1, edge := true, owes := s.owes[p := false]) else s
    case Wake => if s.loop.Outside? && WakePending(s) then s.(edge := false, loop := Reading) else s
    case Timeout => if s.loop.Outside? && !WakePending(s) then s.(loop := Polling(TIMEOUT_BATCH)) else s
    case Proceed => ProceedStep(s)
  }

  function Run(s: State, acts: seq<Action>): State {
    if acts == [] then s else Step(Run(s, acts[..|acts| - 1]), acts[|acts| - 1])
  }

  /** Some sender has exchanged `tail` and not yet written the eventfd. */
  predicate Owing(producers: seq<Mpsc.Producer>, owes: seq<bool>) {
    exists p | 0 <= p < |owes| && p < |producers| :: producers[p].PSwapped? || owes[p]
  }

  predicate AllDelivered(s: Mpsc.State) {
    s.delivered == s.order
  }

  /** Unless the thread is on its way to an empty queue, undelivered messages are announced. */
  predicate Inv(s: State) {
    && |s.owes| == |s.mpsc.producers|
    && (forall p | 0 <= p < |s.owes| :: s.owes[p] ==> s.mpsc.producers[p].PIdle?)
    && (s.loop.Outside? || s.loop.Reading? ==> s.mpsc.consumer.CIdle?)
    && (s.loop.Outside? || s.loop.Polling? ==> WakePending(s) || Owing(s.mpsc.producers, s.owes) || AllDelivered(s.mpsc))
  }

  // ----- What the queue's steps do to this

  /** No producer step delivers; one that adds to the order leaves its producer halfway. */
  lemma ProducerEffect(s: Mpsc.State, p: Tid, m: Mpsc.Msg)
    requires p < |s.producers|
    ensures var u := Mpsc.ProducerStep(s, p, m);
            && |u.producers| == |s.producers| && u.delivered == s.delivered && u.consumer == s.consumer
            && (forall q | 0 <= q < |s.producers| && q != p :: u.producers[q] == s.producers[q])
            && (u.order != s.order ==> u.producers[p].PSwapped?)
            && (s.producers[p].PSwapped? ==> u.producers[p].PIdle? && u.order == s.order)
  {
  }

  lemma ConsumerEffect(s: Mpsc.State)
    ensures var u := Mpsc.ConsumerStep(s);
            u.producers == s.producers && u.order == s.order && (!s.consumer.CTaken? ==> u.delivered == s.delivered)
  {
  }

  lemma EmptyIsDelivered(s: Mpsc.State, v: MpscInvariant.View)
    requires MpscInvariant.Inv(s, v) && s.consumer.CIdle? && s.head == Mpsc.Null
    requires forall p | 0 <= p < |s.producers| :: !s.producers[p].PSwapped?
    ensures AllDelivered(s)
  {
  }

  /** The consumer never delivers more than there is. */
  lemma Prefix(s: Mpsc.State, v: MpscInvariant.View)
    requires MpscInvariant.Inv(s, v)
    ensures s.delivered <= s.order
  {
  }

  // ----- Every step keeps it

  lemma ProduceInv(s: State, p: Tid, m: Mpsc.Msg)
    requires Inv(s)
    ensures Inv(ProduceStep(s, p, m))
  {
    hide Mpsc.ProducerStep;
    var u := ProduceStep(s, p, m);
    if p < |s.owes| && !s.owes[p] {
      ProducerEffect(s.mpsc, p, m);
      if Owing(s.mpsc.producers, s.owes) {
        var q :| 0 <= q < |s.owes| && q < |s.mpsc.producers| && (s.mpsc.producers[q].PSwapped? || s.owes[q]);
        assert u.mpsc.producers[q].PSwapped? || u.owes[q];
      }
      if u.mpsc.order != s.mpsc.order {
        assert u.mpsc.producers[p].PSwapped?;
      }
    }
  }

  lemma NotifyInv(s: State, p: Tid)
    requires Inv(s)
    ensures Inv(Step(s, Notify(p)))
  {
  }

  /** Leaving the loop with an empty queue: all is delivered, or some sender will still announce its message. */
  lemma EmptyAnnounced(s: State, v: MpscInvariant.View)
    requires Inv(s) && MpscInvariant.Inv(s.mpsc, v) && s.mpsc.consumer.CIdle? && s.mpsc.head == Mpsc.Null
    ensures Owing(s.mpsc.producers, s.owes) || AllDelivered(s.mpsc)
  {
    hide MpscInvariant.Inv;
    if !Owing(s.mpsc.producers, s.owes) {
      EmptyIsDelivered(s.mpsc, v);
    }
  }

  lemma ConsumeKeeps(s: State, v: MpscInvariant.View)
    requires MpscInvariant.Inv(s.mpsc, v)
    ensures AllDelivered(s.mpsc) ==> AllDelivered(Mpsc.Step(s.mpsc, Mpsc.Consume))
  {
    hide MpscInvariant.Inv, Mpsc.ConsumerStep;
    ConsumerEffect(s.mpsc);
    MpscInvariant.StepInv(s.mpsc, v, Mpsc.Consume);
    Prefix(Mpsc.Step(s.mpsc, Mpsc.Consume), MpscInvariant.NextView(s.mpsc, v, Mpsc.Consume));
    Grows(s.mpsc);
  }

  lemma Grows(s: Mpsc.State)
    ensures s.delivered <= Mpsc.ConsumerStep(s).delivered
  {
  }

  lemma ProceedInv(s: State, v: MpscInvariant.View)
    requires Inv(s) && MpscInvariant.Inv(s.mpsc, v)
    ensures Inv(ProceedStep(s))
  {
    hide MpscInvariant.Inv, Mpsc.ConsumerStep, Owing, AllDelivered;
    ConsumerEffect(s.mpsc);
    ConsumeKeeps(s, v);
    if s.mpsc.consumer.CIdle? && s.mpsc.head == Mpsc.Null {
      EmptyAnnounced(s, v);
    }
  }

  /** The invariant is inductive, along with the queue's own. */
  lemma StepInv(s: State, v: MpscInvariant.View, a: Action) returns (v': MpscInvariant.View)
    requires Inv(s) && MpscInvariant.Inv(s.mpsc, v)
    ensures Inv(Step(s, a)) && MpscInvariant.Inv(Step(s, a).mpsc, v')
  {
    hide Inv, MpscInvariant.Inv, Mpsc.Step;
    v' := v;
    match a
    case Produce(p, m) =>
      ProduceInv(s, p, m);
      if Step(s, a).mpsc != s.mpsc {
        MpscInvariant.StepInv(s.mpsc, v, Mpsc.Produce(p, m));
        v' := MpscInvariant.NextView(s.mpsc, v, Mpsc.Produce(p, m));
      }
    case Notify(p) => NotifyInv(s, p);
    case Wake => WakeInv(s);
    case Timeout => TimeoutInv(s);
    case Proceed =>
      ProceedInv(s, v);
      if Step(s, a).mpsc != s.mpsc {
        MpscInvariant.StepInv(s.mpsc, v, Mpsc.Consume);
        v' := MpscInvariant.NextView(s.mpsc, v, Mpsc.Consume);
      }
  }

  lemma WakeInv(s: State)
    requires Inv(s)
    ensures Inv(Step(s, Wake))
  {
  }

  lemma TimeoutInv(s: State)
    requires Inv(s)
    ensures Inv(Step(s, Timeout))
  {
  }

  lemma {:induction false} RunInv(size: nat, producers: nat, acts: seq<Action>) returns (v: MpscInvariant.View)
    requires size > 0
    ensures Inv(Run(Init(size, producers), acts)) && MpscInvariant.Inv(Run(Init(size, producers), acts).mpsc, v)
  {
    hide Inv, MpscInvariant.Inv, Step;
    if acts == [] {
      InitInv(size, producers);
      MpscInvariant.InitInv(size, producers);
      v := MpscInvariant.InitView(size);
    } else {
      v := RunInv(size, producers, acts[..|acts| - 1]);
      v := StepInv(Run(Init(size, producers), acts[..|acts| - 1]), v, acts[|acts| - 1]);
    }
  }

  lemma InitInv(size: nat, producers: nat)
    requires size > 0
    ensures Inv(Init(size, producers))
  {
  }

  /** No message is stranded: while the event thread waits with a message not delivered, a wakeup is
      pending or some sender has yet to link its message or to write the eventfd. */
  lemma NoMessageStranded(size: nat, producers: nat, acts: seq<Action>)
    requires size > 0
    ensures var s := Run(Init(size, producers), acts);
            s.loop.Outside? && s.mpsc.delivered != s.mpsc.order ==>
              WakePending(s) || exists p | 0 <= p < |s.owes| && p < |s.mpsc.producers| :: s.mpsc.producers[p].PSwapped? || s.owes[p]
  {
    hide Run, Init, MpscInvariant.Inv;
    var v := RunInv(size, producers, acts);
  }

  // ----- An event thread that nobody disturbs

  /** k steps of the event thread and of nobody else. */
  function Own(s: State, k: nat): State {
    if k == 0 then s else ProceedStep(Own(s, k - 1))
  }

  lemma OwnNext(s: State, k: nat)
    ensures Own(s, k + 1) == ProceedStep(Own(s, k)) && Own(s, 0) == s
  {
  }

  lemma {:induction false} OwnSplit(s: State, j: nat, k: nat)
    ensures Own(s, j + k) == Own(Own(s, j), k)
  {
    hide ProceedStep;
    if k > 0 {
      OwnSplit(s, j, k - 1);
    }
  }

  /** No sender is halfway, and the mutex is free. */
  predicate Undisturbed(s: Mpsc.State) {
    MpscTheorems.NoneHalfway(s) && s.lock == Mpsc.Unlocked
  }

  /** The loop after one more message. */
  function Counted(loop: Loop): Loop {
    match loop
    case Draining(batch) => Draining(if batch + 1 < BATCH then batch + 1 else 0)
    case Polling(left) => if left > 0 then Polling(left - 1) else loop
    case _ => loop
  }

  predicate Taking(loop: Loop) {
    loop.Draining? || (loop.Polling? && loop.left > 0)
  }

  /** In the middle of a message the loop takes the consumer's steps. */
  lemma {:induction false} Follows(s: State, k: nat, j: nat)
    requires Taking(s.loop) && s.mpsc.consumer.CIdle? && s.mpsc.head.At? && MpscOperations.Busy(s.mpsc, k) && j < k
    ensures Own(s, j) == s.(mpsc := MpscTheorems.Alone(s.mpsc, j))
  {
    hide Mpsc.ConsumerStep, MpscTheorems.Alone;
    MpscOperations.AloneNext(s.mpsc, 0);
    if j > 0 {
      Follows(s, k, j - 1);
      MpscOperations.AloneNext(s.mpsc, j - 1);
      assert MpscOperations.BusyAt(MpscTheorems.Alone(s.mpsc, j - 1).consumer, j - 1, k);
    }
  }

  lemma {:induction false} AloneInv(s: Mpsc.State, v: MpscInvariant.View, k: nat) returns (v': MpscInvariant.View)
    requires MpscInvariant.Inv(s, v)
    ensures MpscInvariant.Inv(MpscTheorems.Alone(s, k), v')
  {
    hide MpscInvariant.Inv, Mpsc.ConsumerStep;
    v' := v;
    if k > 0 {
      v' := AloneInv(s, v, k - 1);
      var t := MpscTheorems.Alone(s, k - 1);
      MpscInvariant.StepInv(t, v', Mpsc.Consume);
      v' := MpscInvariant.NextView(t, v', Mpsc.Consume);
    }
  }

  /** One message: the next one is delivered, and the loop is back where it looks for more. */
  lemma TakesOne(s: State, v: MpscInvariant.View) returns (k: nat, v': MpscInvariant.View)
    requires MpscInvariant.Inv(s.mpsc, v) && Taking(s.loop)
    requires s.mpsc.consumer.CIdle? && Undisturbed(s.mpsc) && !AllDelivered(s.mpsc)
    ensures |s.mpsc.delivered| < |s.mpsc.order|
    ensures var t := Own(s, k);
            && t == s.(mpsc := t.mpsc, loop := Counted(s.loop)) && MpscInvariant.Inv(t.mpsc, v')
            && t.mpsc.consumer.CIdle? && Undisturbed(t.mpsc) && t.mpsc.order == s.mpsc.order
            && t.mpsc.delivered == s.mpsc.delivered + [s.mpsc.order[|s.mpsc.delivered|]]
  {
    hide Mpsc.ConsumerStep, MpscTheorems.Alone, MpscInvariant.Inv, Own, MpscTheorems.NoneHalfway;
    k := MpscOperations.ReceiveAlone(s.mpsc, v);
    v' := AloneInv(s.mpsc, v, k);
    Follows(s, k, k - 1);
    OwnNext(s, k - 1);
    MpscOperations.AloneNext(s.mpsc, k - 1);
    assert MpscOperations.BusyAt(MpscTheorems.Alone(s.mpsc, k - 1).consumer, k - 1, k);
    LastStep(Own(s, k - 1));
    SameProducers(s.mpsc, MpscTheorems.Alone(s.mpsc, k));
  }

  lemma LastStep(s: State)
    requires Taking(s.loop) && s.mpsc.consumer.CCounted?
    ensures ProceedStep(s) == s.(mpsc := Mpsc.ConsumerStep(s.mpsc), loop := Counted(s.loop))
  {
  }

  lemma SameProducers(s: Mpsc.State, t: Mpsc.State)
    requires MpscTheorems.NoneHalfway(s) && t.producers == s.producers
    ensures MpscTheorems.NoneHalfway(t)
  {
  }

  /** Nothing to deliver: `head` is NULL. */
  lemma NothingLeft(s: Mpsc.State, v: MpscInvariant.View)
    requires MpscInvariant.Inv(s, v) && s.consumer.CIdle? && AllDelivered(s)
    ensures s.head == Mpsc.Null
  {
  }

  /** The loop ends with everything delivered. */
  lemma {:induction false} DrainsAll(s: State, v: MpscInvariant.View) returns (k: nat)
    requires MpscInvariant.Inv(s.mpsc, v) && s.loop.Draining? && s.mpsc.consumer.CIdle? && Undisturbed(s.mpsc)
    requires |s.mpsc.delivered| <= |s.mpsc.order|
    ensures var t := Own(s, k);
            t == s.(mpsc := t.mpsc, loop := Outside) && AllDelivered(t.mpsc) && t.mpsc.order == s.mpsc.order
    decreases |s.mpsc.order| - |s.mpsc.delivered|
  {
    hide MpscInvariant.Inv, Own, Undisturbed, ProceedStep;
    if AllDelivered(s.mpsc) {
      NothingLeft(s.mpsc, v);
      k := if s.loop.batch > 0 then 2 else 1;
      LeavesEmpty(s);
    } else {
      var j, v' := TakesOne(s, v);
      var i := DrainsAll(Own(s, j), v');
      k := j + i;
      OwnSplit(s, j, i);
    }
  }

  /** The loop is left only after a look that found nothing at all, so never after a message. */
  lemma LeavesAfterNothing(s: State)
    requires s.loop.Draining? && ProceedStep(s).loop.Outside?
    ensures s.loop.batch == 0 && s.mpsc.consumer.CIdle? && s.mpsc.head == Mpsc.Null
  {
  }

  lemma LeavesEmpty(s: State)
    requires s.loop.Draining? && s.mpsc.consumer.CIdle? && s.mpsc.head == Mpsc.Null
    ensures Own(s, if s.loop.batch > 0 then 2 else 1) == s.(loop := Outside)
  {
    OwnNext(s, 0);
    OwnNext(s, 1);
  }

  /** A wakeup that nobody disturbs delivers every message there is, and uses up counter and edge. */
  lemma WakeDeliversAll(size: nat, producers: nat, acts: seq<Action>) returns (k: nat)
    requires size > 0
    requires var s := Run(Init(size, producers), acts);
             s.loop.Outside? && WakePending(s) && Undisturbed(s.mpsc)
    ensures var s := Run(Init(size, producers), acts);
            var t := Own(Step(s, Wake), k);
            t.loop.Outside? && t.mpsc.order == t.mpsc.delivered == s.mpsc.order && t.counter == 0 && !t.edge && t.owes == s.owes
  {
    hide Run, Init, MpscInvariant.Inv, Own, Undisturbed, MpscTheorems.NoneHalfway;
    var s := Run(Init(size, producers), acts);
    var v := RunInv(size, producers, acts);
    Prefix(s.mpsc, v);
    var t := s.(edge := false, counter := 0, loop := Draining(0));
    assert Own(Step(s, Wake), 2) == t by { ReadsEmpty(s); }
    var i := DrainsAll(t, v);
    k := 2 + i;
    OwnSplit(Step(s, Wake), 2, i);
  }

  lemma ReadsEmpty(s: State)
    requires s.loop.Outside? && WakePending(s)
    ensures Own(Step(s, Wake), 2) == s.(edge := false, counter := 0, loop := Draining(0))
  {
    var t := Step(s, Wake);
    OwnNext(t, 0);
    OwnNext(t, 1);
  }

  function Min(a: nat, b: nat): nat {
    if a < b then a else b
  }

  lemma {:induction false} PollsSome(s: State, v: MpscInvariant.View) returns (k: nat)
    requires MpscInvariant.Inv(s.mpsc, v) && s.loop.Polling? && s.mpsc.consumer.CIdle? && Undisturbed(s.mpsc)
    requires s.mpsc.delivered <= s.mpsc.order
    ensures var t := Own(s, k);
            && t == s.(mpsc := t.mpsc, loop := Outside) && t.mpsc.order == s.mpsc.order
            && t.mpsc.delivered == s.mpsc.order[..Min(|s.mpsc.delivered| + s.loop.left, |s.mpsc.order|)]
    decreases s.loop.left
  {
    hide MpscInvariant.Inv, Own, Undisturbed, ProceedStep;
    if s.loop.left == 0 || AllDelivered(s.mpsc) {
      if AllDelivered(s.mpsc) {
        NothingLeft(s.mpsc, v);
      }
      k := 1;
      StopsPolling(s);
    } else {
      var j, v' := TakesOne(s, v);
      var t := Own(s, j);
      var i := PollsSome(t, v');
      k := j + i;
      OwnSplit(s, j, i);
    }
  }

  lemma StopsPolling(s: State)
    requires s.loop.Polling? && s.mpsc.consumer.CIdle? && (s.loop.left == 0 || s.mpsc.head == Mpsc.Null)
    ensures Own(s, 1) == s.(loop := Outside)
  {
    OwnNext(s, 0);
  }

  /** A timeout delivers the next ten messages, or all if there are fewer. */
  lemma TimeoutDelivers(size: nat, producers: nat, acts: seq<Action>) returns (k: nat)
    requires size > 0
    requires var s := Run(Init(size, producers), acts);
             s.loop.Outside? && !WakePending(s) && Undisturbed(s.mpsc)
    ensures var s := Run(Init(size, producers), acts);
            var t := Own(Step(s, Timeout), k);
            && t == s.(mpsc := t.mpsc) && t.mpsc.order == s.mpsc.order
            && t.mpsc.delivered == s.mpsc.order[..Min(|s.mpsc.delivered| + 10, |s.mpsc.order|)]
  {
    hide Run, Init, MpscInvariant.Inv, Own, Undisturbed, MpscTheorems.NoneHalfway;
    var s := Run(Init(size, producers), acts);
    var v := RunInv(size, producers, acts);
    Prefix(s.mpsc, v);
    k := PollsSome(Step(s, Timeout), v);
  }

  // ----- A sender that nobody disturbs

  /** k steps of a send. */
  function Sending(s: State, p: Tid, m: Mpsc.Msg, k: nat): State {
    if k == 0 then s else ProduceStep(Sending(s, p, m, k - 1), p, m)
  }

  /** Up to the exchange, the sender takes the steps of the send in the queue. */
  lemma {:induction false} SendFollows(s: State, p: Tid, m: Mpsc.Msg, k: nat)
    requires p < |s.owes| && !s.owes[p]
    requires forall j | 0 <= j < k :: MpscOperations.Unpublished(MpscOperations.Sending(s.mpsc, p, m, j), p)
    ensures Sending(s, p, m, k) == s.(mpsc := MpscOperations.Sending(s.mpsc, p, m, k))
  {
    hide Mpsc.ProducerStep, MpscOperations.Sending;
    MpscOperations.SendingNext(s.mpsc, p, m, 0);
    if k > 0 {
      SendFollows(s, p, m, k - 1);
      MpscOperations.SendingNext(s.mpsc, p, m, k - 1);
      assert s.owes[p := false] == s.owes;
    }
  }

  /** With the mutex free and a node in the pool, a sender's own steps enqueue its message, and its write of
      the eventfd leaves a wakeup pending. */
  lemma SendAnnounces(size: nat, producers: nat, acts: seq<Action>, p: Tid, m: Mpsc.Msg)
    requires size > 0
    requires var s := Run(Init(size, producers), acts);
             p < |s.owes| && !s.owes[p] && p < |s.mpsc.producers| && s.mpsc.producers[p].PIdle? &&
             s.mpsc.lock == Mpsc.Unlocked && s.mpsc.freeHead.At?
    ensures var s := Run(Init(size, producers), acts);
            var t := Step(Sending(s, p, m, 11), Notify(p));
            && t.mpsc.order == s.mpsc.order + [m] && t.mpsc.delivered == s.mpsc.delivered
            && t.mpsc.producers == s.mpsc.producers && t.owes == s.owes && t.loop == s.loop
            && t.counter == s.counter + 1 && WakePending(t)
  {
    hide Run, Init, MpscInvariant.Inv, Mpsc.ProducerStep, MpscOperations.Sending, Sending, MpscOperations.Unpublished;
    var s := Run(Init(size, producers), acts);
    var v := RunInv(size, producers, acts);
    MpscOperations.PoolTop(s.mpsc, v);
    MpscOperations.SendSteps(s.mpsc, p, m, s.mpsc.freeHead.node);
    SendFollows(s, p, m, 10);
    assert Sending(s, p, m, 11) == ProduceStep(Sending(s, p, m, 10), p, m) by { SendNext(s, p, m, 10); }
    MpscOperations.SendingNext(s.mpsc, p, m, 10);
    assert s.owes[p := true][p := false] == s.owes;
  }

  lemma SendNext(s: State, p: Tid, m: Mpsc.Msg, k: nat)
    ensures Sending(s, p, m, k + 1) == ProduceStep(Sending(s, p, m, k), p, m)
  {
  }
}
