/** The completion queue and coalesced wakeup of src/aio/aio.c, as a transition system.

    Any number of posters run `enqueue; exchange notified; maybe write the eventfd`; the event
    thread runs `drain`.  The completion queue's mutex makes an append or a pop one step.  A
    ring backend takes part too: the kernel publishes an entry and then signals the eventfd,
    and `reap` moves the entries it saw into the queue.

    The eventfd is registered edge-triggered: `edge` is set by every write and consumed when
    the event thread is woken, so a positive counter alone would not wake it again.
 */
module Aio {

  type Tid = nat
  type Completion = nat

  datatype Poster =
    | Idle
    | Enqueued        // completion queued, `notified` not exchanged yet
    | MustWrite       // it was the first: the eventfd is still to be written

  datatype Drainer =
    | Outside
    | Reading                     // reading the eventfd until it is empty
    | Resetting                   // about to clear `notified`
    | Snapshot                    // about to look at the ring
    | Reaping(left: nat)          // entries of the ring still to be moved
    | Popping
    | Firing(c: Completion)       // popped, its callback runs

  /** `log` and `fired` record the history: completions in the order they were queued, and
      callbacks in the order they were fired. */
  datatype State = State(
    queue: seq<Completion>, notified: bool, counter: nat, edge: bool,
    ring: seq<Completion>, unsignalled: nat,
    posters: seq<Poster>, drainer: Drainer,
    log: seq<Completion>, fired: seq<Completion>)

  datatype Action =
    | Post(p: Tid, c: Completion)     // the next step of poster p; c is used by a new post
    | KernelPublishes(c: Completion)
    | KernelSignals
    | Drain                           // the next step of the event thread

  function Init(posters: nat): State {
    State([], false, 0, false, [], 0, seq(posters, (_: nat) => Idle), Outside, [], [])
  }

  function Append(s: State, c: Completion): State {
    s.(queue := s.queue + [c], log := s.log + [c])
  }

  function Signal(s: State): State {
    s.(counter := s.counter + 1, edge := true)
  }

  function PostStep(s: State, p: Tid, c: Completion): State {
    if p >= |s.posters| then s else
    match s.posters[p]
    case Idle => Append(s, c).(posters := s.posters[p := Enqueued])
    case Enqueued => s.(notified := true, posters := s.posters[p := if s.notified then Idle else MustWrite])
    case MustWrite => Signal(s).(posters := s.posters[p := Idle])
  }

  function DrainStep(s: State): State {
    match s.drainer
    case Outside => s.(edge := false, drainer := Reading)
    case Reading => if s.counter > 0 then s.(counter := 0) else s.(drainer := Resetting)
    case Resetting => s.(notified := false, drainer := Snapshot)
    case Snapshot => s.(drainer := Reaping(|s.ring|))
    case Reaping(left) =>
      if left == 0 || s.ring == [] then s.(drainer := Popping)
      else Append(s, s.ring[0]).(ring := s.ring[1..], drainer := Reaping(left - 1))
    case Popping =>
      if s.queue == [] then s.(drainer := Outside)
      else s.(queue := s.queue[1..], drainer := Firing(s.queue[0]))
    case Firing(c) => s.(fired := s.fired + [c], drainer := Popping)
  }

  function Step(s: State, a: Action): State {
    match a
    case Post(p, c) => PostStep(s, p, c)
    case KernelPublishes(c) => s.(ring := s.ring + [c], unsignalled := s.unsignalled + 1)
    case KernelSignals => if s.unsignalled == 0 then s else Signal(s).(unsignalled := s.unsignalled - 1)
    case Drain => DrainStep(s)
  }

  function Run(s: State, acts: seq<Action>): State {
    if acts == [] then s else Step(Run(s, acts[..|acts| - 1]), acts[|acts| - 1])
  }

  // ----- The invariant

  /** The event thread is going to be woken. */
  predicate WakePending(s: State) {
    s.counter > 0 && s.edge
  }

  predicate Some(posters: seq<Poster>, k: Poster) {
    exists p | 0 <= p < |posters| :: posters[p] == k
  }

  /** `notified` promises a wakeup that is pending, about to be written, or being served. */
  predicate NotifiedInv(s: State) {
    s.notified ==> WakePending(s) || Some(s.posters, MustWrite) || s.drainer.Reading? || s.drainer.Resetting?
  }

  /** A queued completion is announced, about to be, or about to be popped. */
  predicate QueuedInv(s: State) {
    s.queue != [] ==> s.notified || Some(s.posters, Enqueued) || !s.drainer.Outside?
  }

  /** Ring entries the drain in progress does not cover are signalled, or about to be. */
  predicate RingInv(s: State) {
    && (s.drainer.Reaping? ==> s.drainer.left <= |s.ring|)
    && (s.ring == [] || s.drainer.Reading? || s.drainer.Resetting? || s.drainer.Snapshot? ||
        (s.drainer.Reaping? && s.drainer.left == |s.ring|) || WakePending(s) || s.unsignalled > 0)
  }

  predicate FiredInv(s: State) {
    s.log == s.fired + (if s.drainer.Firing? then [s.drainer.c] else []) + s.queue
  }

  predicate Inv(s: State) {
    NotifiedInv(s) && QueuedInv(s) && RingInv(s) && FiredInv(s)
  }

  /** A poster that moves leaves the others where they were. */
  lemma SomeOther(posters: seq<Poster>, p: Tid, k: Poster, pr: Poster)
    requires p < |posters| && Some(posters, k) && posters[p] != k
    ensures Some(posters[p := pr], k)
  {
    var q :| 0 <= q < |posters| && posters[q] == k;
    assert posters[p := pr][q] == k;
  }

  lemma PostInv(s: State, p: Tid, c: Completion)
    requires Inv(s) && p < |s.posters|
    ensures Inv(PostStep(s, p, c))
  {
    var t := PostStep(s, p, c);
    assert t.posters[p] == t.posters[p];
    match s.posters[p]
    case Idle =>
      assert t.posters[p] == Enqueued;
      if Some(s.posters, MustWrite) { SomeOther(s.posters, p, MustWrite, Enqueued); }
    case Enqueued =>
      if s.notified {
        if Some(s.posters, MustWrite) { SomeOther(s.posters, p, MustWrite, Idle); }
      } else {
        assert t.posters[p] == MustWrite;
      }
    case MustWrite =>
      if Some(s.posters, Enqueued) { SomeOther(s.posters, p, Enqueued, Idle); }
  }

  lemma StepInv(s: State, a: Action)
    requires Inv(s)
    ensures Inv(Step(s, a))
  {
    match a
    case Post(p, c) => if p < |s.posters| { PostInv(s, p, c); }
    case KernelPublishes(_) =>
    case KernelSignals =>
    case Drain =>
      match s.drainer
      case Firing(c) => assert s.fired + [c] + s.queue == (s.fired + [c]) + [] + s.queue;
      case _ =>
  }

  lemma {:induction false} RunInv(posters: nat, acts: seq<Action>)
    ensures Inv(Run(Init(posters), acts))
  {
    hide Inv;
    if acts == [] {
      assert Inv(Init(posters)) by { InitInv(posters); }
    } else {
      RunInv(posters, acts[..|acts| - 1]);
      StepInv(Run(Init(posters), acts[..|acts| - 1]), acts[|acts| - 1]);
    }
  }

  lemma InitInv(posters: nat)
    ensures Inv(Init(posters))
  {
  }

  // ----- What every run guarantees

  /** No lost wakeup: while the event thread is outside drain and a completion waits in the
      queue or in the ring, a wakeup is pending, or a poster is still inside post_completion,
      or the kernel has yet to signal. */
  lemma NoLostWakeup(posters: nat, acts: seq<Action>)
    ensures var s := Run(Init(posters), acts);
            s.drainer.Outside? && (s.queue != [] || s.ring != []) ==>
              || WakePending(s)
              || (exists p | 0 <= p < |s.posters| :: s.posters[p] != Idle)
              || s.unsignalled > 0
  {
    var s := Run(Init(posters), acts);
    RunInv(posters, acts);
    if Some(s.posters, Enqueued) {
      var p :| 0 <= p < |s.posters| && s.posters[p] == Enqueued;
    }
    if Some(s.posters, MustWrite) {
      var p :| 0 <= p < |s.posters| && s.posters[p] == MustWrite;
    }
  }

  /** Callbacks fire once each, in the order their completions were queued. */
  lemma FiredInOrder(posters: nat, acts: seq<Action>)
    ensures var s := Run(Init(posters), acts);
            s.fired <= s.log && (s.drainer.Outside? ==> s.log == s.fired + s.queue)
  {
    RunInv(posters, acts);
  }

  // ----- A drain that nobody disturbs fires everything

  function Alone(s: State, k: nat): State
    decreases k
  {
    if k == 0 then s else Alone(DrainStep(s), k - 1)
  }

  lemma {:induction false} PopsAll(s: State)
    requires s.drainer.Popping?
    ensures Alone(s, 2 * |s.queue| + 1) == s.(queue := [], drainer := Outside, fired := s.fired + s.queue)
    decreases |s.queue|
  {
    if s.queue == [] {
      assert s.fired + s.queue == s.fired;
      assert Alone(s, 1) == Alone(DrainStep(s), 0);
    } else {
      var t := DrainStep(DrainStep(s));
      assert t == s.(queue := s.queue[1..], fired := s.fired + [s.queue[0]]);
      PopsAll(t);
      var k := 2 * |t.queue| + 1;
      assert Alone(s, k + 2) == Alone(DrainStep(s), k + 1) == Alone(t, k);
      assert t.fired + t.queue == s.fired + s.queue;
    }
  }

  lemma {:induction false} ReapsAll(s: State)
    requires s.drainer == Reaping(|s.ring|)
    ensures Alone(s, |s.ring| + 1) ==
            s.(ring := [], queue := s.queue + s.ring, log := s.log + s.ring, drainer := Popping)
    decreases |s.ring|
  {
    if s.ring == [] {
      assert s.queue + s.ring == s.queue && s.log + s.ring == s.log;
      assert Alone(s, 1) == Alone(DrainStep(s), 0);
    } else {
      var t := DrainStep(s);
      ReapsAll(t);
      assert t.queue + t.ring == s.queue + s.ring && t.log + t.ring == s.log + s.ring;
    }
  }

  lemma {:induction false} AloneSplit(s: State, j: nat, k: nat)
    ensures Alone(s, j + k) == Alone(Alone(s, j), k)
    decreases j
  {
    if j > 0 {
      AloneSplit(DrainStep(s), j - 1, k);
    }
  }

  /** One undisturbed drain empties ring and queue, fires a callback for each entry, and leaves
      the coalescing flag clear, so that the next post writes the eventfd again. */
  lemma DrainFiresAll(s: State)
    requires s.drainer.Outside?
    ensures exists k: nat ::
              Alone(s, k) == s.(queue := [], ring := [], counter := 0, edge := false, notified := false,
                                log := s.log + s.ring, fired := s.fired + s.queue + s.ring)
  {
    hide Alone, DrainStep;
    var n := if s.counter > 0 then 5 else 4;
    var t := s.(counter := 0, edge := false, notified := false, drainer := Reaping(|s.ring|));
    assert Alone(s, n) == t by { DrainStarts(s); }
    ReapsAll(t);
    AloneSplit(s, n, |s.ring| + 1);
    var u := Alone(t, |s.ring| + 1);
    PopsAll(u);
    var k := n + (|s.ring| + 1);
    AloneSplit(s, k, 2 * |u.queue| + 1);
    assert s.fired + (s.queue + s.ring) == s.fired + s.queue + s.ring;
    assert Alone(s, k + (2 * |u.queue| + 1)) == Alone(u, 2 * |u.queue| + 1);
  }

  lemma DrainStarts(s: State)
    requires s.drainer.Outside?
    ensures Alone(s, if s.counter > 0 then 5 else 4) ==
            s.(counter := 0, edge := false, notified := false, drainer := Reaping(|s.ring|))
  {
    var s1 := DrainStep(s);
    var s2 := if s.counter > 0 then DrainStep(s1) else s1;
    var s3 := DrainStep(s2);
    var s4 := DrainStep(s3);
    var s5 := DrainStep(s4);
    assert Alone(s2, 3) == Alone(s3, 2) == Alone(s4, 1) == Alone(s5, 0);
    if s.counter > 0 {
      assert Alone(s, 5) == Alone(s1, 4) == Alone(s2, 3);
    } else {
      assert Alone(s, 4) == Alone(s1, 3);
    }
  }

  // ----- A post that nobody disturbs

  /** k steps of poster p and of nobody else. */
  function Posting(s: State, p: Tid, c: Completion, k: nat): State {
    if k == 0 then s else PostStep(Posting(s, p, c, k - 1), p, c)
  }

  /** Two steps of its own take a poster through post_completion if the flag was set before, three if it was
      not; the completion is queued last, and in the second case the eventfd has been written. */
  lemma PostAlone(s: State, p: Tid, c: Completion)
    requires p < |s.posters| && s.posters[p] == Idle
    ensures s.notified ==> Posting(s, p, c, 2) == s.(queue := s.queue + [c], log := s.log + [c])
    ensures !s.notified ==>
              Posting(s, p, c, 3) == s.(queue := s.queue + [c], log := s.log + [c], notified := true,
                                        counter := s.counter + 1, edge := true)
  {
    assert Posting(s, p, c, 1) == Append(s, c).(posters := s.posters[p := Enqueued]);
    if s.notified {
      assert s.posters[p := Idle] == s.posters;
    } else {
      assert Posting(s, p, c, 2) == Append(s, c).(notified := true, posters := s.posters[p := MustWrite]);
      assert s.posters[p := Idle] == s.posters;
    }
  }

  predicate IdleUpTo(posters: seq<Poster>, n: nat) {
    forall p | 0 <= p < n && p < |posters| :: posters[p] == Idle
  }

  /** Only what posters and kernel had begun is finished. */
  predicate Finishes(s: State, t: State) {
    && t.queue == s.queue && t.ring == s.ring && t.log == s.log && t.fired == s.fired && t.drainer == s.drainer
    && |t.posters| == |s.posters|
  }

  predicate OnlyTheirs(acts: seq<Action>) {
    forall i | 0 <= i < |acts| :: acts[i].Post? || acts[i].KernelSignals?
  }

  lemma RunSnoc(s: State, acts: seq<Action>, a: Action)
    ensures Run(s, acts + [a]) == Step(Run(s, acts), a)
  {
    assert (acts + [a])[..|acts|] == acts;
  }

  /** Poster p's own steps bring it out of post_completion. */
  lemma PosterFinishes(s: State, acts: seq<Action>, p: Tid) returns (more: seq<Action>)
    requires p < |Run(s, acts).posters| && IdleUpTo(Run(s, acts).posters, p)
    ensures var t := Run(s, acts + more); Finishes(Run(s, acts), t) && IdleUpTo(t.posters, p + 1)
    ensures OnlyTheirs(more)
    ensures Run(s, acts + more).unsignalled == Run(s, acts).unsignalled
  {
    hide Run;
    var t := Run(s, acts);
    match t.posters[p]
    case Idle =>
      more := [];
      assert acts + more == acts;
    case MustWrite =>
      more := [Post(p, 0)];
      RunSnoc(s, acts, Post(p, 0));
    case Enqueued =>
      RunSnoc(s, acts, Post(p, 0));
      if t.notified {
        more := [Post(p, 0)];
      } else {
        more := [Post(p, 0), Post(p, 0)];
        RunSnoc(s, acts + [Post(p, 0)], Post(p, 0));
        assert acts + [Post(p, 0)] + [Post(p, 0)] == acts + more;
      }
  }

  lemma {:induction false} PostersFinish(s: State, acts: seq<Action>, n: nat) returns (more: seq<Action>)
    requires n <= |Run(s, acts).posters|
    ensures var t := Run(s, acts + more); Finishes(Run(s, acts), t) && IdleUpTo(t.posters, n)
    ensures OnlyTheirs(more)
    ensures Run(s, acts + more).unsignalled == Run(s, acts).unsignalled
  {
    hide Run;
    more := [];
    assert acts + more == acts;
    if n > 0 {
      more := PostersFinish(s, acts, n - 1);
      var last := PosterFinishes(s, acts + more, n - 1);
      assert acts + more + last == acts + (more + last);
      more := more + last;
    }
  }

  lemma {:induction false} KernelFinishes(s: State, acts: seq<Action>, n: nat) returns (more: seq<Action>)
    requires n <= Run(s, acts).unsignalled
    ensures var t := Run(s, acts + more);
            Finishes(Run(s, acts), t) && t.posters == Run(s, acts).posters && t.unsignalled == Run(s, acts).unsignalled - n
    ensures OnlyTheirs(more)
  {
    hide Run;
    more := [];
    assert acts + more == acts;
    if n > 0 {
      more := KernelFinishes(s, acts, n - 1);
      RunSnoc(s, acts + more, KernelSignals);
      assert acts + more + [KernelSignals] == acts + (more + [KernelSignals]);
      more := more + [KernelSignals];
    }
  }

  /** From every reachable state, steps of the posters and the kernel alone finish what they have begun; and
      then whatever waits outside a drain has a wakeup pending. */
  lemma WakeupComes(posters: nat, acts: seq<Action>) returns (more: seq<Action>)
    ensures OnlyTheirs(more)
    ensures var s, t := Run(Init(posters), acts), Run(Init(posters), acts + more);
            && Finishes(s, t) && t.unsignalled == 0 && (forall p | 0 <= p < |t.posters| :: t.posters[p] == Idle)
            && (t.drainer.Outside? && (t.queue != [] || t.ring != []) ==> WakePending(t))
  {
    hide Run, Init;
    var s := Run(Init(posters), acts);
    var first := PostersFinish(Init(posters), acts, |s.posters|);
    var t := Run(Init(posters), acts + first);
    var second := KernelFinishes(Init(posters), acts + first, t.unsignalled);
    more := first + second;
    assert acts + first + second == acts + more;
    NoLostWakeup(posters, acts + more);
  }
}
