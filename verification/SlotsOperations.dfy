/** What opening and closing a connection achieve when sender threads run in between the event thread's
    steps, and a run in which the generation counter wraps around. */
module SlotsOperations {
  import opened Slots
  import opened SlotsInvariant
  import opened SlotsTheorems

  /** A step of a sender thread. */
  predicate Foreign(a: Action) {
    a.Find? || a.Send? || a.GiveUp?
  }

  predicate AllForeign(acts: seq<Action>) {
    forall k | 0 <= k < |acts| :: Foreign(acts[k])
  }

  predicate Gaps(gaps: seq<seq<Action>>, n: nat) {
    |gaps| == n && forall k | 0 <= k < n :: AllForeign(gaps[k])
  }

  /** The event thread goes on, one step after each gap; in the gaps the senders run. */
  function Amid(s: State, gaps: seq<seq<Action>>): State {
    if gaps == [] then s else ProceedStep(Run(Amid(s, gaps[..|gaps| - 1]), gaps[|gaps| - 1]))
  }

  /** Only reference counts, senders, messages differ. */
  predicate SameTables(s: State, u: State) {
    && u.free == s.free && u.fdMap == s.fdMap && u.hash == s.hash && u.thread == s.thread
    && SameSlots(s.slots, u.slots)
  }

  predicate SameSlots(s: seq<Slot>, u: seq<Slot>) {
    |u| == |s| && forall j | 0 <= j < |s| :: u[j] == s[j].(refs := u[j].refs)
  }

  /** The same but for slot i. */
  predicate SameOthers(s: seq<Slot>, u: seq<Slot>, i: nat) {
    |u| == |s| && forall j | 0 <= j < |s| && j != i :: u[j] == s[j].(refs := u[j].refs)
  }

  /** No sender holds slot i or can find it. */
  predicate Unreached(s: State, i: nat) {
    && (forall t | 0 <= t < |s.senders| :: !Holds(s.senders[t], i))
    && (forall fd | fd in s.hash :: s.hash[fd] != i)
  }

  lemma ForeignStep(s: State, place: seq<Place>, a: Action, i: nat)
    requires Inv(s, place) && Foreign(a) && i < |s.slots|
    ensures SameTables(s, Step(s, a)) && Inv(Step(s, a), place)
    ensures Unreached(s, i) ==> Unreached(Step(s, a), i) && Step(s, a).slots[i] == s.slots[i]
  {
    hide PlacesInv, SlotsInv, MapInv, ThreadInv, HashInv, QueueInv, DeliveriesInv, SendersInv;
    StepInv(s, place, a);
  }

  lemma {:induction false} ForeignRun(s: State, place: seq<Place>, acts: seq<Action>, i: nat)
    requires Inv(s, place) && AllForeign(acts) && i < |s.slots|
    ensures SameTables(s, Run(s, acts)) && Inv(Run(s, acts), place)
    ensures Unreached(s, i) ==> Unreached(Run(s, acts), i) && Run(s, acts).slots[i] == s.slots[i]
  {
    hide Inv, Unreached, Step;
    if acts != [] {
      var before := acts[..|acts| - 1];
      ForeignRun(s, place, before, i);
      ForeignStep(Run(s, before), place, acts[|acts| - 1], i);
    }
  }

  lemma AmidSnoc(s: State, gaps: seq<seq<Action>>, gap: seq<Action>)
    ensures Amid(s, gaps + [gap]) == ProceedStep(Run(Amid(s, gaps), gap))
  {
    assert (gaps + [gap])[..|gaps|] == gaps;
  }

  // ----- Opening

  /** process_new_connection takes the top of the free stack into a new life under fd, whatever the
      senders do meanwhile: none of them reaches the slot before it is entered in the hash. */
  lemma AcceptOpens(s: State, place: seq<Place>, fd: Fd, g1: seq<Action>, g2: seq<Action>, g3: seq<Action>)
    requires Inv(s, place) && s.thread.Idle? && s.free != [] && fd !in s.fdMap && Gaps([g1, g2, g3], 3)
    ensures var u, i := Amid(AcceptStep(s, fd), [g1, g2, g3]), s.free[|s.free| - 1];
            && i < |s.slots| == |u.slots| && u.slots[i] == InitSlot(s.slots[i], fd, i)
            && u.thread.Idle? && u.free == s.free[..|s.free| - 1]
            && u.fdMap == s.fdMap[fd := i] && u.hash == s.hash[fd := i] && SameOthers(s.slots, u.slots, i)
  {
    hide Inv, Unreached, Run, AllForeign;
    var i := s.free[|s.free| - 1];
    ThreadSlot(s, place);
    assert [g1, g2, g3][0] == g1 && [g1, g2, g3][1] == g2 && [g1, g2, g3][2] == g3;
    var s0, place' := AcceptStep(s, fd), place[i := Busy];
    AcceptInv(s, place, fd);
    PoppedUnreached(s0, place');
    ForeignRun(s0, place', g1, i);
    var s1 := ProceedStep(Run(s0, g1));
    InitSlotInv(Run(s0, g1), place');
    StillUnreached(Run(s0, g1), i);
    ForeignRun(s1, place', g2, i);
    var s2 := ProceedStep(Run(s1, g2));
    MapSlotInv(Run(s1, g2), place');
    StillUnreached(Run(s1, g2), i);
    ForeignRun(s2, place'[i := Registered], g3, i);
    AmidThree(s0, g1, g2, g3);
  }

  lemma AmidThree(s: State, g1: seq<Action>, g2: seq<Action>, g3: seq<Action>)
    ensures Amid(s, [g1]) == ProceedStep(Run(s, g1))
    ensures Amid(s, [g1, g2]) == ProceedStep(Run(Amid(s, [g1]), g2))
    ensures Amid(s, [g1, g2, g3]) == ProceedStep(Run(Amid(s, [g1, g2]), g3))
  {
    hide ProceedStep, Run;
    AmidSnoc(s, [], g1);
    AmidSnoc(s, [g1], g2);
    AmidSnoc(s, [g1, g2], g3);
    assert [] + [g1] == [g1] && [g1] + [g2] == [g1, g2] && [g1, g2] + [g3] == [g1, g2, g3];
  }

  lemma PoppedUnreached(s: State, place: seq<Place>)
    requires Inv(s, place) && s.thread.Popped?
    ensures Unreached(s, s.thread.i)
  {
    NobodyHolds(s, place, s.thread.i);
  }

  lemma StillUnreached(s: State, i: nat)
    requires Unreached(s, i) && (s.thread.Popped? || s.thread.Inited?)
    ensures Unreached(ProceedStep(s), i)
  {
  }

  // ----- Closing

  function CloseStart(s: State, fd: Fd, requested: bool): State {
    Step(s, if requested then CloseRequested(fd) else Close(fd))
  }

  /** Where the event thread is about to give up its reference. */
  function AtRelease(s: State, fd: Fd, requested: bool, g1: seq<Action>, g2: seq<Action>): State {
    Run(Amid(CloseStart(s, fd, requested), [g1]), g2)
  }

  lemma Releases(s: State, place: seq<Place>, fd: Fd, requested: bool, g1: seq<Action>, g2: seq<Action>) returns (place': seq<Place>)
    requires Inv(s, place) && s.thread.Idle? && fd in s.fdMap && AllForeign(g1) && AllForeign(g2)
    ensures var u, i := AtRelease(s, fd, requested, g1, g2), s.fdMap[fd];
            && Inv(u, place') && u.thread == Detached(i) && i < |s.slots| && SameSlots(s.slots, u.slots)
            && u.free == s.free && u.fdMap == s.fdMap - {fd} && u.hash == s.hash - {fd}
  {
    hide Inv, Unreached, Run, AllForeign;
    var i := s.fdMap[fd];
    ThreadSlot(s, place);
    var c := CloseStart(s, fd, requested);
    AmidThree(c, g1, [], []);
    if requested {
      CloseRequestedInv(s, place, fd);
      ForeignRun(c, place, g1, i);
      UnmapInv(Run(c, g1), place);
    } else {
      CloseInv(s, place, fd);
      ForeignRun(c, place[i := Busy], g1, i);
      UnhashInv(Run(c, g1), place[i := Busy]);
    }
    place' := place[i := Busy];
    ForeignRun(ProceedStep(Run(c, g1)), place', g2, i);
  }

  lemma DetachedSlot(s: State, place: seq<Place>)
    requires Inv(s, place) && s.thread.Detached?
    ensures var i := s.thread.i;
            && i < |s.slots| && s.slots[i].refs == 1 + Count(s.senders, i) && s.slots[i].poolIndex == i
            && s.slots[i].life > 0 && |s.free| < |s.slots| && forall fd | fd in s.hash :: s.hash[fd] != i
  {
    var i := s.thread.i;
    assert SlotInv(s.slots[i], place[i], s.thread, i, Count(s.senders, i));
    StackRoom(s, place);
  }

  /** Closing, by the peer or by the server, with no sender holding the slot when the event thread gives
      up its own reference: the slot ends up on top of the free stack, wiped but for its generation,
      and neither table leads to it. */
  lemma CloseRecycles(s: State, place: seq<Place>, fd: Fd, requested: bool,
                      g1: seq<Action>, g2: seq<Action>, g3: seq<Action>, g4: seq<Action>)
    requires Inv(s, place) && s.thread.Idle? && fd in s.fdMap && Gaps([g1, g2, g3, g4], 4)
    requires var r := AtRelease(s, fd, requested, g1, g2);
             forall t | 0 <= t < |r.senders| :: !Holds(r.senders[t], s.fdMap[fd])
    ensures var u, i := Amid(CloseStart(s, fd, requested), [g1, g2, g3, g4]), s.fdMap[fd];
            && i < |s.slots| == |u.slots| && u.slots[i] == CleanupSlot(s.slots[i])
            && u.thread.Idle? && u.free == s.free + [i]
            && u.fdMap == s.fdMap - {fd} && u.hash == s.hash - {fd} && SameOthers(s.slots, u.slots, i)
  {
    hide Inv, Run, AllForeign;
    assert [g1, g2, g3, g4][0] == g1 && [g1, g2, g3, g4][1] == g2 && [g1, g2, g3, g4][2] == g3 && [g1, g2, g3, g4][3] == g4;
    var i, c := s.fdMap[fd], CloseStart(s, fd, requested);
    var place' := Releases(s, place, fd, requested, g1, g2);
    var r := AtRelease(s, fd, requested, g1, g2);
    DetachedSlot(r, place');
    CountNone(r.senders, i);
    var s3 := ProceedStep(r);
    ReleaseInv(r, place');
    ForeignRun(s3, place', g3, i);
    var s4 := ProceedStep(Run(s3, g3));
    WipeInv(Run(s3, g3), place');
    ForeignRun(s4, place', g4, i);
    AmidThree(c, g1, g2, g3);
    AmidSnoc(c, [g1, g2, g3], g4);
    assert [g1, g2, g3] + [g4] == [g1, g2, g3, g4];
  }

  /** And with a sender holding it at that moment: the slot is retired, in none of the tables. */
  lemma CloseRetires(s: State, place: seq<Place>, fd: Fd, requested: bool,
                     g1: seq<Action>, g2: seq<Action>, g3: seq<Action>, t: Tid)
    requires Inv(s, place) && s.thread.Idle? && fd in s.fdMap && Gaps([g1, g2, g3], 3)
    requires var r := AtRelease(s, fd, requested, g1, g2);
             t < |r.senders| && Holds(r.senders[t], s.fdMap[fd])
    ensures var u, i := Amid(CloseStart(s, fd, requested), [g1, g2, g3]), s.fdMap[fd];
            && i < |s.slots| == |u.slots| && IsRetired(u, i) && u.slots[i].life == s.slots[i].life
            && u.slots[i].refs == Count(u.senders, i)
            && u.thread.Idle? && u.free == s.free
            && u.fdMap == s.fdMap - {fd} && u.hash == s.hash - {fd} && SameOthers(s.slots, u.slots, i)
  {
    hide Inv, Run, AllForeign, Unreached;
    assert [g1, g2, g3][0] == g1 && [g1, g2, g3][1] == g2 && [g1, g2, g3][2] == g3;
    var i, c := s.fdMap[fd], CloseStart(s, fd, requested);
    var place' := Releases(s, place, fd, requested, g1, g2);
    var r := AtRelease(s, fd, requested, g1, g2);
    DetachedSlot(r, place');
    CountPositive(r.senders, t, i);
    var s3 := ProceedStep(r);
    ReleaseInv(r, place');
    ForeignRun(s3, place', g3, i);
    RetireInv(Run(s3, g3), place');
    AmidThree(c, g1, g2, g3);
    ThreadSlot(Run(s3, g3), place');
    RetiredRefs(ProceedStep(Run(s3, g3)), place'[i := Retired], i);
  }

  lemma RetiredRefs(s: State, place: seq<Place>, i: nat)
    requires Inv(s, place) && i < |place| && place[i].Retired?
    ensures i < |s.slots| && IsRetired(s, i) && s.slots[i].refs == Count(s.senders, i)
  {
    assert SlotInv(s.slots[i], place[i], s.thread, i, Count(s.senders, i));
  }

  // ----- The generation does wrap

  const FD: Fd := 3

  /** One slot, registered under FD in life l, with a send queued. */
  function Opened(l: nat, state: ConnState, queue: seq<Message>): State {
    State([Slot(FD, state, 1, l % WRAP, 0, l)], [], map[FD := 0], map[FD := 0], Idle, [Out], queue, [])
  }

  lemma Snoc(s: State, acts: seq<Action>, a: Action)
    ensures Run(s, acts + [a]) == Step(Run(s, acts), a)
    ensures LegalRun(s, acts) && Legal(Run(s, acts), a) ==> LegalRun(s, acts + [a])
  {
    assert (acts + [a])[..|acts|] == acts;
  }

  /** The connection is closed and a new one accepted under the same descriptor. */
  function Again(acts: seq<Action>): seq<Action> {
    acts + [Close(FD)] + [Proceed] + [Proceed] + [Proceed] + [Proceed] + [Accept(FD)] + [Proceed] + [Proceed] + [Proceed]
  }

  lemma Closed(s: State, acts: seq<Action>, l: nat, state: ConnState, queue: seq<Message>)
    requires LegalRun(s, acts) && Run(s, acts) == Opened(l, state, queue)
    ensures var done := acts + [Close(FD)] + [Proceed] + [Proceed] + [Proceed] + [Proceed];
            && LegalRun(s, done)
            && Run(s, done) == State([Slot(0, CONNECTING, 0, l % WRAP, 0, l)], [0], map[], map[], Idle, [Out], queue, [])
  {
    hide Run, LegalRun;
    var slot := Slot(FD, state, 1, l % WRAP, 0, l);
    var a1 := acts + [Close(FD)];
    Snoc(s, acts, Close(FD));
    assert Run(s, a1) == State([slot], [], map[], map[FD := 0], Unmapped(FD, 0), [Out], queue, []) by {
      assert map[FD := 0] - {FD} == map[];
    }
    var a2 := a1 + [Proceed];
    Snoc(s, a1, Proceed);
    assert Run(s, a2) == State([slot], [], map[], map[], Detached(0), [Out], queue, []) by {
      assert map[FD := 0] - {FD} == map[];
    }
    var a3 := a2 + [Proceed];
    Snoc(s, a2, Proceed);
    assert Run(s, a3) == State([slot.(refs := 0)], [], map[], map[], LastRef(0), [Out], queue, []);
    var a4 := a3 + [Proceed];
    Snoc(s, a3, Proceed);
    assert Run(s, a4) == State([Slot(0, CONNECTING, 0, l % WRAP, 0, l)], [], map[], map[], Wiped(0), [Out], queue, []);
    Snoc(s, a4, Proceed);
  }

  lemma Reopened(s: State, acts: seq<Action>, l: nat, queue: seq<Message>)
    requires LegalRun(s, acts)
    requires Run(s, acts) == State([Slot(0, CONNECTING, 0, l % WRAP, 0, l)], [0], map[], map[], Idle, [Out], queue, [])
    ensures var done := acts + [Accept(FD)] + [Proceed] + [Proceed] + [Proceed];
            LegalRun(s, done) && Run(s, done) == Opened(l + 1, CONNECTING, queue)
  {
    hide Run, LegalRun;
    var wiped := Slot(0, CONNECTING, 0, l % WRAP, 0, l);
    var slot := Slot(FD, CONNECTING, 1, (l + 1) % WRAP, 0, l + 1);
    var a1 := acts + [Accept(FD)];
    Snoc(s, acts, Accept(FD));
    assert Run(s, a1) == State([wiped], [], map[], map[], Popped(FD, 0), [Out], queue, []);
    var a2 := a1 + [Proceed];
    Snoc(s, a1, Proceed);
    assert Run(s, a2) == State([slot], [], map[], map[], Inited(FD, 0), [Out], queue, []);
    var a3 := a2 + [Proceed];
    Snoc(s, a2, Proceed);
    assert Run(s, a3) == State([slot], [], map[FD := 0], map[], Mapped(FD, 0), [Out], queue, []);
    Snoc(s, a3, Proceed);
  }

  /** Any number of further lives. */
  function Lives(acts: seq<Action>, n: nat): seq<Action> {
    if n == 0 then acts else Again(Lives(acts, n - 1))
  }

  lemma {:induction false} LivesOn(s: State, acts: seq<Action>, l: nat, state: ConnState, queue: seq<Message>, n: nat)
    requires LegalRun(s, acts) && Run(s, acts) == Opened(l, state, queue) && n > 0
    ensures LegalRun(s, Lives(acts, n)) && Run(s, Lives(acts, n)) == Opened(l + n, CONNECTING, queue)
    decreases n
  {
    hide Run, LegalRun, Opened;
    var before, st := acts, state;
    if n > 1 {
      LivesOn(s, acts, l, state, queue, n - 1);
      before, st := Lives(acts, n - 1), CONNECTING;
    }
    Closed(s, before, l + n - 1, st, queue);
    Reopened(s, before + [Close(FD)] + [Proceed] + [Proceed] + [Proceed] + [Proceed], l + n - 1, queue);
  }

  /** A connection is opened, and a sender queues a message for it and leaves. */
  const CAPTURE: seq<Action> :=
    [] + [Accept(FD)] + [Proceed] + [Proceed] + [Proceed] + [SetState(FD, OPEN)]
    + [Find(0, FD)] + [Send(0)] + [Send(0)] + [Send(0)] + [Send(0)]

  lemma Captures()
    ensures LegalRun(Init(1, 1), CAPTURE) && Run(Init(1, 1), CAPTURE) == Opened(1, OPEN, [Message(FD, 0, 1, 1)])
  {
    hide Run, LegalRun;
    var s := Init(1, 1);
    FirstLife();
    var b4 := [] + [Accept(FD)] + [Proceed] + [Proceed] + [Proceed];
    var slot := Slot(FD, OPEN, 1, 1, 0, 1);
    var b5 := b4 + [SetState(FD, OPEN)];
    Snoc(s, b4, SetState(FD, OPEN));
    assert Run(s, b5) == Opened(1, OPEN, []);
    var b6 := b5 + [Find(0, FD)];
    Snoc(s, b5, Find(0, FD));
    assert Run(s, b6) == Opened(1, OPEN, []).(slots := [slot.(refs := 2)], senders := [Found(0, FD, 1)]);
    var b7 := b6 + [Send(0)];
    Snoc(s, b6, Send(0));
    assert Run(s, b7) == Opened(1, OPEN, []).(slots := [slot.(refs := 2)], senders := [Checked(0, FD, 1)]);
    var b8 := b7 + [Send(0)];
    Snoc(s, b7, Send(0));
    assert Run(s, b8) == Opened(1, OPEN, []).(slots := [slot.(refs := 2)], senders := [Captured(0, FD, 1, 1)]);
    var b9 := b8 + [Send(0)];
    Snoc(s, b8, Send(0));
    assert Run(s, b9) == Opened(1, OPEN, [Message(FD, 0, 1, 1)]).(slots := [slot.(refs := 2)], senders := [Leaving(0, FD, 1)]);
    Snoc(s, b9, Send(0));
  }

  lemma FirstLife()
    ensures var acts := [] + [Accept(FD)] + [Proceed] + [Proceed] + [Proceed];
            LegalRun(Init(1, 1), acts) && Run(Init(1, 1), acts) == Opened(1, CONNECTING, [])
  {
    hide Run, LegalRun;
    var s := Init(1, 1);
    RunNothing(s);
    var slot := Slot(FD, CONNECTING, 1, 1, 0, 1);
    var a1 := [] + [Accept(FD)];
    Snoc(s, [], Accept(FD));
    assert Run(s, a1) == State(s.slots, [], map[], map[], Popped(FD, 0), [Out], [], []);
    var a2 := a1 + [Proceed];
    Snoc(s, a1, Proceed);
    assert Run(s, a2) == State([slot], [], map[], map[], Inited(FD, 0), [Out], [], []);
    var a3 := a2 + [Proceed];
    Snoc(s, a2, Proceed);
    assert Run(s, a3) == State([slot], [], map[FD := 0], map[], Mapped(FD, 0), [Out], [], []);
    Snoc(s, a3, Proceed);
  }

  lemma RunNothing(s: State)
    ensures Run(s, []) == s && LegalRun(s, [])
  {
  }

  /** After exactly 2^32 further lives of its slot a queued send does reach a connection it was not
      captured for. */
  lemma WrapIsReal() returns (acts: seq<Action>)
    ensures LegalRun(Init(1, 1), acts)
    ensures var ds := After(1, 1, acts).deliveries;
            |ds| == 1 && ds[0].m.life == 1 && ds[0].life == 1 + WRAP && ds[0].target == ds[0].m.slot && !(ds[0].now - ds[0].m.life < WRAP)
  {
    hide Run, LegalRun, Lives;
    var s, m := Init(1, 1), Message(FD, 0, 1, 1);
    Captures();
    LivesOn(s, CAPTURE, 1, OPEN, [m], WRAP);
    var lives := Lives(CAPTURE, WRAP);
    assert (1 + WRAP) % WRAP == 1;
    var open := lives + [SetState(FD, OPEN)];
    Snoc(s, lives, SetState(FD, OPEN));
    assert Run(s, open) == Opened(1 + WRAP, OPEN, [m]);
    acts := open + [Dispatch(0)];
    Snoc(s, open, Dispatch(0));
  }
}
