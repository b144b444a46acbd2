/** What the slot life cycle guarantees in every state of every run. */
module SlotsTheorems {
  import opened Common
  import opened Slots
  import opened SlotsInvariant

  function After(size: nat, senders: nat, acts: seq<Action>): State {
    Run(Init(size, senders), acts)
  }

  // ----- Three classes of slots

  predicate IsFree(s: State, i: nat) {
    i in s.free
  }

  predicate IsRegistered(s: State, i: nat) {
    exists fd :: fd in s.fdMap && s.fdMap[fd] == i
  }

  /** Closed after having been used. */
  predicate IsRetired(s: State, i: nat) {
    i < |s.slots| && s.slots[i].state == CLOSED && s.slots[i].life > 0
  }

  lemma ClassOfPlace(s: State, place: seq<Place>, i: nat)
    requires Inv(s, place) && i < |s.slots|
    ensures IsFree(s, i) <==> place[i].Free?
    ensures IsRegistered(s, i) <==> place[i].Registered?
    ensures !place[i].Busy? ==> (IsRetired(s, i) <==> place[i].Retired?)
  {
    hide QueueInv, DeliveriesInv, SendersInv, HashInv;
    assert SlotInv(s.slots[i], place[i], s.thread, i, Count(s.senders, i));
  }

  /** Between two operations of the event thread, free, registered and retired slots partition
      the array, and the free stack holds no index twice. */
  lemma SlotsPartition(size: nat, senders: nat, acts: seq<Action>, i: nat)
    requires size <= INDEX_WRAP && LegalRun(Init(size, senders), acts)
    requires After(size, senders, acts).thread.Idle? && i < |After(size, senders, acts).slots|
    ensures var s := After(size, senders, acts);
            && One(IsFree(s, i)) + One(IsRegistered(s, i)) + One(IsRetired(s, i)) == 1
            && forall j, k | 0 <= j < k < |s.free| :: s.free[j] != s.free[k]
  {
    var s, place := After(size, senders, acts), RunPlace(size, senders, acts);
    RunInv(size, senders, acts);
    ClassOfPlace(s, place, i);
  }

  /** Every registered slot is the one its own fd leads to, and the hash agrees. */
  lemma RegisteredUnderOwnFd(size: nat, senders: nat, acts: seq<Action>)
    requires size <= INDEX_WRAP && LegalRun(Init(size, senders), acts)
    ensures var s := After(size, senders, acts);
            && (forall fd | fd in s.fdMap :: s.fdMap[fd] < |s.slots| && s.slots[s.fdMap[fd]].fd == fd)
            && (s.thread.Idle? ==> forall fd | fd in s.hash :: fd in s.fdMap && s.hash[fd] == s.fdMap[fd])
  {
    RunInv(size, senders, acts);
  }

  /** A slot about to be initialised is referenced by no sender, and neither the fd map nor the
      hash leads to it. */
  lemma ReusedOnlyUnreferenced(size: nat, senders: nat, acts: seq<Action>)
    requires size <= INDEX_WRAP && LegalRun(Init(size, senders), acts)
    requires After(size, senders, acts).thread.Popped?
    ensures var s := After(size, senders, acts);
            var i := s.thread.i;
            && (forall t | 0 <= t < |s.senders| :: !Holds(s.senders[t], i))
            && (forall fd | fd in s.fdMap :: s.fdMap[fd] != i)
            && (forall fd | fd in s.hash :: s.hash[fd] != i)
  {
    var s, place := After(size, senders, acts), RunPlace(size, senders, acts);
    RunInv(size, senders, acts);
    NobodyHolds(s, place, s.thread.i);
  }

  /** The reference count of a retired slot is the number of senders still holding it. */
  lemma RetiredCounts(size: nat, senders: nat, acts: seq<Action>, i: nat)
    requires size <= INDEX_WRAP && LegalRun(Init(size, senders), acts)
    requires After(size, senders, acts).thread.Idle? && IsRetired(After(size, senders, acts), i)
    ensures var s := After(size, senders, acts); s.slots[i].refs == Count(s.senders, i)
  {
    var s, place := After(size, senders, acts), RunPlace(size, senders, acts);
    RunInv(size, senders, acts);
    ClassOfPlace(s, place, i);
  }

  // ----- Retirement

  function RunPlaceFrom(s: State, place: seq<Place>, acts: seq<Action>): seq<Place> {
    if acts == [] then place
    else
      var before := acts[..|acts| - 1];
      NextPlace(Run(s, before), RunPlaceFrom(s, place, before), acts[|acts| - 1])
  }

  lemma RetiredStep(s: State, place: seq<Place>, a: Action, i: nat)
    requires Inv(s, place) && Legal(s, a) && i < |place| && place[i].Retired?
    ensures i < |NextPlace(s, place, a)| && NextPlace(s, place, a)[i].Retired?
    ensures i < |Step(s, a).slots| && Step(s, a).slots[i].life == At(s, i).life
  {
    hide QueueInv, DeliveriesInv, SendersInv, HashInv;
  }

  lemma {:induction false} RetiredRun(s: State, place: seq<Place>, acts: seq<Action>, i: nat)
    requires Inv(s, place) && LegalRun(s, acts) && i < |place| && place[i].Retired?
    ensures Inv(Run(s, acts), RunPlaceFrom(s, place, acts))
    ensures i < |RunPlaceFrom(s, place, acts)| && RunPlaceFrom(s, place, acts)[i].Retired?
    ensures At(Run(s, acts), i).life == At(s, i).life
  {
    hide Inv, Step, NextPlace, Legal;
    if acts != [] {
      var before, a := acts[..|acts| - 1], acts[|acts| - 1];
      RetiredRun(s, place, before, i);
      StepInv(Run(s, before), RunPlaceFrom(s, place, before), a);
      RetiredStep(Run(s, before), RunPlaceFrom(s, place, before), a, i);
    }
  }

  lemma RetiredPlace(s: State, place: seq<Place>, i: nat)
    requires Inv(s, place) && i < |place| && place[i].Retired?
    ensures IsRetired(s, i)
  {
    assert SlotInv(s.slots[i], place[i], s.thread, i, Count(s.senders, i));
  }

  /** A slot that is retired between two operations is retired, in the same life, ever after. */
  lemma RetiredForever(size: nat, senders: nat, acts: seq<Action>, more: seq<Action>, i: nat)
    requires size <= INDEX_WRAP && LegalRun(Init(size, senders), acts) && LegalRun(After(size, senders, acts), more)
    requires After(size, senders, acts).thread.Idle? && IsRetired(After(size, senders, acts), i)
    ensures IsRetired(Run(After(size, senders, acts), more), i)
    ensures At(Run(After(size, senders, acts), more), i).life == At(After(size, senders, acts), i).life
  {
    hide Inv, Run, LegalRun;
    var s, place := After(size, senders, acts), RunPlace(size, senders, acts);
    RunInv(size, senders, acts);
    ThreadSlot(s, place);
    IdleClass(s, place, i);
    ClassOfPlace(s, place, i);
    RetiredRun(s, place, more, i);
    RetiredPlace(Run(s, more), RunPlaceFrom(s, place, more), i);
  }

  lemma IdleClass(s: State, place: seq<Place>, i: nat)
    requires Inv(s, place) && s.thread.Idle? && i < |place|
    ensures !place[i].Busy?
  {
  }

  // ----- Deliveries

  /** The slot of the message was in a life with the captured generation; and this is the
      captured life of the captured slot exactly if fewer than 2^32 lives lie in between. */
  predicate RightLife(d: Delivery) {
    && d.m.life <= d.now && WholeWraps(d.now - d.m.life)
    && (d.now - d.m.life < WRAP <==> d.target == d.m.slot && d.life == d.m.life)
  }

  /** A queued send is delivered to the connection life it was captured for, and never to a
      later occupant of the slot or the fd -- up to the wrap-around of the generation. */
  lemma DeliveredToCapturedLife(size: nat, senders: nat, acts: seq<Action>)
    requires size <= INDEX_WRAP && LegalRun(Init(size, senders), acts)
    ensures var s := After(size, senders, acts);
            forall k | 0 <= k < |s.deliveries| :: RightLife(s.deliveries[k])
  {
    hide PlacesInv, SlotsInv, MapInv, ThreadInv, HashInv, SendersInv, QueueInv, DeliveryOk, RightLife, Run, LegalRun;
    RunInv(size, senders, acts);
    var s := After(size, senders, acts);
    forall k | 0 <= k < |s.deliveries| ensures RightLife(s.deliveries[k]) {
      SameLife(s.deliveries[k]);
    }
  }

  lemma SameLife(d: Delivery)
    requires DeliveryOk(d)
    ensures RightLife(d)
  {
  }

  // ----- The descriptor assumption is exact

  function Steps(s: State, k: nat): State {
    if k == 0 then s else ProceedStep(Steps(s, k - 1))
  }

  /** If a new connection came in under an fd that is still registered, the registered slot
      would fall out of all three classes; with a fresh fd the invariant is kept. */
  lemma AcceptNeedsFreshFd(s: State, place: seq<Place>, fd: Fd)
    requires Inv(s, place) && s.thread.Idle? && s.free != []
    ensures fd !in s.fdMap ==> Inv(AcceptStep(s, fd), place[s.free[|s.free| - 1] := Busy])
    ensures fd in s.fdMap ==>
              var t := Steps(AcceptStep(s, fd), 3);
              var i := s.fdMap[fd];
              t.thread.Idle? && i < |t.slots| && !IsFree(t, i) && !IsRegistered(t, i) && !IsRetired(t, i)
  {
    if fd !in s.fdMap {
      AcceptInv(s, place, fd);
    } else {
      AcceptTwice(s, place, fd);
    }
  }

  lemma AcceptTwice(s: State, place: seq<Place>, fd: Fd)
    requires Inv(s, place) && s.thread.Idle? && s.free != [] && fd in s.fdMap
    ensures var t := Steps(AcceptStep(s, fd), 3);
            var i := s.fdMap[fd];
            t.thread.Idle? && i < |t.slots| && !IsFree(t, i) && !IsRegistered(t, i) && !IsRetired(t, i)
  {
    hide QueueInv, DeliveriesInv, SendersInv, HashInv;
    var i, n := s.fdMap[fd], s.free[|s.free| - 1];
    ClassOfPlace(s, place, i);
    ThreadSlot(s, place);
    var s0 := AcceptStep(s, fd);
    var s1 := s0.(slots := s.slots[n := InitSlot(s.slots[n], fd, n)], thread := Inited(fd, n));
    var s2 := s1.(fdMap := s.fdMap[fd := n], thread := Mapped(fd, n));
    assert Steps(s0, 1) == s1;
    assert Steps(s0, 2) == s2;
    assert i != n;
  }
}
