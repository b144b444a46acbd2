/** The inductive invariant of the slot life cycle and its preservation by every step. */
module SlotsInvariant {
  import opened Slots

  /** Which class a slot is in. */
  datatype Place =
    | Free(k: nat)       // on the free stack, at height k
    | Registered         // the fd map leads to it
    | Retired            // closed while referenced: never used again
    | Busy               // in the hands of the event thread, between these classes

  /** The slot the event thread has in its hands. */
  function Hand(th: Thread): int {
    match th
    case Popped(_, i) => i
    case Inited(_, i) => i
    case Unmapped(_, i) => i
    case Detached(i) => i
    case LastRef(i) => i
    case NotLast(i) => i
    case Wiped(i) => i
    case _ => -1
  }

  predicate PlacesInv(free: seq<nat>, th: Thread, place: seq<Place>) {
    && (forall k | 0 <= k < |free| :: free[k] < |place| && place[free[k]] == Free(k))
    && (forall i | 0 <= i < |place| ::
          match place[i]
          case Free(k) => k < |free| && free[k] == i
          case Busy => Hand(th) == i
          case _ => true)
    && (Hand(th) >= 0 ==> Hand(th) < |place| && place[Hand(th)].Busy?)
  }

  /** How many senders hold a reference to slot i. */
  function Count(senders: seq<Sender>, i: nat): nat {
    if senders == [] then 0
    else Count(senders[..|senders| - 1], i) + if Holds(senders[|senders| - 1], i) then 1 else 0
  }

  predicate Holds(d: Sender, i: nat) {
    !d.Out? && d.i == i
  }

  /** Reference count, generation, pool index and state of slot j fit its class. */
  predicate SlotInv(c: Slot, pl: Place, th: Thread, j: nat, count: nat) {
    && c.generation == c.life % WRAP
    && match pl
       case Free(_) => count == 0 && c.state != OPEN && (c.state == CLOSED ==> c.life == 0)
       case Registered => c.refs == 1 + count && c.poolIndex == j && Live(c)
       case Retired => c.refs == count && c.state == CLOSED && c.life > 0
       case Busy =>
         match th
         case Popped(_, _) => count == 0 && c.state != OPEN
         case Inited(fd, _) => c.refs == 1 + count && c.poolIndex == j && c.fd == fd && c.state == CONNECTING && Live(c)
         case Unmapped(fd, _) => c.refs == 1 + count && c.poolIndex == j && c.fd == fd && Live(c)
         case Detached(_) => c.refs == 1 + count && c.poolIndex == j && Live(c)
         case LastRef(_) => count == 0 && c.poolIndex == j && Live(c)
         case NotLast(_) => c.refs == count && Live(c)
         case Wiped(_) => count == 0 && c.state == CONNECTING
         case _ => false
  }

  predicate Live(c: Slot) {
    c.life > 0 && c.state != CLOSED
  }

  predicate SlotsInv(slots: seq<Slot>, place: seq<Place>, th: Thread, senders: seq<Sender>) {
    && |place| == |slots|
    && (forall j | 0 <= j < |slots| :: SlotInv(slots[j], place[j], th, j, Count(senders, j)))
  }

  /** The fd map leads to exactly the registered slots, each under its own fd. */
  predicate MapInv(slots: seq<Slot>, place: seq<Place>, fdMap: map<Fd, nat>) {
    && |place| == |slots|
    && (forall fd | fd in fdMap :: fdMap[fd] < |slots| && place[fdMap[fd]].Registered? && slots[fdMap[fd]].fd == fd)
    && (forall i | 0 <= i < |slots| && place[i].Registered? :: slots[i].fd in fdMap && fdMap[slots[i].fd] == i)
  }

  predicate ThreadInv(th: Thread, fdMap: map<Fd, nat>, hash: map<Fd, nat>) {
    match th
    case Popped(fd, _) => fd !in fdMap
    case Inited(fd, _) => fd !in fdMap
    case Mapped(fd, i) => fd in fdMap && fdMap[fd] == i
    case Unmapped(fd, _) => fd !in fdMap
    case Unhashed(fd, i) => fd in fdMap && fdMap[fd] == i && fd !in hash
    case _ => true
  }

  /** The hash leads to registered slots, or to the one just leaving. */
  predicate HashInv(slots: seq<Slot>, place: seq<Place>, th: Thread, hash: map<Fd, nat>) {
    && |place| == |slots|
    && (forall fd | fd in hash ::
          && hash[fd] < |slots| && slots[hash[fd]].fd == fd
          && (place[hash[fd]].Registered? || th == Unmapped(fd, hash[fd])))
  }

  /** A sender's slot is still in the life, and under the fd, in which it was found. */
  predicate SenderInv(slots: seq<Slot>, d: Sender) {
    d.Out? ||
    (d.i < |slots| && slots[d.i].life == d.life && slots[d.i].fd == d.fd && (d.Captured? ==> d.generation == d.life % WRAP))
  }

  predicate SendersInv(slots: seq<Slot>, senders: seq<Sender>) {
    forall t | 0 <= t < |senders| :: SenderInv(slots, senders[t])
  }

  /** The slot contains a connection (registered, on its way in or out, or retired). */
  predicate Occupied(pl: Place, th: Thread) {
    pl.Registered? || pl.Retired? || (pl.Busy? && !th.Popped? && !th.Wiped?)
  }

  /** A queued message carries the generation of its life, and its fd is that life's. */
  predicate MessageInv(slots: seq<Slot>, place: seq<Place>, th: Thread, m: Message) {
    && m.slot < |slots| == |place|
    && m.generation == m.life % WRAP
    && m.life <= slots[m.slot].life
    && (m.life == slots[m.slot].life && Occupied(place[m.slot], th) ==> slots[m.slot].fd == m.fd)
  }

  predicate QueueInv(slots: seq<Slot>, place: seq<Place>, th: Thread, queue: seq<Message>) {
    forall k | 0 <= k < |queue| :: MessageInv(slots, place, th, queue[k])
  }

  /** The generation counter comes back to the same value after n initialisations. */
  predicate WholeWraps(n: int) {
    n % WRAP == 0
  }

  predicate DeliveryOk(d: Delivery) {
    && d.m.life <= d.now && WholeWraps(d.now - d.m.life)
    && (d.now == d.m.life ==> d.target == d.m.slot && d.life == d.m.life)
    && (d.target == d.m.slot ==> d.life == d.now)
  }

  predicate DeliveriesInv(deliveries: seq<Delivery>) {
    forall k | 0 <= k < |deliveries| :: DeliveryOk(deliveries[k])
  }

  predicate Inv(s: State, place: seq<Place>) {
    && |s.slots| <= INDEX_WRAP
    && PlacesInv(s.free, s.thread, place)
    && SlotsInv(s.slots, place, s.thread, s.senders)
    && MapInv(s.slots, place, s.fdMap)
    && ThreadInv(s.thread, s.fdMap, s.hash)
    && HashInv(s.slots, place, s.thread, s.hash)
    && SendersInv(s.slots, s.senders)
    && QueueInv(s.slots, place, s.thread, s.queue)
    && DeliveriesInv(s.deliveries)
  }

  // ----- Counting references

  lemma {:induction false} CountUpdate(senders: seq<Sender>, t: Tid, d: Sender, i: nat)
    requires t < |senders|
    ensures Count(senders[t := d], i) ==
            Count(senders, i) - (if Holds(senders[t], i) then 1 else 0) + (if Holds(d, i) then 1 else 0)
  {
    var n := |senders| - 1;
    var after := senders[t := d];
    if t == n {
      assert after[..n] == senders[..n];
    } else {
      CountUpdate(senders[..n], t, d, i);
      assert after[..n] == senders[..n][t := d];
    }
  }

  lemma {:induction false} CountPositive(senders: seq<Sender>, t: Tid, i: nat)
    requires t < |senders| && Holds(senders[t], i)
    ensures Count(senders, i) > 0
  {
    if t < |senders| - 1 {
      CountPositive(senders[..|senders| - 1], t, i);
    }
  }

  lemma {:induction false} CountNone(senders: seq<Sender>, i: nat)
    requires forall t | 0 <= t < |senders| :: !Holds(senders[t], i)
    ensures Count(senders, i) == 0
  {
    if senders != [] {
      CountNone(senders[..|senders| - 1], i);
    }
  }

  // ----- The initial state

  function InitPlace(size: nat): seq<Place> {
    seq(size, (i: nat) requires i < size => Free(size - 1 - i))
  }

  lemma InitInv(size: nat, senders: nat)
    requires size <= INDEX_WRAP
    ensures Inv(Init(size, senders), InitPlace(size))
  {
    var s := Init(size, senders);
    forall j | 0 <= j < |s.slots| ensures Count(s.senders, j) == 0 {
      CountNone(s.senders, j);
    }
  }

  // ----- Event thread: opening a connection

  lemma AcceptInv(s: State, place: seq<Place>, fd: Fd)
    requires Inv(s, place) && s.thread.Idle? && s.free != [] && fd !in s.fdMap
    ensures Inv(AcceptStep(s, fd), place[s.free[|s.free| - 1] := Busy])
  {
    hide DeliveriesInv, SendersInv;
  }

  lemma InitSlotInv(s: State, place: seq<Place>)
    requires Inv(s, place) && s.thread.Popped?
    ensures Inv(ProceedStep(s), place)
  {
    hide DeliveriesInv;
    var i := s.thread.i;
    NobodyHolds(s, place, i);
    assert (s.slots[i].generation + 1) % WRAP == (s.slots[i].life + 1) % WRAP;
  }

  /** No sender holds a slot whose count of references by senders is zero. */
  lemma NobodyHolds(s: State, place: seq<Place>, i: nat)
    requires i < |s.slots| && Count(s.senders, i) == 0
    ensures forall t | 0 <= t < |s.senders| :: !Holds(s.senders[t], i)
  {
    forall t | 0 <= t < |s.senders| && Holds(s.senders[t], i) ensures false {
      CountPositive(s.senders, t, i);
    }
  }

  lemma MapSlotInv(s: State, place: seq<Place>)
    requires Inv(s, place) && s.thread.Inited?
    ensures Inv(ProceedStep(s), place[s.thread.i := Registered])
  {
    hide DeliveriesInv, SendersInv;
  }

  lemma HashSlotInv(s: State, place: seq<Place>)
    requires Inv(s, place) && s.thread.Mapped?
    ensures Inv(ProceedStep(s), place)
  {
    hide DeliveriesInv, SendersInv;
  }

  // ----- Event thread: closing a connection

  lemma CloseInv(s: State, place: seq<Place>, fd: Fd)
    requires Inv(s, place) && s.thread.Idle? && fd in s.fdMap
    ensures Inv(Step(s, Close(fd)), place[s.fdMap[fd] := Busy])
  {
    hide DeliveriesInv, SendersInv;
  }

  lemma CloseRequestedInv(s: State, place: seq<Place>, fd: Fd)
    requires Inv(s, place) && s.thread.Idle? && fd in s.fdMap
    ensures Inv(Step(s, CloseRequested(fd)), place)
  {
    hide DeliveriesInv, SendersInv;
  }

  lemma UnhashInv(s: State, place: seq<Place>)
    requires Inv(s, place) && s.thread.Unmapped?
    ensures Inv(ProceedStep(s), place)
  {
    hide DeliveriesInv, SendersInv;
  }

  lemma UnmapInv(s: State, place: seq<Place>)
    requires Inv(s, place) && s.thread.Unhashed?
    ensures Inv(ProceedStep(s), place[s.thread.i := Busy])
  {
    hide DeliveriesInv, SendersInv;
  }

  lemma ReleaseInv(s: State, place: seq<Place>)
    requires Inv(s, place) && s.thread.Detached?
    ensures Inv(ProceedStep(s), place)
  {
    hide DeliveriesInv;
  }

  lemma WipeInv(s: State, place: seq<Place>)
    requires Inv(s, place) && s.thread.LastRef?
    ensures Inv(ProceedStep(s), place)
  {
    hide DeliveriesInv;
    NobodyHolds(s, place, s.thread.i);
  }

  lemma RetireInv(s: State, place: seq<Place>)
    requires Inv(s, place) && s.thread.NotLast?
    ensures Inv(ProceedStep(s), place[s.thread.i := Retired])
  {
    hide DeliveriesInv;
  }

  lemma PushInv(s: State, place: seq<Place>)
    requires Inv(s, place) && s.thread.Wiped?
    ensures Inv(ProceedStep(s), place[s.thread.index := Free(|s.free|)])
  {
    hide DeliveriesInv, SendersInv;
    StackRoom(s, place);
  }

  /** The stack has room: the slot in hand is not on it. */
  lemma StackRoom(s: State, place: seq<Place>)
    requires PlacesInv(s.free, s.thread, place) && |place| == |s.slots| && Hand(s.thread) >= 0
    ensures |s.free| < |s.slots|
  {
    Pigeonhole(s.free + [Hand(s.thread)], |s.slots|);
  }

  /** Distinct numbers below n are at most n many. */
  lemma {:induction false} Pigeonhole(a: seq<nat>, n: nat)
    requires forall j | 0 <= j < |a| :: a[j] < n
    requires forall j, k | 0 <= j < k < |a| :: a[j] != a[k]
    ensures |a| <= n
  {
    if a != [] {
      assert a[0] < n;
      if k :| 0 <= k < |a| && a[k] == n - 1 {
        Pigeonhole(a[..k] + a[k + 1..], n - 1);
      } else {
        Pigeonhole(a, n - 1);
      }
    }
  }

  // ----- Event thread: state changes and dispatch

  lemma SetStateInv(s: State, place: seq<Place>, fd: Fd, state: ConnState)
    requires Inv(s, place) && s.thread.Idle? && fd in s.fdMap && state != CLOSED
    ensures Inv(Step(s, SetState(fd, state)), place)
  {
    hide DeliveriesInv;
  }

  /** A message that passes the generation guard reaches the life it was captured for, unless
      the slot went through a multiple of 2^32 lives in between. */
  lemma DispatchInv(s: State, place: seq<Place>, k: nat)
    requires Inv(s, place) && s.thread.Idle? && k < |s.queue|
    ensures Inv(Step(s, Dispatch(k)), place)
  {
    hide HashInv, SendersInv;
    var m := s.queue[k];
    assert MessageInv(s.slots, place, s.thread, m);
    var c := s.slots[m.slot];
    if c.generation == m.generation {
      SameResidue(m.life, c.life);
    }
  }

  lemma SameResidue(a: nat, b: nat)
    requires a <= b && a % WRAP == b % WRAP
    ensures WholeWraps(b - a)
  {
  }

  // ----- Senders

  /** Of all these only a slot's own invariant looks at its reference count. */
  lemma RefsFrame(slots: seq<Slot>, place: seq<Place>, th: Thread, fdMap: map<Fd, nat>, hash: map<Fd, nat>,
                  queue: seq<Message>, i: nat, r: int)
    requires i < |slots| && MapInv(slots, place, fdMap) && HashInv(slots, place, th, hash) && QueueInv(slots, place, th, queue)
    ensures var u := slots[i := slots[i].(refs := r)];
            MapInv(u, place, fdMap) && HashInv(u, place, th, hash) && QueueInv(u, place, th, queue)
  {
    var u := slots[i := slots[i].(refs := r)];
    assert forall k | 0 <= k < |queue| :: MessageInv(slots, place, th, queue[k]);
  }

  lemma SendersFrame(slots: seq<Slot>, senders: seq<Sender>, i: nat, r: int, t: nat, d: Sender)
    requires i < |slots| && t < |senders| && SendersInv(slots, senders) && SenderInv(slots, d)
    ensures SendersInv(slots[i := slots[i].(refs := r)], senders[t := d])
  {
  }

  lemma FindInv(s: State, place: seq<Place>, t: Tid, fd: Fd)
    requires Inv(s, place) && t < |s.senders| && s.senders[t].Out? && fd in s.hash
    ensures Inv(Step(s, Find(t, fd)), place)
  {
    hide DeliveriesInv, QueueInv, MapInv, SendersInv, ThreadInv;
    var u := Step(s, Find(t, fd));
    var i := s.hash[fd];
    var r := s.slots[i].refs + 1;
    RefsFrame(s.slots, place, s.thread, s.fdMap, s.hash, s.queue, i, r);
    SendersFrame(s.slots, s.senders, i, r, t, u.senders[t]);
    assert u.slots == s.slots[i := s.slots[i].(refs := r)];
    forall j | 0 <= j < |s.slots| ensures SlotInv(u.slots[j], place[j], u.thread, j, Count(u.senders, j)) {
      CountUpdate(s.senders, t, u.senders[t], j);
    }
  }

  lemma LeaveInv(s: State, place: seq<Place>, t: Tid)
    requires Inv(s, place) && t < |s.senders| && s.senders[t].Leaving?
    ensures Inv(SendStep(s, t), place)
  {
    hide DeliveriesInv, QueueInv, MapInv, PlacesInv, ThreadInv, HashInv;
    var u := SendStep(s, t);
    var i := s.senders[t].i;
    assert SenderInv(s.slots, s.senders[t]);
    CountPositive(s.senders, t, i);
    assert SlotInv(s.slots[i], place[i], s.thread, i, Count(s.senders, i));
    RefsFrame(s.slots, place, s.thread, s.fdMap, s.hash, s.queue, i, s.slots[i].refs - 1);
    SendersFrame(s.slots, s.senders, i, s.slots[i].refs - 1, t, Out);
    forall j | 0 <= j < |s.slots| ensures SlotInv(u.slots[j], place[j], u.thread, j, Count(u.senders, j)) {
      CountUpdate(s.senders, t, Out, j);
    }
  }

  /** Steps of a sender that keep its reference. */
  lemma SendInv(s: State, place: seq<Place>, t: Tid, d: Sender)
    requires Inv(s, place) && t < |s.senders| && !s.senders[t].Out? && !d.Out?
    requires d.i == s.senders[t].i && d.fd == s.senders[t].fd && d.life == s.senders[t].life
    requires d.Captured? ==> d.generation == At(s, d.i).generation
    ensures Inv(s.(senders := s.senders[t := d]), place)
  {
    hide DeliveriesInv, QueueInv, MapInv, HashInv, PlacesInv;
    var u := s.(senders := s.senders[t := d]);
    forall j | 0 <= j < |s.slots| ensures Count(u.senders, j) == Count(s.senders, j) {
      CountUpdate(s.senders, t, d, j);
    }
    assert SenderInv(s.slots, s.senders[t]);
  }

  lemma EnqueueInv(s: State, place: seq<Place>, t: Tid)
    requires Inv(s, place) && t < |s.senders| && s.senders[t].Captured?
    ensures Inv(s.(queue := s.queue + [Message(s.senders[t].fd, s.senders[t].i, s.senders[t].generation, s.senders[t].life)]), place)
  {
    hide DeliveriesInv, MapInv, HashInv, PlacesInv;
    assert SenderInv(s.slots, s.senders[t]);
  }

  // ----- Every step

  function NextPlace(s: State, place: seq<Place>, a: Action): seq<Place> {
    match a
    case Accept(_) =>
      if s.thread.Idle? && s.free != [] && s.free[|s.free| - 1] < |place| then place[s.free[|s.free| - 1] := Busy] else place
    case Close(fd) =>
      if s.thread.Idle? && fd in s.fdMap && s.fdMap[fd] < |place| then place[s.fdMap[fd] := Busy] else place
    case Proceed =>
      (match s.thread
       case Inited(_, i) => if i < |place| then place[i := Registered] else place
       case Unhashed(_, i) => if i < |place| then place[i := Busy] else place
       case NotLast(i) => if i < |place| then place[i := Retired] else place
       case Wiped(i) => if i < |place| then place[i := Free(|s.free|)] else place
       case _ => place)
    case _ => place
  }

  lemma ThreadSlot(s: State, place: seq<Place>)
    requires Inv(s, place)
    ensures |place| == |s.slots|
    ensures Hand(s.thread) >= 0 ==> Hand(s.thread) < |place|
    ensures s.thread.Unhashed? ==> s.thread.i < |place|
    ensures s.free != [] ==> s.free[|s.free| - 1] < |place|
    ensures forall fd | fd in s.fdMap :: s.fdMap[fd] < |place|
  {
  }

  lemma ProceedInv(s: State, place: seq<Place>)
    requires Inv(s, place)
    ensures Inv(ProceedStep(s), NextPlace(s, place, Proceed))
  {
    hide Inv;
    ThreadSlot(s, place);
    match s.thread
    case Idle =>
    case Popped(_, _) => InitSlotInv(s, place);
    case Inited(_, _) => MapSlotInv(s, place);
    case Mapped(_, _) => HashSlotInv(s, place);
    case Unmapped(_, _) => UnhashInv(s, place);
    case Unhashed(_, _) => UnmapInv(s, place);
    case Detached(_) => ReleaseInv(s, place);
    case LastRef(_) => WipeInv(s, place);
    case NotLast(_) => RetireInv(s, place);
    case Wiped(_) => PushInv(s, place);
  }

  lemma SendStepInv(s: State, place: seq<Place>, t: Tid)
    requires Inv(s, place) && t < |s.senders|
    ensures Inv(SendStep(s, t), place)
  {
    hide Inv;
    match s.senders[t]
    case Out =>
    case Found(i, fd, life) => SendInv(s, place, t, SendStep(s, t).senders[t]);
    case Checked(i, fd, life) => SendInv(s, place, t, Captured(i, fd, life, At(s, i).generation));
    case Captured(i, fd, life, _) =>
      EnqueueInv(s, place, t);
      SendInv(SendStep(s, t).(senders := s.senders), place, t, Leaving(i, fd, life));
    case Leaving(_, _, _) => LeaveInv(s, place, t);
  }

  /** The invariant is inductive. */
  lemma StepInv(s: State, place: seq<Place>, a: Action)
    requires Inv(s, place) && Legal(s, a)
    ensures Inv(Step(s, a), NextPlace(s, place, a))
  {
    hide Inv, ProceedStep, SendStep;
    ThreadSlot(s, place);
    match a
    case Accept(fd) => if s.thread.Idle? && s.free != [] { AcceptInv(s, place, fd); }
    case Close(fd) => if s.thread.Idle? && fd in s.fdMap { CloseInv(s, place, fd); }
    case CloseRequested(fd) => if s.thread.Idle? && fd in s.fdMap { CloseRequestedInv(s, place, fd); }
    case SetState(fd, state) => if s.thread.Idle? && fd in s.fdMap { SetStateInv(s, place, fd, state); }
    case Dispatch(k) => if s.thread.Idle? && k < |s.queue| { DispatchInv(s, place, k); }
    case Proceed => ProceedInv(s, place);
    case Find(t, fd) => if t < |s.senders| && s.senders[t].Out? && fd in s.hash { FindInv(s, place, t, fd); }
    case Send(t) => if t < |s.senders| { SendStepInv(s, place, t); } else { SendNobody(s, t); }
    case GiveUp(t) =>
      if t < |s.senders| && s.senders[t].Found? {
        SendInv(s, place, t, Leaving(s.senders[t].i, s.senders[t].fd, s.senders[t].life));
      }
  }

  lemma SendNobody(s: State, t: Tid)
    requires t >= |s.senders|
    ensures SendStep(s, t) == s
  {
  }

  function RunPlace(size: nat, senders: nat, acts: seq<Action>): seq<Place> {
    if acts == [] then InitPlace(size)
    else
      var before := acts[..|acts| - 1];
      NextPlace(Run(Init(size, senders), before), RunPlace(size, senders, before), acts[|acts| - 1])
  }

  lemma {:induction false} RunInv(size: nat, senders: nat, acts: seq<Action>)
    requires size <= INDEX_WRAP && LegalRun(Init(size, senders), acts)
    ensures Inv(Run(Init(size, senders), acts), RunPlace(size, senders, acts))
  {
    hide Inv;
    if acts == [] {
      InitInv(size, senders);
    } else {
      var before := acts[..|acts| - 1];
      RunInv(size, senders, before);
      StepInv(Run(Init(size, senders), before), RunPlace(size, senders, before), acts[|acts| - 1]);
    }
  }
}
