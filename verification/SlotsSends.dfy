/** What a sender thread and the dispatch of its message achieve. */
module SlotsSends {
  import opened Slots
  import opened SlotsInvariant
  import opened SlotsTheorems

  // ----- A sender that nobody disturbs

  /** Sender t looks fd up and takes k steps more. */
  function Sending(s: State, t: Tid, fd: Fd, k: nat): State {
    if k == 0 then Step(s, Find(t, fd)) else SendStep(Sending(s, t, fd, k - 1), t)
  }

  lemma HashLeads(s: State, place: seq<Place>, fd: Fd)
    requires Inv(s, place) && fd in s.hash
    ensures s.hash[fd] < |s.slots| && s.slots[s.hash[fd]].fd == fd
    ensures s.slots[s.hash[fd]].generation == s.slots[s.hash[fd]].life % WRAP
  {
    assert SlotInv(s.slots[s.hash[fd]], place[s.hash[fd]], s.thread, s.hash[fd], Count(s.senders, s.hash[fd]));
  }

  /** In every reachable state a sender's own steps queue exactly one message for an open connection, with
      the slot's generation and life, and leave everything else as it was, the reference count included. For
      a connection that is not open, or none, they change nothing. */
  lemma SendAlone(size: nat, senders: nat, acts: seq<Action>, t: Tid, fd: Fd)
    requires size <= INDEX_WRAP && LegalRun(Init(size, senders), acts)
    requires var s := After(size, senders, acts); t < |s.senders| && s.senders[t].Out?
    ensures var s := After(size, senders, acts);
            if fd !in s.hash then Sending(s, t, fd, 0) == s
            else
              && s.hash[fd] < |s.slots|
              && var i, c := s.hash[fd], s.slots[s.hash[fd]];
                 if c.state != OPEN then Sending(s, t, fd, 2) == s
                 else Sending(s, t, fd, 4) == s.(queue := s.queue + [Message(fd, i, c.life % 0x1_0000_0000, c.life)])
  {
    hide Run, LegalRun, Inv;
    var s := After(size, senders, acts);
    RunInv(size, senders, acts);
    if fd in s.hash {
      HashLeads(s, RunPlace(size, senders, acts), fd);
      SendSteps(s, t, fd, s.hash[fd]);
    }
  }

  lemma SendSteps(s: State, t: Tid, fd: Fd, i: nat)
    requires t < |s.senders| && s.senders[t].Out? && fd in s.hash && s.hash[fd] == i < |s.slots|
    ensures s.slots[i].state != OPEN ==> Sending(s, t, fd, 2) == s
    ensures s.slots[i].state == OPEN ==>
              Sending(s, t, fd, 4) == s.(queue := s.queue + [Message(fd, i, s.slots[i].generation, s.slots[i].life)])
  {
    var c := s.slots[i];
    var held := s.slots[i := c.(refs := c.refs + 1)];
    assert held[i := c] == s.slots && s.senders[t := Out] == s.senders;
    assert Sending(s, t, fd, 0) == s.(slots := held, senders := s.senders[t := Found(i, fd, c.life)]);
    if c.state != OPEN {
      assert Sending(s, t, fd, 1) == s.(slots := held, senders := s.senders[t := Leaving(i, fd, c.life)]);
    } else {
      var m := Message(fd, i, c.generation, c.life);
      assert Sending(s, t, fd, 1) == s.(slots := held, senders := s.senders[t := Checked(i, fd, c.life)]);
      assert Sending(s, t, fd, 2) == s.(slots := held, senders := s.senders[t := Captured(i, fd, c.life, c.generation)]);
      assert Sending(s, t, fd, 3) == s.(slots := held, queue := s.queue + [m], senders := s.senders[t := Leaving(i, fd, c.life)]);
    }
  }

  /** A sender that only looks leaves no trace. */
  lemma LookAlone(size: nat, senders: nat, acts: seq<Action>, t: Tid, fd: Fd)
    requires size <= INDEX_WRAP && LegalRun(Init(size, senders), acts)
    requires var s := After(size, senders, acts); t < |s.senders| && s.senders[t].Out? && fd in s.hash
    ensures var s := After(size, senders, acts); Step(Step(Step(s, Find(t, fd)), GiveUp(t)), Send(t)) == s
  {
    hide Run, LegalRun, Inv;
    var s := After(size, senders, acts);
    RunInv(size, senders, acts);
    HashLeads(s, RunPlace(size, senders, acts), fd);
    LookSteps(s, t, fd, s.hash[fd]);
  }

  lemma LookSteps(s: State, t: Tid, fd: Fd, i: nat)
    requires t < |s.senders| && s.senders[t].Out? && fd in s.hash && s.hash[fd] == i < |s.slots|
    ensures Step(Step(Step(s, Find(t, fd)), GiveUp(t)), Send(t)) == s
  {
    var c := s.slots[i];
    var held := s.slots[i := c.(refs := c.refs + 1)];
    assert held[i := c] == s.slots && s.senders[t := Out] == s.senders;
    assert Step(s, Find(t, fd)) == s.(slots := held, senders := s.senders[t := Found(i, fd, c.life)]);
    assert Step(Step(s, Find(t, fd)), GiveUp(t)) == s.(slots := held, senders := s.senders[t := Leaving(i, fd, c.life)]);
  }

  /** The state the protocol sets decides: a send queues its message if it is OPEN, and otherwise leaves no
      trace. */
  lemma StateDecides(size: nat, senders: nat, acts: seq<Action>, t: Tid, fd: Fd, state: ConnState)
    requires size <= INDEX_WRAP && LegalRun(Init(size, senders), acts) && state != CLOSED
    requires var s := After(size, senders, acts);
             s.thread.Idle? && t < |s.senders| && s.senders[t].Out? && fd in s.hash
    ensures var s := After(size, senders, acts);
            var u := Step(s, SetState(fd, state));
            && s.hash[fd] < |s.slots|
            && if state == OPEN then
                 Sending(u, t, fd, 4).queue == s.queue + [Message(fd, s.hash[fd], s.slots[s.hash[fd]].generation, s.slots[s.hash[fd]].life)]
               else Sending(u, t, fd, 2) == u
  {
    hide Run, LegalRun, Inv;
    var s := After(size, senders, acts);
    RunInv(size, senders, acts);
    HashLeads(s, RunPlace(size, senders, acts), fd);
    RegisteredUnderOwnFd(size, senders, acts);
    SendSteps(Step(s, SetState(fd, state)), t, fd, s.hash[fd]);
  }

  // ----- Dispatch

  /** The descriptor leads to an open connection. */
  predicate OpenAt(s: State, fd: Fd) {
    fd in s.fdMap && s.fdMap[fd] < |s.slots| && s.slots[s.fdMap[fd]].state == OPEN
  }

  lemma MessageFacts(s: State, place: seq<Place>, k: nat)
    requires Inv(s, place) && k < |s.queue|
    ensures var m := s.queue[k];
            && m.slot < |s.slots| && m.life <= s.slots[m.slot].life
            && m.generation == m.life % WRAP && s.slots[m.slot].generation == s.slots[m.slot].life % WRAP
            && (m.fd in s.fdMap ==> s.fdMap[m.fd] < |s.slots|)
  {
    var m := s.queue[k];
    assert MessageInv(s.slots, place, s.thread, m);
    assert SlotInv(s.slots[m.slot], place[m.slot], s.thread, m.slot, Count(s.senders, m.slot));
  }

  lemma SameResidue(a: nat, b: nat)
    requires a <= b
    ensures a % WRAP == b % WRAP <==> (b - a) % WRAP == 0
  {
    var q, r := a / WRAP, b / WRAP;
    assert a % WRAP == b % WRAP ==> b - a == WRAP * (r - q);
  }

  /** In every reachable state, a queued send is delivered if and only if its slot holds an open connection
      whose life is the captured one or a multiple of 2^32 later, and its descriptor leads to an open one,
      which is the one that gets it. Otherwise it is dropped. */
  lemma DispatchExactly(size: nat, senders: nat, acts: seq<Action>, k: nat)
    requires size <= INDEX_WRAP && LegalRun(Init(size, senders), acts)
    requires After(size, senders, acts).thread.Idle? && k < |After(size, senders, acts).queue|
    ensures var s := After(size, senders, acts);
            var m, t := s.queue[k], Step(s, Dispatch(k));
            && m.slot < |s.slots| && m.life <= s.slots[m.slot].life
            && var c := s.slots[m.slot];
               if c.state == OPEN && (c.life - m.life) % 0x1_0000_0000 == 0 && OpenAt(s, m.fd) then
                 t == s.(deliveries := s.deliveries + [Delivery(m, c.life, s.fdMap[m.fd], s.slots[s.fdMap[m.fd]].life)])
               else t == s
  {
    hide Run, LegalRun, Inv;
    var s := After(size, senders, acts);
    RunInv(size, senders, acts);
    MessageFacts(s, RunPlace(size, senders, acts), k);
    SameResidue(s.queue[k].life, s.slots[s.queue[k].slot].life);
  }

  /** So a send whose connection is still there and open reaches it. */
  lemma SendReaches(size: nat, senders: nat, acts: seq<Action>, k: nat)
    requires size <= INDEX_WRAP && LegalRun(Init(size, senders), acts)
    requires After(size, senders, acts).thread.Idle? && k < |After(size, senders, acts).queue|
    requires var s := After(size, senders, acts); var m := s.queue[k];
             m.slot < |s.slots| && s.slots[m.slot].life == m.life && s.slots[m.slot].state == OPEN
    ensures var s := After(size, senders, acts); var m := s.queue[k];
            Step(s, Dispatch(k)).deliveries == s.deliveries + [Delivery(m, m.life, m.slot, m.life)]
  {
    hide Run, LegalRun, Inv, Step;
    var s := After(size, senders, acts);
    RunInv(size, senders, acts);
    OpenIsMapped(s, RunPlace(size, senders, acts), k);
    DispatchExactly(size, senders, acts, k);
  }

  lemma OpenIsMapped(s: State, place: seq<Place>, k: nat)
    requires Inv(s, place) && s.thread.Idle? && k < |s.queue|
    requires var m := s.queue[k]; m.slot < |s.slots| && s.slots[m.slot].life == m.life && s.slots[m.slot].state == OPEN
    ensures var m := s.queue[k]; m.fd in s.fdMap && s.fdMap[m.fd] == m.slot
  {
    var m := s.queue[k];
    assert MessageInv(s.slots, place, s.thread, m);
    assert SlotInv(s.slots[m.slot], place[m.slot], s.thread, m.slot, Count(s.senders, m.slot));
  }
}
