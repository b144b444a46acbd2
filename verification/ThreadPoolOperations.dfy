/** What submitting, working and stopping achieve in the thread pool of src/aio/aio_threadpool.c. */
module ThreadPoolOperations {
  import Aio
  import opened ThreadPool

  // ----- Submitting

  /** A choice the condition variable has: a sleeper, if there is one. */
  predicate MayWake(s: State, wake: Tid) {
    (exists w | 0 <= w < |s.workers| :: s.workers[w].Asleep?) ==> wake < |s.workers| && s.workers[wake].Asleep?
  }

  /** In every reachable state a submission is accepted if and only if the pool is unbounded or the queue is
      shorter than the bound; it is then the last of the queue and one sleeper is woken. A refused
      submission changes nothing. */
  lemma SubmitExactly(workers: nat, maxDepth: nat, acts: seq<Action>, wake: Tid)
    requires workers > 0 && MayWake(Run(Init(workers, maxDepth), acts), wake)
    ensures var s := Run(Init(workers, maxDepth), acts);
            var t := Step(s, Submit(wake));
            if maxDepth == 0 || |s.queue| < maxDepth then
              && t.accepted == s.accepted + 1 && t.queue == s.queue + [s.accepted]
              && t == s.(queue := t.queue, depth := s.depth + 1, accepted := t.accepted, workers := t.workers)
              && t.workers == if wake < |s.workers| && s.workers[wake].Asleep? then s.workers[wake := Looking] else s.workers
            else t == s
  {
    hide Run, Init, Inv;
    DepthAndOrder(workers, maxDepth, acts);
  }

  // ----- One worker

  /** k steps of worker w and of nobody else. */
  function Working(s: State, w: Tid, k: nat): State {
    if k == 0 then s else WorkStep(Working(s, w, k - 1), w)
  }

  lemma WorkingNext(s: State, w: Tid, k: nat)
    ensures Working(s, w, k + 1) == WorkStep(Working(s, w, k), w) && Working(s, w, 0) == s
  {
  }

  lemma {:induction false} WorkingSplit(s: State, w: Tid, j: nat, k: nat)
    ensures Working(s, w, j + k) == Working(Working(s, w, j), w, k)
  {
    hide WorkStep;
    if k > 0 {
      WorkingSplit(s, w, j, k - 1);
    }
  }

  lemma {:induction false} WorkingInv(s: State, place: seq<Place>, w: Tid, k: nat) returns (place': seq<Place>)
    requires Inv(s, place)
    ensures Inv(Working(s, w, k), place')
  {
    hide Inv, WorkStep;
    place' := place;
    if k > 0 {
      place' := WorkingInv(s, place, w, k - 1);
      StepInv(Working(s, w, k - 1), place', Work(w));
      place' := NextPlace(Working(s, w, k - 1), place', Work(w));
    }
  }

  /** Worker w got this far: it has posted these tasks, and the event thread knows or is being told. */
  predicate Posted(s: State, t: State, w: Tid, done: seq<Task>) {
    && |t.workers| == |s.workers| && (forall v | 0 <= v < |s.workers| && v != w :: t.workers[v] == s.workers[v])
    && t.accepted == s.accepted && t.stop == s.stop && t.maxDepth == s.maxDepth
    && t.aio.log == s.aio.log + done && t.aio.queue == s.aio.queue + done
    && t.aio.drainer == s.aio.drainer && t.aio.fired == s.aio.fired
    && (done == [] ==> t.aio == s.aio) && (done != [] ==> t.aio.notified)
    && t.aio.counter == s.aio.counter + (if done != [] && !s.aio.notified then 1 else 0)
    && t.aio.edge == (s.aio.edge || (done != [] && !s.aio.notified))
  }

  /** One task: taken from the front, run and posted. */
  lemma RunsOne(s: State, w: Tid) returns (k: nat)
    requires w < |s.workers| == |s.aio.posters| && s.workers[w].Looking? && s.aio.posters[w].Idle? && s.queue != []
    ensures var t := Working(s, w, k);
            && Posted(s, t, w, [s.queue[0]]) && t.queue == s.queue[1..] && t.workers[w].Looking?
            && t.aio.posters == s.aio.posters
  {
    hide Working;
    WorkingNext(s, w, 0);
    var task := s.queue[0];
    var s1 := s.(queue := s.queue[1..], depth := s.depth - 1, started := s.started + 1,
                 workers := s.workers[w := Running(task)]);
    assert Working(s, w, 1) == s1;
    var aio2 := Aio.Append(s.aio, task).(posters := s.aio.posters[w := Aio.Enqueued]);
    var s2 := s1.(aio := aio2, workers := s.workers[w := ThreadPool.Posting]);
    assert Working(s, w, 2) == s2 by { WorkingNext(s, w, 1); }
    assert s.aio.posters[w := Aio.Idle] == s.aio.posters;
    WorkingNext(s, w, 2);
    if s.aio.notified {
      k := 3;
    } else {
      k := 4;
      var s3 := s2.(aio := aio2.(notified := true, posters := s.aio.posters[w := Aio.MustWrite]));
      assert Working(s, w, 3) == s3;
      WorkingNext(s, w, 3);
    }
  }

  lemma PostedMore(s: State, t: State, u: State, w: Tid, a: seq<Task>, b: seq<Task>)
    requires Posted(s, t, w, a) && Posted(t, u, w, b)
    ensures Posted(s, u, w, a + b)
  {
    assert s.aio.log + (a + b) == s.aio.log + a + b;
    assert s.aio.queue + (a + b) == s.aio.queue + a + b;
  }

  lemma PostedNothing(s: State, t: State, w: Tid, k: Worker)
    requires w < |s.workers| && t == s.(workers := s.workers[w := k], atExit := t.atExit)
    ensures Posted(s, t, w, [])
  {
    assert s.aio.log + [] == s.aio.log && s.aio.queue + [] == s.aio.queue;
  }

  /** A worker that nobody disturbs runs everything in the queue, in order, and then sleeps or, when the pool
      is being destroyed, leaves. */
  lemma {:induction false} EmptiesQueue(s: State, w: Tid) returns (k: nat)
    requires w < |s.workers| == |s.aio.posters| && s.workers[w].Looking? && s.aio.posters[w].Idle?
    ensures var t := Working(s, w, k);
            && Posted(s, t, w, s.queue) && t.queue == [] && t.workers[w] == if s.stop then Exited else Asleep
    decreases |s.queue|
  {
    hide Working, Posted, WorkStep;
    if s.queue == [] {
      k := 1;
      WorkingNext(s, w, 0);
      Rests(s, w);
      PostedNothing(s, WorkStep(s, w), w, if s.stop then Exited else Asleep);
    } else {
      var j := RunsOne(s, w);
      var t := Working(s, w, j);
      SameShape(s, t, w, [s.queue[0]]);
      var i := EmptiesQueue(t, w);
      k := j + i;
      WorkingSplit(s, w, j, i);
      PostedMore(s, t, Working(t, w, i), w, [s.queue[0]], t.queue);
      assert [s.queue[0]] + s.queue[1..] == s.queue;
    }
  }

  lemma Rests(s: State, w: Tid)
    requires w < |s.workers| && s.workers[w].Looking? && s.queue == []
    ensures var t := WorkStep(s, w); t == s.(workers := s.workers[w := if s.stop then Exited else Asleep], atExit := t.atExit)
  {
  }

  lemma SameShape(s: State, t: State, w: Tid, done: seq<Task>)
    requires Posted(s, t, w, done)
    ensures |t.workers| == |s.workers| && t.stop == s.stop
  {
  }

  /** The same as a statement about runs. */
  lemma WorkerRunsAll(workers: nat, maxDepth: nat, acts: seq<Action>, w: Tid) returns (k: nat)
    requires workers > 0
    requires var s := Run(Init(workers, maxDepth), acts); w < |s.workers| && s.workers[w].Looking?
    ensures var s := Run(Init(workers, maxDepth), acts);
            var t := Working(s, w, k);
            && Posted(s, t, w, s.queue) && t.queue == [] && t.workers[w] == if s.stop then Exited else Asleep
  {
    hide Run, Init, Working, Posted;
    RunInv(workers, maxDepth, acts);
    k := EmptiesQueue(Run(Init(workers, maxDepth), acts), w);
  }

  // ----- Stopping

  /** Whatever a worker is doing, its own steps bring it back to look for work. */
  lemma LooksAgain(s: State, place: seq<Place>, w: Tid) returns (k: nat)
    requires Inv(s, place) && w < |s.workers| && Awake(s.workers[w])
    ensures var t := Working(s, w, k);
            && |t.workers| == |s.workers| && (forall v | 0 <= v < |s.workers| && v != w :: t.workers[v] == s.workers[v])
            && t.workers[w].Looking? && t.accepted == s.accepted && t.stop == s.stop
  {
    hide Working, Aio.Inv, PlacesInv;
    WorkingNext(s, w, 0);
    WorkingNext(s, w, 1);
    WorkingNext(s, w, 2);
    if s.workers[w].Looking? {
      k := 0;
    } else if s.workers[w].Running? {
      k := if s.aio.notified then 2 else 3;
    } else {
      k := if s.aio.posters[w].MustWrite? || s.aio.notified then 1 else 2;
    }
  }

  /** With the pool stopped, a worker's own steps make it leave, with nothing left in the queue. */
  lemma Leaves(s: State, place: seq<Place>, w: Tid) returns (k: nat, place': seq<Place>)
    requires Inv(s, place) && s.stop && w < |s.workers|
    ensures var t := Working(s, w, k);
            && Inv(t, place') && t.stop && t.accepted == s.accepted && |t.workers| == |s.workers|
            && t.workers[w].Exited? && (forall v | 0 <= v < |s.workers| && v != w :: t.workers[v] == s.workers[v])
            && (t.queue == [] || t == s)
  {
    hide Inv, Working, Posted;
    NobodySleeps(s, place, w);
    if s.workers[w].Exited? {
      k, place' := 0, place;
      WorkingNext(s, w, 0);
    } else {
      var j := LooksAgain(s, place, w);
      var t := Working(s, w, j);
      place' := WorkingInv(s, place, w, j);
      PosterOf(t, place', w);
      var i := EmptiesQueue(t, w);
      PostedFrame(t, Working(t, w, i), w, t.queue);
      place' := WorkingInv(t, place', w, i);
      k := j + i;
      WorkingSplit(s, w, j, i);
    }
  }

  lemma NobodySleeps(s: State, place: seq<Place>, w: Tid)
    requires Inv(s, place) && s.stop && w < |s.workers|
    ensures Awake(s.workers[w]) || s.workers[w].Exited?
  {
  }

  lemma PosterOf(s: State, place: seq<Place>, w: Tid)
    requires Inv(s, place) && w < |s.workers| && s.workers[w].Looking?
    ensures |s.workers| == |s.aio.posters| && s.aio.posters[w].Idle?
  {
  }

  lemma PostedFrame(s: State, t: State, w: Tid, done: seq<Task>)
    requires Posted(s, t, w, done)
    ensures |t.workers| == |s.workers| && (forall v | 0 <= v < |s.workers| && v != w :: t.workers[v] == s.workers[v])
    ensures t.accepted == s.accepted && t.stop == s.stop
  {
  }

  predicate ExitedUpTo(workers: seq<Worker>, n: nat) {
    forall w | 0 <= w < n && w < |workers| :: workers[w].Exited?
  }

  function WorkerSteps(w: Tid, k: nat): seq<Action> {
    if k == 0 then [] else WorkerSteps(w, k - 1) + [Work(w)]
  }

  lemma RunSnoc(s: State, acts: seq<Action>, a: Action)
    ensures Run(s, acts + [a]) == Step(Run(s, acts), a)
  {
    assert (acts + [a])[..|acts|] == acts;
  }

  lemma {:induction false} RunsWorking(s: State, acts: seq<Action>, w: Tid, k: nat)
    ensures Run(s, acts + WorkerSteps(w, k)) == Working(Run(s, acts), w, k)
    ensures forall i | 0 <= i < |WorkerSteps(w, k)| :: WorkerSteps(w, k)[i].Work?
  {
    hide Run, WorkStep;
    if k == 0 {
      assert acts + [] == acts;
    } else {
      RunsWorking(s, acts, w, k - 1);
      RunSnoc(s, acts + WorkerSteps(w, k - 1), Work(w));
      assert acts + WorkerSteps(w, k) == acts + WorkerSteps(w, k - 1) + [Work(w)];
    }
  }

  predicate OnlyWork(acts: seq<Action>) {
    forall i | 0 <= i < |acts| :: acts[i].Work?
  }

  lemma {:induction false} AllLeave(s: State, acts: seq<Action>, place: seq<Place>, n: nat)
      returns (more: seq<Action>, place': seq<Place>)
    requires Inv(Run(s, acts), place) && Run(s, acts).stop && n <= |Run(s, acts).workers|
    ensures OnlyWork(more)
    ensures var t := Run(s, acts + more);
            && Inv(t, place') && t.stop && t.accepted == Run(s, acts).accepted && |t.workers| == |Run(s, acts).workers|
            && ExitedUpTo(t.workers, n) && (t.queue == [] || t == Run(s, acts))
  {
    hide Run, Inv, Working;
    more, place' := [], place;
    assert acts + more == acts;
    if n > 0 {
      more, place' := AllLeave(s, acts, place, n - 1);
      var k;
      k, place' := Leaves(Run(s, acts + more), place', n - 1);
      RunsWorking(s, acts + more, n - 1, k);
      assert acts + more + WorkerSteps(n - 1, k) == acts + (more + WorkerSteps(n - 1, k));
      more := more + WorkerSteps(n - 1, k);
    }
  }

  /** tp_destroy can join all workers, and no task accepted before is lost: from every reachable state, after
      the stop flag the workers' own steps make all of them leave, and every accepted task has been posted. */
  lemma DestroyPostsAll(workers: nat, maxDepth: nat, acts: seq<Action>) returns (more: seq<Action>)
    requires workers > 0 && !AllExited(Run(Init(workers, maxDepth), acts))
    ensures OnlyWork(more)
    ensures var s, t := Run(Init(workers, maxDepth), acts), Run(Init(workers, maxDepth), acts + [Stop] + more);
            AllExited(t) && t.accepted == s.accepted && forall task: Task | task < s.accepted :: task in t.aio.log
  {
    hide Run, Init, Inv;
    var s0 := Init(workers, maxDepth);
    RunSnoc(s0, acts, Stop);
    RunInv(workers, maxDepth, acts + [Stop]);
    var t0 := Run(s0, acts + [Stop]);
    var place;
    more, place := AllLeave(s0, acts + [Stop], RunPlace(workers, maxDepth, acts + [Stop]), |t0.workers|);
    var t := Run(s0, acts + [Stop] + more);
    assert t.queue == [] by { StopKeepsExits(Run(s0, acts)); }
    NothingQueued(t, place);
    NothingLeftBehind(workers, maxDepth, acts + [Stop] + more);
  }

  lemma StopKeepsExits(s: State)
    ensures AllExited(Step(s, Stop)) <==> AllExited(s)
    ensures Step(s, Stop).stop && Step(s, Stop).accepted == s.accepted
  {
    var t := Step(s, Stop);
    assert forall w | 0 <= w < |s.workers| :: t.workers[w].Exited? <==> s.workers[w].Exited?;
  }

  lemma NothingQueued(s: State, place: seq<Place>)
    requires Inv(s, place) && s.queue == [] && AllExited(s)
    ensures s.accepted == s.atExit
  {
  }
}
