/** The thread-pool backend of src/aio/aio_threadpool.c on top of the completion frontend, as a
    transition system.  A critical section under the pool's mutex is one step; `post_completion`
    keeps its own steps in the frontend, where worker w is poster w.

    Tasks are numbered in the order they were accepted.
 */
module ThreadPool {
  import Aio
  import opened Common

  type Tid = nat
  type Task = nat

  datatype Worker =
    | Looking             // about to take the mutex and look for a task
    | Asleep              // waiting on the condition variable
    | Running(t: Task)    // reading the file
    | Posting             // inside post_completion
    | Exited

  /** `accepted` tasks were accepted and `started` of them handed to a worker so far;
      `atExit` is the number accepted when a worker exited last. */
  datatype State = State(
    aio: Aio.State, workers: seq<Worker>,
    queue: seq<Task>, depth: int, maxDepth: nat, stop: bool,
    accepted: nat, started: nat, atExit: nat)

  datatype Action =
    | Submit(wake: Tid)        // a submission; `wake` is the worker the signal wakes, if any sleeps
    | Work(w: Tid)             // the next step of worker w
    | Spurious(w: Tid)         // w wakes up without a signal
    | Stop                     // tp_destroy raises the stop flag
    | Drain                    // the next step of the event thread

  function Init(workers: nat, maxDepth: nat): State {
    State(Aio.Init(workers), seq(workers, (_: nat) => Looking), [], 0, maxDepth, false, 0, 0, 0)
  }

  predicate SomeAsleep(workers: seq<Worker>) {
    exists w | 0 <= w < |workers| :: workers[w].Asleep?
  }

  predicate Refuses(s: State) {
    s.maxDepth != 0 && s.depth >= s.maxDepth
  }

  /** tp_submit: refuse when the bounded queue is full, else append and signal one sleeper. */
  function SubmitStep(s: State, wake: Tid): State {
    if Refuses(s) then s
    else
      var sleeper := wake < |s.workers| && s.workers[wake].Asleep?;
      if SomeAsleep(s.workers) && !sleeper then s      // not a choice the condition variable has
      else s.(queue := s.queue + [s.accepted], depth := s.depth + 1, accepted := s.accepted + 1,
              workers := if sleeper then s.workers[wake := Looking] else s.workers)
  }

  /** tp_worker. */
  function WorkStep(s: State, w: Tid): State {
    if w >= |s.workers| then s else
    match s.workers[w]
    case Looking =>
      if s.queue != [] then
        s.(queue := s.queue[1..], depth := s.depth - 1, started := s.started + 1,
           workers := s.workers[w := Running(s.queue[0])])
      else if s.stop then s.(workers := s.workers[w := Exited], atExit := s.accepted)
      else s.(workers := s.workers[w := Asleep])
    case Asleep => s
    case Running(t) => s.(aio := Aio.PostStep(s.aio, w, t), workers := s.workers[w := Posting])
    case Posting =>
      var aio := Aio.PostStep(s.aio, w, 0);
      s.(aio := aio,
         workers := if w < |aio.posters| && aio.posters[w].Idle? then s.workers[w := Looking] else s.workers)
    case Exited => s
  }

  function Wake(k: Worker): Worker {
    if k.Asleep? then Looking else k
  }

  function Step(s: State, a: Action): State {
    match a
    case Submit(wake) => SubmitStep(s, wake)
    case Work(w) => WorkStep(s, w)
    case Spurious(w) =>
      if w < |s.workers| then s.(workers := s.workers[w := Wake(s.workers[w])]) else s
    case Stop =>
      s.(stop := true, workers := seq(|s.workers|, w requires 0 <= w < |s.workers| => Wake(s.workers[w])))
    case Drain => s.(aio := Aio.DrainStep(s.aio))
  }

  function Run(s: State, acts: seq<Action>): State {
    if acts == [] then s else Step(Run(s, acts[..|acts| - 1]), acts[|acts| - 1])
  }

  // ----- The invariant

  /** Where a started task is. */
  datatype Place = With(w: Tid) | Posted(i: nat)

  /** The tasks still queued are the last ones accepted, in order. */
  predicate QueueInv(s: State) {
    && s.started + |s.queue| == s.accepted
    && (forall i | 0 <= i < |s.queue| :: s.queue[i] == s.started + i)
    && s.depth == |s.queue|
    && (s.maxDepth != 0 ==> s.depth <= s.maxDepth)
  }

  /** Every started task is with exactly one worker or posted exactly once. */
  predicate PlacesInv(workers: seq<Worker>, log: seq<Aio.Completion>, started: nat, place: seq<Place>) {
    && |place| == started
    && (forall t | 0 <= t < |place| ::
          match place[t]
          case With(w) => w < |workers| && workers[w] == Running(t)
          case Posted(i) => i < |log| && log[i] == t)
    && (forall w | 0 <= w < |workers| && workers[w].Running? ::
          workers[w].t < |place| && place[workers[w].t] == With(w))
    && (forall i | 0 <= i < |log| :: log[i] < |place| && place[log[i]] == Posted(i))
  }

  /** Workers and posters agree, and nobody but the workers posts. */
  predicate PostersInv(s: State) {
    && |s.aio.posters| == |s.workers|
    && (forall w | 0 <= w < |s.workers| :: s.workers[w].Posting? <==> !s.aio.posters[w].Idle?)
    && s.aio.ring == []
  }

  predicate Awake(k: Worker) {
    k.Looking? || k.Running? || k.Posting?
  }

  predicate AllExited(s: State) {
    forall w | 0 <= w < |s.workers| :: s.workers[w].Exited?
  }

  /** Work never waits for sleepers only; nobody sleeps or leaves at the wrong time. */
  predicate WorkersInv(s: State) {
    && |s.workers| > 0
    && (s.stop ==> forall w | 0 <= w < |s.workers| :: !s.workers[w].Asleep?)
    && (!s.stop ==> forall w | 0 <= w < |s.workers| :: !s.workers[w].Exited?)
    && (s.queue != [] ==> AllExited(s) || exists w | 0 <= w < |s.workers| :: Awake(s.workers[w]))
    && (AllExited(s) ==> s.started == s.atExit)
  }

  predicate Inv(s: State, place: seq<Place>) {
    && QueueInv(s)
    && PlacesInv(s.workers, s.aio.log, s.started, place)
    && PostersInv(s)
    && WorkersInv(s)
    && Aio.Inv(s.aio)
  }

  function NextPlace(s: State, place: seq<Place>, a: Action): seq<Place> {
    match a
    case Work(w) =>
      if w >= |s.workers| then place
      else if s.workers[w].Looking? && s.queue != [] then place + [With(w)]
      else if s.workers[w].Running? && s.workers[w].t < |place| then place[s.workers[w].t := Posted(|s.aio.log|)]
      else place
    case _ => place
  }

  lemma SubmitInv(s: State, place: seq<Place>, wake: Tid)
    requires Inv(s, place)
    ensures Inv(SubmitStep(s, wake), place)
  {
    hide Aio.Inv;
    var t := SubmitStep(s, wake);
    if t != s {
      SubmitAwakens(s, wake);
      if wake < |s.workers| && s.workers[wake].Asleep? {
        assert !t.workers[wake].Exited?;
      }
    }
  }

  /** After an accepted submission somebody is awake, or all have left. */
  lemma SubmitAwakens(s: State, wake: Tid)
    requires WorkersInv(s) && SubmitStep(s, wake) != s
    ensures var t := SubmitStep(s, wake); AllExited(t) || exists w | 0 <= w < |t.workers| :: Awake(t.workers[w])
  {
    var t := SubmitStep(s, wake);
    if wake < |s.workers| && s.workers[wake].Asleep? {
      assert Awake(t.workers[wake]);
    } else if !AllExited(t) {
      var w :| 0 <= w < |s.workers| && !s.workers[w].Exited?;
      assert Awake(t.workers[w]);
    }
  }

  lemma LookInv(s: State, place: seq<Place>, w: Tid)
    requires Inv(s, place) && w < |s.workers| && s.workers[w].Looking?
    ensures Inv(WorkStep(s, w), NextPlace(s, place, Work(w)))
  {
    hide Aio.Inv;
    var t := WorkStep(s, w);
    if s.queue != [] {
      assert Awake(t.workers[w]);
      assert !t.workers[w].Exited?;
    } else if !s.stop {
      assert !t.workers[w].Exited?;
    }
  }

  lemma RunningInv(s: State, place: seq<Place>, w: Tid)
    requires Inv(s, place) && w < |s.workers| && s.workers[w].Running?
    ensures Inv(WorkStep(s, w), NextPlace(s, place, Work(w)))
  {
    hide Aio.Inv, PlacesInv;
    var t := WorkStep(s, w);
    Aio.StepInv(s.aio, Aio.Post(w, s.workers[w].t));
    assert Awake(t.workers[w]) && !t.workers[w].Exited?;
    assert s.aio.posters[w].Idle?;
    PostedPlace(s.workers, s.aio.log, s.started, place, w);
  }

  lemma PostedPlace(workers: seq<Worker>, log: seq<Aio.Completion>, started: nat, place: seq<Place>, w: Tid)
    requires PlacesInv(workers, log, started, place) && w < |workers| && workers[w].Running?
    ensures workers[w].t < |place|
    ensures PlacesInv(workers[w := Posting], log + [workers[w].t], started, place[workers[w].t := Posted(|log|)])
  {
  }

  lemma PostingInv(s: State, place: seq<Place>, w: Tid)
    requires Inv(s, place) && w < |s.workers| && s.workers[w].Posting?
    ensures Inv(WorkStep(s, w), place)
  {
    hide Aio.Inv;
    var t := WorkStep(s, w);
    Aio.StepInv(s.aio, Aio.Post(w, 0));
    assert Awake(t.workers[w]) && !t.workers[w].Exited?;
  }

  lemma WakingInv(s: State, t: State, place: seq<Place>)
    requires Inv(s, place) && |t.workers| == |s.workers|
    requires t == s.(workers := t.workers, stop := t.stop)
    requires forall w | 0 <= w < |s.workers| :: t.workers[w] == s.workers[w] || t.workers[w] == Wake(s.workers[w])
    requires t.stop ==> s.stop || forall w | 0 <= w < |s.workers| :: t.workers[w] == Wake(s.workers[w])
    requires s.stop ==> t.stop
    ensures Inv(t, place)
  {
    hide Aio.Inv;
    forall w | 0 <= w < |t.workers| ensures t.workers[w].Exited? <==> s.workers[w].Exited? {}
    if s.queue != [] && !AllExited(s) {
      var w :| 0 <= w < |s.workers| && Awake(s.workers[w]);
      assert Awake(t.workers[w]);
    }
  }

  lemma StepInv(s: State, place: seq<Place>, a: Action)
    requires Inv(s, place)
    ensures Inv(Step(s, a), NextPlace(s, place, a))
  {
    hide Inv, SubmitStep;
    match a
    case Submit(wake) => SubmitInv(s, place, wake);
    case Work(w) =>
      if w < |s.workers| {
        hide WorkStep;
        match s.workers[w]
        case Looking => LookInv(s, place, w);
        case Running(_) => RunningInv(s, place, w);
        case Posting => PostingInv(s, place, w);
        case _ => RestingInv(s, place, w);
      }
    case Spurious(w) => WakingInv(s, Step(s, a), place);
    case Stop => WakingInv(s, Step(s, a), place);
    case Drain => DrainInv(s, place);
  }

  lemma RestingInv(s: State, place: seq<Place>, w: Tid)
    requires Inv(s, place) && w < |s.workers| && (s.workers[w].Asleep? || s.workers[w].Exited?)
    ensures Inv(WorkStep(s, w), NextPlace(s, place, Work(w)))
  {
  }

  lemma DrainInv(s: State, place: seq<Place>)
    requires Inv(s, place)
    ensures Inv(Step(s, Drain), place)
  {
    hide Aio.Inv, PlacesInv;
    Aio.StepInv(s.aio, Aio.Drain);
  }

  function RunPlace(workers: nat, maxDepth: nat, acts: seq<Action>): seq<Place> {
    if acts == [] then []
    else
      var before := acts[..|acts| - 1];
      NextPlace(Run(Init(workers, maxDepth), before), RunPlace(workers, maxDepth, before), acts[|acts| - 1])
  }

  lemma {:induction false} RunInv(workers: nat, maxDepth: nat, acts: seq<Action>)
    requires workers > 0
    ensures Inv(Run(Init(workers, maxDepth), acts), RunPlace(workers, maxDepth, acts))
  {
    hide Inv;
    if acts == [] {
      InitInv(workers, maxDepth);
    } else {
      var before := acts[..|acts| - 1];
      RunInv(workers, maxDepth, before);
      StepInv(Run(Init(workers, maxDepth), before), RunPlace(workers, maxDepth, before), acts[|acts| - 1]);
    }
  }

  lemma InitInv(workers: nat, maxDepth: nat)
    requires workers > 0
    ensures Inv(Init(workers, maxDepth), [])
  {
    var s := Init(workers, maxDepth);
    assert !s.workers[0].Exited?;
  }

  // ----- What every run guarantees

  predicate Queued(s: State, t: Task) {
    t in s.queue
  }

  predicate InHand(s: State, t: Task) {
    exists w | 0 <= w < |s.workers| :: s.workers[w] == Running(t)
  }

  /** Completed, its callback not fired yet. */
  predicate Waiting(s: State, t: Task) {
    t in s.aio.queue || (s.aio.drainer.Firing? && s.aio.drainer.c == t)
  }

  predicate Fired(s: State, t: Task) {
    t in s.aio.fired
  }

  /** Conservation: every accepted task is queued, with a worker, completed or fired -- exactly
      one of these -- and no task appears anywhere without having been accepted. */
  lemma EveryTaskInOnePlace(workers: nat, maxDepth: nat, acts: seq<Action>, t: Task)
    requires workers > 0
    ensures var s := Run(Init(workers, maxDepth), acts);
            One(Queued(s, t)) + One(InHand(s, t)) + One(Waiting(s, t)) + One(Fired(s, t))
            == One(t < s.accepted)
  {
    hide Inv, Queued, InHand, Waiting, Fired;
    var s, place := Run(Init(workers, maxDepth), acts), RunPlace(workers, maxDepth, acts);
    RunInv(workers, maxDepth, acts);
    QueuedIff(s, place, t);
    InHandIff(s, place, t);
    PostedIff(s, place, t);
  }

  lemma QueuedIff(s: State, place: seq<Place>, t: Task)
    requires Inv(s, place)
    ensures Queued(s, t) <==> s.started <= t < s.accepted
    ensures |place| == s.started <= s.accepted
  {
    if s.started <= t < s.accepted {
      assert s.queue[t - s.started] == t;
    }
  }

  lemma InHandIff(s: State, place: seq<Place>, t: Task)
    requires Inv(s, place)
    ensures InHand(s, t) <==> t < |place| && place[t].With?
  {
  }

  lemma PostedIff(s: State, place: seq<Place>, t: Task)
    requires Inv(s, place)
    ensures Waiting(s, t) || Fired(s, t) <==> t < |place| && place[t].Posted?
    ensures !(Waiting(s, t) && Fired(s, t))
  {
    hide QueueInv, PostersInv, WorkersInv;
    var log := s.aio.log;
    var mid := if s.aio.drainer.Firing? then [s.aio.drainer.c] else [];
    assert log == s.aio.fired + mid + s.aio.queue;
    assert t in log <==> t in s.aio.fired || t in mid || t in s.aio.queue;
    var rest := mid + s.aio.queue;
    assert Waiting(s, t) <==> t in rest;
    forall i, j | 0 <= i < |s.aio.fired| && 0 <= j < |rest| ensures s.aio.fired[i] != rest[j] {
      assert log[i] == s.aio.fired[i] && log[|s.aio.fired| + j] == rest[j];
    }
  }

  /** No task is posted, and hence fired, twice. */
  lemma PostedOnce(workers: nat, maxDepth: nat, acts: seq<Action>)
    requires workers > 0
    ensures var s := Run(Init(workers, maxDepth), acts);
            && s.aio.fired <= s.aio.log
            && forall i, j | 0 <= i < j < |s.aio.log| :: s.aio.log[i] != s.aio.log[j]
  {
    RunInv(workers, maxDepth, acts);
  }

  /** `depth` is the length of the queue, a bound is respected, and tasks start in the order
      they were accepted. */
  lemma DepthAndOrder(workers: nat, maxDepth: nat, acts: seq<Action>)
    requires workers > 0
    ensures var s := Run(Init(workers, maxDepth), acts);
            && s.depth == |s.queue| && s.maxDepth == maxDepth
            && (maxDepth != 0 ==> s.depth <= maxDepth)
            && s.started <= s.accepted
            && s.queue == seq(s.accepted - s.started, i => s.started + i)
  {
    hide PlacesInv, PostersInv, WorkersInv, Aio.Inv, Run, Init;
    RunInv(workers, maxDepth, acts);
    MaxDepthFixed(workers, maxDepth, acts);
  }

  lemma {:induction false} MaxDepthFixed(workers: nat, maxDepth: nat, acts: seq<Action>)
    ensures Run(Init(workers, maxDepth), acts).maxDepth == maxDepth
  {
    if acts != [] {
      MaxDepthFixed(workers, maxDepth, acts[..|acts| - 1]);
    }
  }

  /** Queued work never waits for sleepers only: some worker is awake, unless all have exited. */
  lemma NoWorkForSleepersOnly(workers: nat, maxDepth: nat, acts: seq<Action>)
    requires workers > 0
    ensures var s := Run(Init(workers, maxDepth), acts);
            s.queue != [] ==> AllExited(s) || exists w | 0 <= w < |s.workers| :: Awake(s.workers[w])
  {
    RunInv(workers, maxDepth, acts);
  }

  /** A completed task whose callback waits while the event thread is outside drain is
      announced: a wakeup is pending, or a worker is still posting. */
  lemma CompletionsAreAnnounced(workers: nat, maxDepth: nat, acts: seq<Action>)
    requires workers > 0
    ensures var s := Run(Init(workers, maxDepth), acts);
            s.aio.drainer.Outside? && s.aio.queue != [] ==>
              Aio.WakePending(s.aio) || exists w | 0 <= w < |s.workers| :: s.workers[w].Posting?
  {
    var s := Run(Init(workers, maxDepth), acts);
    RunInv(workers, maxDepth, acts);
    if s.aio.drainer.Outside? && s.aio.queue != [] && !Aio.WakePending(s.aio) {
      var w :| 0 <= w < |s.aio.posters| && !s.aio.posters[w].Idle?;
      assert s.workers[w].Posting?;
    }
  }

  /** When all workers have exited, every accepted task was posted -- if and only if no
      submission was accepted after the last of them left. */
  lemma NothingLeftBehind(workers: nat, maxDepth: nat, acts: seq<Action>)
    requires workers > 0
    ensures var s := Run(Init(workers, maxDepth), acts);
            AllExited(s) ==> ((forall t: Task | t < s.accepted :: t in s.aio.log) <==> s.accepted == s.atExit)
  {
    var s, place := Run(Init(workers, maxDepth), acts), RunPlace(workers, maxDepth, acts);
    RunInv(workers, maxDepth, acts);
    if AllExited(s) {
      LeftBehind(s, place);
    }
  }

  /** It can happen: stopped, its one worker gone, the pool still accepts a task, and nobody will run it. */
  lemma LateSubmission()
    ensures var s := Run(Init(1, 0), [Stop, Work(0), Submit(0)]);
            AllExited(s) && s.accepted == 1 && s.atExit == 0 && 0 !in s.aio.log
  {
    var s0 := Init(1, 0);
    var a := [Stop, Work(0), Submit(0)];
    assert a[..2] == [Stop, Work(0)] && a[..2][..1] == [Stop] && a[..1][..0] == [];
    assert Run(s0, [Stop]) == Step(s0, Stop);
    assert Run(s0, [Stop, Work(0)]) == Step(Step(s0, Stop), Work(0));
  }

  lemma LeftBehind(s: State, place: seq<Place>)
    requires Inv(s, place) && AllExited(s)
    ensures (forall t: Task | t < s.accepted :: t in s.aio.log) <==> s.accepted == s.atExit
  {
    if s.accepted == s.atExit {
      forall t: Task | t < s.accepted ensures t in s.aio.log {
        assert place[t].Posted?;
      }
    } else {
      assert s.started < s.accepted;
      assert s.started !in s.aio.log;
    }
  }
}
