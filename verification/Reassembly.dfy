/** What process_websocket_frame makes of a sequence of frames (src/ws/ws_connection_handler.c),
    and what section 5.4 of RFC 6455 says about fragmented messages. */
module Reassembly {
  import opened Bits
  import opened Frames
  import opened Seqs
  import Utf8

  const TEXT := 1
  const BINARY := 2
  const CLOSE := 8
  const PING := 9
  const PONG := 10

  datatype Message = Message(text: bool, data: seq<Byte>)

  /** What the connection does: hands a message or a callback to the application, or sends a
      control frame. A bare close frame carries no code. */
  datatype Event =
    | Deliver(message: Message)
    | SendPong(payload: seq<Byte>)
    | OnPong(payload: seq<Byte>)
    | SendClose(code: nat)
    | SendBareClose
    | OnClose(code: nat)

  /** The message being put together. */
  datatype Fragment = Idle | Collecting(text: bool, data: seq<Byte>)

  datatype Conn = Conn(fragment: Fragment, pongs: nat, events: seq<Event>)

  /** 0, -1 and WS_FRAME_CLOSE_REQUESTED */
  datatype Verdict = Going | Failed | Closing

  /** max_message_size, and whether the socket takes the k-th pong. */
  datatype Env = Env(max: nat, pongOk: nat -> bool)

  const INIT := Conn(Idle, 0, [])

  // ----- One frame

  predicate CloseCodeValid(code: nat) {
    3000 <= code <= 4999 || 1000 <= code <= 1003 || 1007 <= code <= 1011
  }

  function Refuse(c: Conn, code: nat): (Conn, Verdict) {
    (c.(events := c.events + [SendClose(code)]), Closing)
  }

  function Emit(c: Conn, e: Event): Conn {
    c.(events := c.events + [e])
  }

  /** A text or binary frame: a whole message, or the first fragment of one. */
  ghost function StartStep(c: Conn, f: Frame): (Conn, Verdict) {
    if c.fragment.Collecting? then (c, Failed)
    else if !f.fin then (c.(fragment := Collecting(f.opcode == TEXT, f.payload)), Going)
    else if f.opcode == TEXT && !Utf8.WellFormed(f.payload) then Refuse(c, 1007)
    else (Emit(c, Deliver(Message(f.opcode == TEXT, f.payload))), Going)
  }

  ghost function ContinueStep(c: Conn, f: Frame, max: nat): (Conn, Verdict) {
    match c.fragment
    case Idle => (c, Failed)
    case Collecting(text, data) =>
      if |data| + |f.payload| > max then Refuse(c.(fragment := Idle), 1009)
      else if !f.fin then (c.(fragment := Collecting(text, data + f.payload)), Going)
      else if text && !Utf8.WellFormed(data + f.payload) then Refuse(c.(fragment := Idle), 1007)
      else (Emit(c.(fragment := Idle), Deliver(Message(text, data + f.payload))), Going)
  }

  ghost function CloseStep(c: Conn, p: seq<Byte>): (Conn, Verdict) {
    if |p| == 0 then (Emit(Emit(c, SendBareClose), OnClose(1000)), Closing)
    else if |p| == 1 then Refuse(c, 1002)
    else
      var code := p[0] as int * 256 + p[1];
      if !CloseCodeValid(code) then Refuse(c, 1002)
      else if !Utf8.WellFormed(p[2..]) then Refuse(c, 1007)
      else (Emit(Emit(c, SendClose(code)), OnClose(code)), Closing)
  }

  ghost function Step(c: Conn, f: Frame, env: Env): (Conn, Verdict) {
    if f.opcode >= 8 && (!f.fin || |f.payload| > 125) then Refuse(c, 1002)
    else if f.opcode == TEXT || f.opcode == BINARY then StartStep(c, f)
    else if f.opcode == 0 then ContinueStep(c, f, env.max)
    else if f.opcode == PING then
      if env.pongOk(c.pongs) then (Emit(c.(pongs := c.pongs + 1), SendPong(f.payload)), Going)
      else (c.(pongs := c.pongs + 1), Failed)
    else if f.opcode == PONG then (Emit(c, OnPong(f.payload)), Going)
    else if f.opcode == CLOSE then CloseStep(c, f.payload)
    else (c, Failed)
  }

  /** All frames in order, up to the first that is not accepted. */
  ghost function Run(fs: seq<Frame>, env: Env): (Conn, Verdict) {
    if fs == [] then (INIT, Going)
    else
      var (c, v) := Run(fs[..|fs| - 1], env);
      if v != Going then (c, v) else Step(c, fs[|fs| - 1], env)
  }

  lemma RunSnoc(fs: seq<Frame>, f: Frame, env: Env)
    ensures var r := Run(fs, env);
            Run(fs + [f], env) == if r.1 != Going then r else Step(r.0, f, env)
  {
    assert (fs + [f])[..|fs|] == fs;
  }

  // ----- Section 5.4 of RFC 6455, with no state machine

  predicate IsData(f: Frame) {
    f.opcode < 8
  }

  function DataFrames(fs: seq<Frame>): seq<Frame> {
    if fs == [] then []
    else DataFrames(fs[..|fs| - 1]) + if IsData(fs[|fs| - 1]) then [fs[|fs| - 1]] else []
  }

  function Payloads(g: seq<Frame>): seq<Byte> {
    if g == [] then [] else Payloads(g[..|g| - 1]) + g[|g| - 1].payload
  }

  function Flatten(groups: seq<seq<Frame>>): seq<Frame> {
    if groups == [] then [] else Flatten(groups[..|groups| - 1]) + groups[|groups| - 1]
  }

  /** A first frame with an opcode, then continuation frames, within the limit. */
  predicate Chain(g: seq<Frame>, max: nat) {
    && (g != [] ==> g[0].opcode == TEXT || g[0].opcode == BINARY)
    && (forall i | 0 < i < |g| :: g[i].opcode == 0)
    && |Payloads(g)| <= max
  }

  /** The frames of an unfinished message. */
  predicate Open(g: seq<Frame>, max: nat) {
    Chain(g, max) && forall i | 0 <= i < |g| :: !g[i].fin
  }

  /** The frames of a finished message: final in the last frame only, text in valid UTF-8. */
  ghost predicate Whole(g: seq<Frame>, max: nat) {
    && g != [] && Chain(g, max) && g[|g| - 1].fin
    && (forall i | 0 <= i < |g| - 1 :: !g[i].fin)
    && (g[0].opcode == TEXT ==> Utf8.WellFormed(Payloads(g)))
  }

  function Assembled(g: seq<Frame>): Message
    requires g != []
  {
    Message(g[0].opcode == TEXT, Payloads(g))
  }

  function AssembledAll(groups: seq<seq<Frame>>): seq<Message>
    requires forall i | 0 <= i < |groups| :: groups[i] != []
  {
    seq(|groups|, i requires 0 <= i < |groups| => Assembled(groups[i]))
  }

  /** Pings and pongs are whole and short. */
  predicate ControlsOk(fs: seq<Frame>) {
    forall i | 0 <= i < |fs| :: !IsData(fs[i]) ==>
      (fs[i].opcode == PING || fs[i].opcode == PONG) && fs[i].fin && |fs[i].payload| <= 125
  }

  /** The data frames are whole messages one after the other, then part of one; control frames lie
      anywhere between them. */
  ghost predicate Conforms(fs: seq<Frame>, groups: seq<seq<Frame>>, part: seq<Frame>, max: nat) {
    ControlsOk(fs) && DataFrames(fs) == Flatten(groups) + part && Open(part, max) && AllWhole(groups, max)
  }

  ghost predicate AllWhole(groups: seq<seq<Frame>>, max: nat) {
    forall i | 0 <= i < |groups| :: Whole(groups[i], max)
  }

  function Delivered(events: seq<Event>): seq<Message> {
    if events == [] then []
    else
      var last := events[|events| - 1];
      Delivered(events[..|events| - 1]) + if last.Deliver? then [last.message] else []
  }

  function PongsSent(events: seq<Event>): seq<seq<Byte>> {
    if events == [] then []
    else
      var last := events[|events| - 1];
      PongsSent(events[..|events| - 1]) + if last.SendPong? then [last.payload] else []
  }

  function Pings(fs: seq<Frame>): seq<seq<Byte>> {
    if fs == [] then []
    else Pings(fs[..|fs| - 1]) + if fs[|fs| - 1].opcode == PING then [fs[|fs| - 1].payload] else []
  }

  function FragmentOf(part: seq<Frame>): Fragment {
    if part == [] then Idle else Collecting(part[0].opcode == TEXT, Payloads(part))
  }

  /** The parser has bounded every frame. */
  predicate Bounded(fs: seq<Frame>, max: nat) {
    forall i | 0 <= i < |fs| :: |fs[i].payload| <= max
  }

  /** What the state after fs must be when fs is made of these groups and this part. */
  ghost predicate Explained(fs: seq<Frame>, c: Conn, groups: seq<seq<Frame>>, part: seq<Frame>, env: Env) {
    && Conforms(fs, groups, part, env.max)
    && c.fragment == FragmentOf(part)
    && Delivered(c.events) == AssembledAll(groups)
    && PongsSent(c.events) == Pings(fs) && c.pongs == |Pings(fs)|
    && forall k | 0 <= k < |Pings(fs)| :: env.pongOk(k)
  }

  // ----- Appending one element

  lemma FramesSnoc(fs: seq<Frame>, f: Frame)
    ensures DataFrames(fs + [f]) == if IsData(f) then DataFrames(fs) + [f] else DataFrames(fs)
    ensures Pings(fs + [f]) == if f.opcode == PING then Pings(fs) + [f.payload] else Pings(fs)
    ensures Payloads(fs + [f]) == Payloads(fs) + f.payload
  {
    assert (fs + [f])[..|fs|] == fs;
  }

  lemma EventsSnoc(es: seq<Event>, e: Event)
    ensures Delivered(es + [e]) == if e.Deliver? then Delivered(es) + [e.message] else Delivered(es)
    ensures PongsSent(es + [e]) == if e.SendPong? then PongsSent(es) + [e.payload] else PongsSent(es)
  {
    assert (es + [e])[..|es|] == es;
  }

  lemma FlattenSnoc(groups: seq<seq<Frame>>, g: seq<Frame>)
    ensures Flatten(groups + [g]) == Flatten(groups) + g
  {
    assert (groups + [g])[..|groups|] == groups;
  }

  lemma AssembledSnoc(groups: seq<seq<Frame>>, g: seq<Frame>)
    requires g != [] && forall i | 0 <= i < |groups| :: groups[i] != []
    ensures AssembledAll(groups + [g]) == AssembledAll(groups) + [Assembled(g)]
  {
  }

  // ----- Conforming sequences, one frame longer

  /** A data frame that keeps the part open. */
  lemma ConformsOpen(fs: seq<Frame>, f: Frame, groups: seq<seq<Frame>>, part: seq<Frame>, max: nat)
    requires IsData(f)
    ensures Conforms(fs, groups, part, max) && Open(part + [f], max) <==> Conforms(fs + [f], groups, part + [f], max)
  {
    hide AllWhole, ControlsOk, DataFrames, Flatten;
    ControlsSnoc(fs, f);
    ControlsOkOne(f);
    FramesSnoc(fs, f);
    assert Flatten(groups) + (part + [f]) == Flatten(groups) + part + [f];
    SnocInjective(DataFrames(fs), Flatten(groups) + part, f);
    if Open(part + [f], max) {
      OpenPrefix(part, f, max);
    }
  }

  lemma SnocInjective(a: seq<Frame>, b: seq<Frame>, f: Frame)
    ensures a + [f] == b + [f] <==> a == b
  {
    assert (a + [f])[..|a|] == a && (b + [f])[..|b|] == b;
  }

  lemma ControlsSnoc(fs: seq<Frame>, f: Frame)
    ensures ControlsOk(fs + [f]) <==> ControlsOk(fs) && ControlsOk([f])
  {
    assert (fs + [f])[|fs|] == f;
    assert forall i | 0 <= i < |fs| :: (fs + [f])[i] == fs[i];
  }

  lemma OpenPrefix(part: seq<Frame>, f: Frame, max: nat)
    requires Chain(part + [f], max) && forall i | 0 <= i < |part| :: !(part + [f])[i].fin
    ensures Open(part, max)
  {
    FramesSnoc(part, f);
    var g := part + [f];
    assert forall i | 0 <= i < |part| :: g[i] == part[i];
  }

  /** A data frame that completes the part. */
  lemma ConformsWhole(fs: seq<Frame>, f: Frame, groups: seq<seq<Frame>>, part: seq<Frame>, max: nat)
    requires IsData(f)
    ensures Conforms(fs, groups, part, max) && Whole(part + [f], max)
       <==> Conforms(fs + [f], groups + [part + [f]], [], max)
  {
    hide Whole, Open, AllWhole, ControlsOk, DataFrames, Flatten;
    ControlsSnoc(fs, f);
    ControlsOkOne(f);
    FramesSnoc(fs, f);
    FlattenSnoc(groups, part + [f]);
    assert Flatten(groups) + (part + [f]) == Flatten(groups) + part + [f];
    SnocInjective(DataFrames(fs), Flatten(groups) + part, f);
    AllWholeSnoc(groups, part + [f], max);
    OpenEmpty(max);
    if Whole(part + [f], max) {
      WholePrefix(part, f, max);
    }
  }

  lemma ControlsOkOne(f: Frame)
    requires IsData(f)
    ensures ControlsOk([f])
  {
  }

  lemma OpenEmpty(max: nat)
    ensures Open([], max)
  {
  }

  lemma AllWholeSnoc(groups: seq<seq<Frame>>, g: seq<Frame>, max: nat)
    ensures AllWhole(groups + [g], max) <==> AllWhole(groups, max) && Whole(g, max)
  {
    hide Whole;
    var gs := groups + [g];
    assert gs[|groups|] == g;
    assert forall i | 0 <= i < |groups| :: gs[i] == groups[i];
  }

  lemma WholePrefix(part: seq<Frame>, f: Frame, max: nat)
    requires Whole(part + [f], max)
    ensures Open(part, max)
  {
    OpenPrefix(part, f, max);
  }

  lemma ConformsControl(fs: seq<Frame>, f: Frame, groups: seq<seq<Frame>>, part: seq<Frame>, max: nat)
    requires !IsData(f)
    ensures Conforms(fs, groups, part, max) && ControlsOk([f]) <==> Conforms(fs + [f], groups, part, max)
  {
    hide AllWhole, Open, ControlsOk, DataFrames, Flatten;
    ControlsSnoc(fs, f);
    FramesSnoc(fs, f);
  }

  // ----- Accepted means conforming, and the other way round

  /** Every accepted frame extends the messages found so far. */
  lemma StepExplained(fs: seq<Frame>, f: Frame, c: Conn, groups: seq<seq<Frame>>, part: seq<Frame>, env: Env)
      returns (groups': seq<seq<Frame>>, part': seq<Frame>)
    requires Explained(fs, c, groups, part, env) && |f.payload| <= env.max
    requires Step(c, f, env).1 == Going
    ensures Explained(fs + [f], Step(c, f, env).0, groups', part', env)
  {
    hide Conforms, Delivered, PongsSent, Pings, DataFrames;
    FramesSnoc(fs, f);
    if !IsData(f) {
      groups', part' := groups, part;
      ControlExplained(fs, f, c, groups, part, env);
    } else if f.fin {
      groups', part' := groups + [part + [f]], [];
      FinalExplained(fs, f, c, groups, part, env);
    } else {
      groups', part' := groups, part + [f];
      OpenExplained(fs, f, c, groups, part, env);
    }
  }

  lemma ControlExplained(fs: seq<Frame>, f: Frame, c: Conn, groups: seq<seq<Frame>>, part: seq<Frame>, env: Env)
    requires Explained(fs, c, groups, part, env) && !IsData(f) && Step(c, f, env).1 == Going
    ensures Explained(fs + [f], Step(c, f, env).0, groups, part, env)
  {
    hide Conforms, Delivered, PongsSent, Pings, FragmentOf, AssembledAll, Step;
    FramesSnoc(fs, f);
    ConformsControl(fs, f, groups, part, env.max);
    var e := ControlEvent(c, f, env);
    EventsSnoc(c.events, e);
  }

  lemma ControlEvent(c: Conn, f: Frame, env: Env) returns (e: Event)
    requires !IsData(f) && Step(c, f, env).1 == Going
    ensures ControlsOk([f]) && !e.Deliver?
    ensures f.opcode == PING ==> e == SendPong(f.payload) && env.pongOk(c.pongs)
    ensures f.opcode != PING ==> !e.SendPong?
    ensures Step(c, f, env).0 == Conn(c.fragment, if f.opcode == PING then c.pongs + 1 else c.pongs, c.events + [e])
  {
    hide Utf8.WellFormed, StartStep, ContinueStep;
    e := if f.opcode == PING then SendPong(f.payload) else OnPong(f.payload);
  }

  lemma OpenExplained(fs: seq<Frame>, f: Frame, c: Conn, groups: seq<seq<Frame>>, part: seq<Frame>, env: Env)
    requires Explained(fs, c, groups, part, env) && |f.payload| <= env.max
    requires IsData(f) && !f.fin && Step(c, f, env).1 == Going
    ensures Explained(fs + [f], Step(c, f, env).0, groups, part + [f], env)
  {
    hide Delivered, PongsSent, Pings, AssembledAll, Payloads, DataFrames, Step, Open, ControlsOk, Flatten, AllWhole;
    OpenStep(f, c, part, env);
    FramesSnoc(fs, f);
    ConformsOpen(fs, f, groups, part, env.max);
  }

  lemma PayloadsEmpty()
    ensures Payloads([]) == []
  {
  }

  /** What the step does with a final data frame is deliver part + [f], when that is a whole message. */
  lemma FinalStep(f: Frame, c: Conn, part: seq<Frame>, env: Env)
    requires c.fragment == FragmentOf(part) && Open(part, env.max)
    requires IsData(f) && f.fin && |f.payload| <= env.max
    ensures Step(c, f, env).1 == Going <==> Whole(part + [f], env.max)
    ensures Whole(part + [f], env.max) ==>
              Step(c, f, env).0 == Conn(Idle, c.pongs, c.events + [Deliver(Assembled(part + [f]))])
  {
    hide Payloads, Utf8.WellFormed;
    var g := part + [f];
    FramesSnoc(part, f);
    PayloadsEmpty();
    assert g[|part|] == f;
    assert forall i | 0 <= i < |part| :: g[i] == part[i];
    if part == [] {
      assert Payloads(g) == f.payload;
    }
  }

  /** And with one that is not final, add it to the part. */
  lemma OpenStep(f: Frame, c: Conn, part: seq<Frame>, env: Env)
    requires c.fragment == FragmentOf(part) && Open(part, env.max)
    requires IsData(f) && !f.fin && |f.payload| <= env.max
    ensures Step(c, f, env).1 == Going <==> Open(part + [f], env.max)
    ensures Open(part + [f], env.max) ==> Step(c, f, env).0 == c.(fragment := FragmentOf(part + [f]))
  {
    hide Payloads;
    var g := part + [f];
    FramesSnoc(part, f);
    PayloadsEmpty();
    assert g[|part|] == f;
    assert forall i | 0 <= i < |part| :: g[i] == part[i];
    if part == [] {
      assert Payloads(g) == f.payload;
    }
  }

  lemma FinalExplained(fs: seq<Frame>, f: Frame, c: Conn, groups: seq<seq<Frame>>, part: seq<Frame>, env: Env)
    requires Explained(fs, c, groups, part, env) && |f.payload| <= env.max
    requires IsData(f) && f.fin && Step(c, f, env).1 == Going
    ensures Explained(fs + [f], Step(c, f, env).0, groups + [part + [f]], [], env)
  {
    hide Delivered, PongsSent, Pings, AssembledAll, Payloads, DataFrames, Step, Open, ControlsOk, Flatten, Whole;
    FinalStep(f, c, part, env);
    FramesSnoc(fs, f);
    EventsSnoc(c.events, Deliver(Assembled(part + [f])));
    ConformsWhole(fs, f, groups, part, env.max);
    WholeNonEmpty(groups, env.max);
    AssembledSnoc(groups, part + [f]);
  }

  lemma WholeNonEmpty(groups: seq<seq<Frame>>, max: nat)
    requires AllWhole(groups, max)
    ensures forall i | 0 <= i < |groups| :: groups[i] != []
  {
  }

  /** If every frame is accepted, the data frames are whole messages and part of one, and what was
      delivered is those messages, in order. Every ping was answered with its own payload. */
  lemma {:induction false} AcceptedConforms(fs: seq<Frame>, env: Env)
      returns (groups: seq<seq<Frame>>, part: seq<Frame>)
    requires Bounded(fs, env.max) && Run(fs, env).1 == Going
    ensures Explained(fs, Run(fs, env).0, groups, part, env)
  {
    hide Step, Explained;
    if fs == [] {
      groups, part := [], [];
      InitExplained(env);
    } else {
      var rest, f := fs[..|fs| - 1], fs[|fs| - 1];
      assert fs == rest + [f];
      groups, part := AcceptedConforms(rest, env);
      groups, part := StepExplained(rest, f, Run(rest, env).0, groups, part, env);
    }
  }

  lemma InitExplained(env: Env)
    ensures Explained([], INIT, [], [], env)
  {
  }

  /** Conversely, frames that make up messages are all accepted, and just those messages come out. */
  lemma {:induction false} ConformingAccepted(fs: seq<Frame>, groups: seq<seq<Frame>>, part: seq<Frame>, env: Env)
    requires Bounded(fs, env.max) && Conforms(fs, groups, part, env.max)
    requires forall k | 0 <= k < |Pings(fs)| :: env.pongOk(k)
    ensures Run(fs, env).1 == Going && Explained(fs, Run(fs, env).0, groups, part, env)
    decreases |fs|
  {
    hide Step, Explained, Conforms, Pings, Open, Whole;
    if fs == [] {
      EmptyParts(groups, part, env.max);
      InitExplained(env);
    } else {
      var rest, f := fs[..|fs| - 1], fs[|fs| - 1];
      assert fs == rest + [f];
      FramesSnoc(rest, f);
      RunSnoc(rest, f, env);
      if !IsData(f) {
        ConformsControl(rest, f, groups, part, env.max);
        ConformingAccepted(rest, groups, part, env);
        ControlStep(rest, f, groups, part, env);
        ControlExplained(rest, f, Run(rest, env).0, groups, part, env);
      } else if part != [] {
        var part0 := part[..|part| - 1];
        LastOfPart(rest, f, groups, part, env.max);
        ConformsOpen(rest, f, groups, part0, env.max);
        ConformingAccepted(rest, groups, part0, env);
        OpenAccepted(rest, f, groups, part0, env);
      } else {
        var g := LastOfGroup(rest, f, groups, env.max);
        var groups0, part0 := groups[..|groups| - 1], g[..|g| - 1];
        ConformsWhole(rest, f, groups0, part0, env.max);
        ConformingAccepted(rest, groups0, part0, env);
        FinalAccepted(rest, f, groups0, part0, env);
      }
    }
  }

  lemma EmptyParts(groups: seq<seq<Frame>>, part: seq<Frame>, max: nat)
    requires Conforms([], groups, part, max)
    ensures groups == [] && part == []
  {
  }

  lemma ControlStep(rest: seq<Frame>, f: Frame, groups: seq<seq<Frame>>, part: seq<Frame>, env: Env)
    requires !IsData(f) && ControlsOk([f]) && Explained(rest, Run(rest, env).0, groups, part, env)
    requires forall k | 0 <= k < |Pings(rest + [f])| :: env.pongOk(k)
    ensures Step(Run(rest, env).0, f, env).1 == Going
  {
    hide Conforms, Run, Pings, Delivered, PongsSent, AssembledAll, FragmentOf, StartStep, ContinueStep, CloseStep;
    FramesSnoc(rest, f);
    assert [f][0] == f;
  }

  lemma LastOfPart(rest: seq<Frame>, f: Frame, groups: seq<seq<Frame>>, part: seq<Frame>, max: nat)
    requires IsData(f) && part != [] && Conforms(rest + [f], groups, part, max)
    ensures part == part[..|part| - 1] + [f] && !f.fin
  {
    FramesSnoc(rest, f);
    var all := Flatten(groups) + part;
    assert all[|all| - 1] == part[|part| - 1];
  }

  lemma LastOfGroup(rest: seq<Frame>, f: Frame, groups: seq<seq<Frame>>, max: nat) returns (g: seq<Frame>)
    requires IsData(f) && Conforms(rest + [f], groups, [], max)
    ensures groups != [] && g != [] && f.fin
    ensures g == g[..|g| - 1] + [f] && groups == groups[..|groups| - 1] + [g]
  {
    hide DataFrames, ControlsOk, Open, Flatten, Whole, AllWhole, Conforms;
    LastDataFrame(rest, f, groups, max);
    g := LastGroup(groups, max);
    LastApart(groups);
    LastApart(g);
  }

  lemma LastDataFrame(rest: seq<Frame>, f: Frame, groups: seq<seq<Frame>>, max: nat)
    requires IsData(f) && Conforms(rest + [f], groups, [], max)
    ensures AllWhole(groups, max) && Flatten(groups) != [] && Flatten(groups)[|Flatten(groups)| - 1] == f
  {
    hide DataFrames, ControlsOk, Open, Flatten, AllWhole;
    FramesSnoc(rest, f);
    var all := Flatten(groups);
    assert all + [] == all;
    assert all == DataFrames(rest) + [f];
  }

  /** The last frame of all is the last of the last group. */
  lemma LastGroup(groups: seq<seq<Frame>>, max: nat) returns (g: seq<Frame>)
    requires AllWhole(groups, max) && Flatten(groups) != []
    ensures groups != [] && g == groups[|groups| - 1] && g != [] && g[|g| - 1].fin
    ensures Flatten(groups)[|Flatten(groups)| - 1] == g[|g| - 1]
  {
    hide Chain;
    g := groups[|groups| - 1];
    assert Whole(g, max);
    assert Flatten(groups) == Flatten(groups[..|groups| - 1]) + g;
  }

  lemma OpenAccepted(rest: seq<Frame>, f: Frame, groups: seq<seq<Frame>>, part: seq<Frame>, env: Env)
    requires IsData(f) && !f.fin && |f.payload| <= env.max && Open(part + [f], env.max)
    requires Run(rest, env).1 == Going && Explained(rest, Run(rest, env).0, groups, part, env)
    ensures Run(rest + [f], env).1 == Going && Explained(rest + [f], Run(rest + [f], env).0, groups, part + [f], env)
  {
    hide Run, Step, Open, Pings, Delivered, PongsSent;
    RunSnoc(rest, f, env);
    OpenStep(f, Run(rest, env).0, part, env);
    OpenExplained(rest, f, Run(rest, env).0, groups, part, env);
  }

  lemma FinalAccepted(rest: seq<Frame>, f: Frame, groups: seq<seq<Frame>>, part: seq<Frame>, env: Env)
    requires IsData(f) && f.fin && |f.payload| <= env.max && Whole(part + [f], env.max)
    requires Run(rest, env).1 == Going && Explained(rest, Run(rest, env).0, groups, part, env)
    ensures Run(rest + [f], env).1 == Going
    ensures Explained(rest + [f], Run(rest + [f], env).0, groups + [part + [f]], [], env)
  {
    hide Run, Step, Whole, Pings, Delivered, PongsSent;
    RunSnoc(rest, f, env);
    FinalStep(f, Run(rest, env).0, part, env);
    FinalExplained(rest, f, Run(rest, env).0, groups, part, env);
  }

  /** A run stops at one frame, and that frame delivers nothing. */
  lemma {:induction false} StopsAtOneFrame(fs: seq<Frame>, env: Env) returns (k: nat)
    requires Run(fs, env).1 != Going
    ensures k < |fs| && Run(fs[..k], env).1 == Going && Run(fs, env) == Step(Run(fs[..k], env).0, fs[k], env)
    ensures Delivered(Run(fs, env).0.events) == Delivered(Run(fs[..k], env).0.events)
  {
    hide Step;
    var n := |fs| - 1;
    if Run(fs[..n], env).1 != Going {
      k := StopsAtOneFrame(fs[..n], env);
      assert fs[..n][..k] == fs[..k];
    } else {
      k := n;
      StopDeliversNothing(Run(fs[..n], env).0, fs[n], env);
    }
  }

  lemma StopDeliversNothing(c: Conn, f: Frame, env: Env)
    requires Step(c, f, env).1 != Going
    ensures Delivered(Step(c, f, env).0.events) == Delivered(c.events)
  {
    hide Delivered, CloseStep, StartStep, ContinueStep;
    EventsSnoc(c.events, SendClose(1002));
    StartDeliversNothing(c, f);
    ContinueDeliversNothing(c, f, env.max);
    CloseDeliversNothing(c, f.payload);
  }

  lemma StartDeliversNothing(c: Conn, f: Frame)
    ensures StartStep(c, f).1 != Going ==> Delivered(StartStep(c, f).0.events) == Delivered(c.events)
  {
    hide Delivered, Utf8.WellFormed;
    EventsSnoc(c.events, SendClose(1007));
  }

  lemma ContinueDeliversNothing(c: Conn, f: Frame, max: nat)
    ensures ContinueStep(c, f, max).1 != Going ==> Delivered(ContinueStep(c, f, max).0.events) == Delivered(c.events)
  {
    hide Delivered, Utf8.WellFormed;
    EventsSnoc(c.events, SendClose(1007));
    EventsSnoc(c.events, SendClose(1009));
  }

  lemma CloseDeliversNothing(c: Conn, p: seq<Byte>)
    ensures Delivered(CloseStep(c, p).0.events) == Delivered(c.events)
  {
    hide Delivered, Utf8.WellFormed;
    EventsSnoc(c.events, SendClose(1002));
    EventsSnoc(c.events, SendClose(1007));
    if |p| == 0 {
      EventsSnoc(c.events, SendBareClose);
      EventsSnoc(c.events + [SendBareClose], OnClose(1000));
    } else if |p| > 1 {
      var code := p[0] as int * 256 + p[1];
      EventsSnoc(c.events, SendClose(code));
      EventsSnoc(c.events + [SendClose(code)], OnClose(code));
    }
  }

  /** Whatever a client sends, every delivered message is within the limit and delivered text is
      well-formed UTF-8. */
  lemma DeliveredAreValid(fs: seq<Frame>, env: Env)
    requires Bounded(fs, env.max)
    ensures forall m | m in Delivered(Run(fs, env).0.events) ::
              |m.data| <= env.max && (m.text ==> Utf8.WellFormed(m.data))
  {
    hide Run, Step, Delivered, Utf8.WellFormed, DataFrames, Pings;
    var k := |fs|;
    if Run(fs, env).1 != Going {
      k := StopsAtOneFrame(fs, env);
    } else {
      assert fs[..k] == fs;
    }
    var groups, part := AcceptedConforms(fs[..k], env);
    assert forall i | 0 <= i < |groups| :: Whole(groups[i], env.max);
  }
}
