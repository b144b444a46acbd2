/** A client's byte stream as frames: how it is cut into reads does not matter. */
module Stream {
  import opened Bits
  import opened Frames
  import opened Reassembly
  import Utf8

  const LIMIT := 0x1_0000_0000_0000_0000

  /** What follows the complete frames: the start of one, or bytes that are no frame. */
  datatype Tail = Waiting(rest: seq<Byte>) | Broken

  /** The complete frames of b, and what follows them. */
  function Split(b: seq<Byte>, max: nat): (r: (seq<Frame>, Tail))
    decreases |b|
  {
    match Parse(b, max)
    case NeedMore => ([], Waiting(b))
    case Bad => ([], Broken)
    case Complete(f, n) => var (fs, t) := Split(b[n..], max); ([f] + fs, t)
  }

  /** What has become of a connection: its state, whether it goes on, and the bytes it still waits on. */
  datatype Outcome = Outcome(conn: Conn, verdict: Verdict, rest: seq<Byte>)

  /** Parsing the whole stream at once and handling frame after frame. */
  ghost function Received(b: seq<Byte>, env: Env): Outcome {
    var (fs, t) := Split(b, env.max);
    var (c, v) := Run(fs, env);
    if v != Going then Outcome(c, v, [])
    else if t.Broken? then Outcome(c, Failed, [])
    else Outcome(c, Going, t.rest)
  }

  // ----- Appending to a stream

  /** Later bytes only continue where the earlier ones left off. */
  lemma {:induction false} SplitAppend(a: seq<Byte>, b: seq<Byte>, max: nat)
    ensures var (fs, t) := Split(a, max);
            Split(a + b, max) == if t.Broken? then (fs, Broken)
                                 else (fs + Split(t.rest + b, max).0, Split(t.rest + b, max).1)
    decreases |a|
  {
    hide Parse;
    match Parse(a, max)
    case NeedMore =>
      assert [] + Split(a + b, max).0 == Split(a + b, max).0;
    case Bad =>
      VerdictIsStable(a, b, max);
    case Complete(f, n) =>
      VerdictIsStable(a, b, max);
      SplitAppend(a[n..], b, max);
      assert (a + b)[n..] == a[n..] + b;
      var (fs, t) := Split(a[n..], max);
      if t.Waiting? {
        var more := Split(t.rest + b, max).0;
        assert [f] + (fs + more) == [f] + fs + more;
      }
  }

  /** The bytes of one frame by themselves are that frame. */
  lemma SplitOne(b: seq<Byte>, max: nat)
    requires max < LIMIT && Parse(b, max).Complete?
    ensures var p := Parse(b, max); Split(b[..p.total], max) == ([p.frame], Waiting([]))
  {
    hide Serialize;
    var p := Parse(b, max);
    ParsedIsSerialized(b, max);
    var one := b[..p.total];
    ParsesSerialized(p.frame, FormOf(b[1] % 128), [], max);
    assert one + [] == one;
    assert one[p.total..] == [];
    SplitNothing(max);
    assert [p.frame] + [] == [p.frame];
  }

  lemma SplitNothing(max: nat)
    ensures Split([], max) == ([], Waiting([]))
  {
  }

  /** Frames after the one that stopped the connection change nothing. */
  lemma {:induction false} RunStops(fs: seq<Frame>, more: seq<Frame>, env: Env)
    requires Run(fs, env).1 != Going
    ensures Run(fs + more, env) == Run(fs, env)
    decreases |more|
  {
    if more == [] {
      assert fs + more == fs;
    } else {
      var m := more[..|more| - 1];
      RunStops(fs, m, env);
      RunSnoc(fs + m, more[|more| - 1], env);
      assert fs + more == fs + m + [more[|more| - 1]];
    }
  }

  lemma {:induction false} SplitBounded(b: seq<Byte>, max: nat)
    ensures Bounded(Split(b, max).0, max)
    decreases |b|
  {
    if Parse(b, max).Complete? {
      SplitBounded(b[Parse(b, max).total..], max);
    }
  }

  /** What a connection waits on is always short. */
  lemma {:induction false} RestIsShort(b: seq<Byte>, max: nat)
    requires Split(b, max).1.Waiting?
    ensures |Split(b, max).1.rest| < max + 14
    decreases |b|
  {
    hide ParseHead;
    match Parse(b, max)
    case NeedMore =>
      WaitingIsShort(b, max);
    case Complete(_, n) =>
      RestIsShort(b[n..], max);
  }

  // ----- One look at the front of the unread bytes

  /** Everything before `rest` was complete frames, all accepted. */
  ghost predicate Upto(consumed: seq<Byte>, handed: seq<Frame>, c: Conn, env: Env) {
    Split(consumed, env.max) == (handed, Waiting([])) && Run(handed, env) == (c, Going)
  }

  lemma UptoNothing(env: Env)
    ensures Upto([], [], INIT, env)
  {
    SplitNothing(env.max);
  }

  lemma UptoRest(consumed: seq<Byte>, handed: seq<Frame>, c: Conn, rest: seq<Byte>, env: Env)
    requires Upto(consumed, handed, c, env)
    ensures Split(consumed + rest, env.max) == (handed + Split(rest, env.max).0, Split(rest, env.max).1)
  {
    hide Run;
    SplitAppend(consumed, rest, env.max);
    assert [] + rest == rest;
  }

  lemma AtWait(consumed: seq<Byte>, handed: seq<Frame>, c: Conn, rest: seq<Byte>, env: Env)
    requires Upto(consumed, handed, c, env) && Parse(rest, env.max).NeedMore?
    ensures Received(consumed + rest, env) == Outcome(c, Going, rest)
  {
    hide Parse, Run;
    UptoRest(consumed, handed, c, rest, env);
    assert handed + [] == handed;
  }

  lemma AtBad(consumed: seq<Byte>, handed: seq<Frame>, c: Conn, rest: seq<Byte>, env: Env)
    requires Upto(consumed, handed, c, env) && Parse(rest, env.max).Bad?
    ensures Received(consumed + rest, env) == Outcome(c, Failed, [])
  {
    hide Parse, Run;
    UptoRest(consumed, handed, c, rest, env);
    assert handed + [] == handed;
  }

  lemma AtStop(consumed: seq<Byte>, handed: seq<Frame>, c: Conn, rest: seq<Byte>, env: Env)
    requires Upto(consumed, handed, c, env) && Parse(rest, env.max).Complete?
    requires Step(c, Parse(rest, env.max).frame, env).1 != Going
    ensures var (d, v) := Step(c, Parse(rest, env.max).frame, env);
            Received(consumed + rest, env) == Outcome(d, v, [])
  {
    hide Parse, Step, Run;
    var f, n := Parse(rest, env.max).frame, Parse(rest, env.max).total;
    UptoRest(consumed, handed, c, rest, env);
    RunSnoc(handed, f, env);
    var more := Split(rest[n..], env.max).0;
    RunStops(handed + [f], more, env);
    assert handed + ([f] + more) == handed + [f] + more;
  }

  lemma AtFrame(consumed: seq<Byte>, handed: seq<Frame>, c: Conn, rest: seq<Byte>, env: Env)
    requires Upto(consumed, handed, c, env) && Parse(rest, env.max).Complete? && env.max < LIMIT
    requires Step(c, Parse(rest, env.max).frame, env).1 == Going
    ensures var p := Parse(rest, env.max);
            Upto(consumed + rest[..p.total], handed + [p.frame], Step(c, p.frame, env).0, env)
  {
    hide Parse, Step, Run, Split;
    var p := Parse(rest, env.max);
    UptoRest(consumed, handed, c, rest[..p.total], env);
    SplitOne(rest, env.max);
    RunSnoc(handed, p.frame, env);
  }

  // ----- Chunks

  /** Frames handled from state c on. */
  ghost function RunFrom(c: Conn, fs: seq<Frame>, env: Env): (Conn, Verdict)
    decreases |fs|
  {
    if fs == [] then (c, Going)
    else
      var (d, v) := Step(c, fs[0], env);
      if v != Going then (d, v) else RunFrom(d, fs[1..], env)
  }

  /** One read's worth of bytes, given only the state and the bytes left over. */
  ghost function Feed(o: Outcome, x: seq<Byte>, env: Env): Outcome {
    if o.verdict != Going then o
    else
      var (fs, t) := Split(o.rest + x, env.max);
      var (c, v) := RunFrom(o.conn, fs, env);
      if v != Going then Outcome(c, v, [])
      else if t.Broken? then Outcome(c, Failed, [])
      else Outcome(c, Going, t.rest)
  }

  ghost function FeedAll(chunks: seq<seq<Byte>>, env: Env): Outcome {
    if chunks == [] then Outcome(INIT, Going, [])
    else Feed(FeedAll(chunks[..|chunks| - 1], env), chunks[|chunks| - 1], env)
  }

  function Joined(chunks: seq<seq<Byte>>): seq<Byte> {
    if chunks == [] then [] else Joined(chunks[..|chunks| - 1]) + chunks[|chunks| - 1]
  }

  lemma {:induction false} RunSplit(fs: seq<Frame>, gs: seq<Frame>, env: Env)
    requires Run(fs, env).1 == Going
    ensures Run(fs + gs, env) == RunFrom(Run(fs, env).0, gs, env)
    decreases |gs|
  {
    hide Step;
    if gs == [] {
      assert fs + gs == fs;
    } else {
      RunSnoc(fs, gs[0], env);
      assert fs + gs == fs + [gs[0]] + gs[1..];
      if Run(fs + [gs[0]], env).1 == Going {
        RunSplit(fs + [gs[0]], gs[1..], env);
      } else {
        RunStops(fs + [gs[0]], gs[1..], env);
      }
    }
  }

  lemma FeedReceived(b: seq<Byte>, x: seq<Byte>, env: Env)
    ensures Feed(Received(b, env), x, env) == Received(b + x, env)
  {
    hide Split, Run, RunFrom;
    SplitAppend(b, x, env.max);
    var (fs, t) := Split(b, env.max);
    if Run(fs, env).1 != Going {
      if t.Waiting? {
        RunStops(fs, Split(t.rest + x, env.max).0, env);
      }
    } else if t.Waiting? {
      RunSplit(fs, Split(t.rest + x, env.max).0, env);
    }
  }

  /** Any way of cutting a stream into reads has the outcome of reading it whole: the same frames
      handled, the same messages delivered, the same verdict. */
  lemma {:induction false} ChunkingIndependence(chunks: seq<seq<Byte>>, env: Env)
    ensures FeedAll(chunks, env) == Received(Joined(chunks), env)
  {
    hide Split, Run, RunFrom, Feed;
    if chunks == [] {
      ReceivedNothing(env);
    } else {
      ChunkingIndependence(chunks[..|chunks| - 1], env);
      FeedReceived(Joined(chunks[..|chunks| - 1]), chunks[|chunks| - 1], env);
    }
  }

  lemma ReceivedNothing(env: Env)
    ensures Received([], env) == Outcome(INIT, Going, [])
  {
    SplitNothing(env.max);
  }

  /** Whatever bytes a client sends, what is delivered is within the limit, and text well-formed. */
  lemma ReceivedAreValid(b: seq<Byte>, env: Env)
    ensures forall m | m in Delivered(Received(b, env).conn.events) ::
              |m.data| <= env.max && (m.text ==> Utf8.WellFormed(m.data))
  {
    hide Split, Run, Delivered, Utf8.WellFormed;
    SplitBounded(b, env.max);
    DeliveredAreValid(Split(b, env.max).0, env);
  }

  // ----- From bytes to messages

  /** Frames on the wire, each with its length in some form. */
  function Wire(fs: seq<Frame>, forms: seq<Form>): seq<Byte>
    requires AllSendable(fs, forms)
  {
    if fs == [] then [] else Serialize(fs[0], forms[0]) + Wire(fs[1..], forms[1..])
  }

  predicate AllSendable(fs: seq<Frame>, forms: seq<Form>) {
    |forms| == |fs| && forall i | 0 <= i < |fs| :: Sendable(fs[i], forms[i])
  }

  /** The frames on the wire are found again. */
  lemma {:induction false} SplitsWire(fs: seq<Frame>, forms: seq<Form>, max: nat)
    requires AllSendable(fs, forms) && Bounded(fs, max)
    ensures Split(Wire(fs, forms), max) == (fs, Waiting([]))
    decreases |fs|
  {
    hide Parse, Serialize;
    if fs == [] {
      SplitNothing(max);
    } else {
      var b, rest := Serialize(fs[0], forms[0]), Wire(fs[1..], forms[1..]);
      SplitsWire(fs[1..], forms[1..], max);
      ParsesSerialized(fs[0], forms[0], rest, max);
      assert (b + rest)[|b|..] == rest;
      assert [fs[0]] + fs[1..] == fs;
    }
  }

  /** Conversely a stream that has not failed is frames on the wire and the start of one more. */
  lemma {:induction false} SplitIsWire(b: seq<Byte>, max: nat) returns (forms: seq<Form>)
    requires max < LIMIT && Split(b, max).1.Waiting?
    ensures AllSendable(Split(b, max).0, forms) && b == Wire(Split(b, max).0, forms) + Split(b, max).1.rest
    ensures Parse(Split(b, max).1.rest, max).NeedMore?
    decreases |b|
  {
    hide Serialize, ParseHead, Sendable, Wire;
    var p := Parse(b, max);
    if p.NeedMore? {
      forms := [];
      assert Wire([], []) == [] by { WireNothing(); }
    } else {
      ParsedIsSerialized(b, max);
      var more := SplitIsWire(b[p.total..], max);
      var form, fs, t := FormOf(b[1] % 128), Split(b[p.total..], max).0, Split(b[p.total..], max).1;
      forms := [form] + more;
      WireCons(p.frame, form, fs, more);
      Rejoin(b, p.total, Wire(fs, more), t.rest);
    }
  }

  lemma WireNothing()
    ensures Wire([], []) == []
  {
  }

  lemma Rejoin(b: seq<Byte>, n: nat, w: seq<Byte>, rest: seq<Byte>)
    requires n <= |b| && b[n..] == w + rest
    ensures b == b[..n] + w + rest
  {
  }

  lemma WireCons(f: Frame, form: Form, fs: seq<Frame>, forms: seq<Form>)
    requires Sendable(f, form) && AllSendable(fs, forms)
    ensures AllSendable([f] + fs, [form] + forms)
    ensures Wire([f] + fs, [form] + forms) == Serialize(f, form) + Wire(fs, forms)
  {
    hide Serialize, Sendable;
    var all, shapes := [f] + fs, [form] + forms;
    assert all[1..] == fs && shapes[1..] == forms;
  }

  /** The bytes of frames that make up messages deliver exactly these messages, whatever their keys and
      length forms, and answer every ping. */
  lemma ConformingBytes(fs: seq<Frame>, forms: seq<Form>, groups: seq<seq<Frame>>, part: seq<Frame>, env: Env)
    requires AllSendable(fs, forms) && Bounded(fs, env.max) && env.max < LIMIT && Conforms(fs, groups, part, env.max)
    requires forall k | 0 <= k < |Pings(fs)| :: env.pongOk(k)
    ensures var o := Received(Wire(fs, forms), env);
            && o.verdict == Going && o.rest == [] && o.conn == Run(fs, env).0
            && Explained(fs, o.conn, groups, part, env)
  {
    hide Split, Run, Explained, Conforms;
    SplitsWire(fs, forms, env.max);
    ConformingAccepted(fs, groups, part, env);
  }

  /** Conversely, as long as a connection goes on, what its client has sent is frames that make up messages,
      the start of one more frame, and what was delivered is these messages. */
  lemma AcceptedBytes(b: seq<Byte>, env: Env)
      returns (fs: seq<Frame>, forms: seq<Form>, groups: seq<seq<Frame>>, part: seq<Frame>)
    requires env.max < LIMIT && Received(b, env).verdict == Going
    ensures AllSendable(fs, forms) && b == Wire(fs, forms) + Received(b, env).rest
    ensures Parse(Received(b, env).rest, env.max).NeedMore?
    ensures Explained(fs, Received(b, env).conn, groups, part, env)
  {
    hide Split, Run, Explained, Parse, Wire;
    fs := Split(b, env.max).0;
    forms := SplitIsWire(b, env.max);
    SplitBounded(b, env.max);
    groups, part := AcceptedConforms(fs, env);
  }

  /** Bytes that are no frame end the connection behind frames that were all accepted, and do nothing else. */
  lemma BadBytes(fs: seq<Frame>, forms: seq<Form>, bad: seq<Byte>, env: Env)
    requires AllSendable(fs, forms) && Bounded(fs, env.max) && env.max < LIMIT
    requires Run(fs, env).1 == Going && Parse(bad, env.max).Bad?
    ensures Received(Wire(fs, forms) + bad, env) == Outcome(Run(fs, env).0, Failed, [])
  {
    hide Run, Parse, Wire;
    SplitsWire(fs, forms, env.max);
    AtBad(Wire(fs, forms), fs, Run(fs, env).0, bad, env);
  }

  /** A frame that is not accepted ends the connection with its own verdict; what comes behind is ignored. */
  lemma StoppingBytes(fs: seq<Frame>, forms: seq<Form>, f: Frame, form: Form, more: seq<Byte>, env: Env)
    requires AllSendable(fs, forms) && Sendable(f, form) && Bounded(fs + [f], env.max) && env.max < LIMIT
    requires Run(fs, env).1 == Going && Run(fs + [f], env).1 != Going
    ensures var (c, v) := Run(fs + [f], env);
            Received(Wire(fs, forms) + (Serialize(f, form) + more), env) == Outcome(c, v, [])
  {
    hide Run, Parse, Wire, Serialize, Step;
    assert (fs + [f])[|fs|] == f && forall i | 0 <= i < |fs| :: (fs + [f])[i] == fs[i];
    SplitsWire(fs, forms, env.max);
    RunSnoc(fs, f, env);
    ParsesSerialized(f, form, more, env.max);
    AtStop(Wire(fs, forms), fs, Run(fs, env).0, Serialize(f, form) + more, env);
  }
}
