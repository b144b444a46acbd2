/** What the server does with the next frame after any sequence it has accepted, from the bytes of that frame
    and the frames before it alone (sections 5.4, 5.5, 5.6, 7.1.5 and 7.4 of RFC 6455). */
module FrameAnswers {
  import opened Bits
  import opened Frames
  import opened Reassembly
  import Utf8

  /** Frame f, coming after fs, has these effects and this verdict. */
  ghost predicate Gains(fs: seq<Frame>, f: Frame, env: Env, gained: seq<Event>, v: Verdict) {
    Run(fs + [f], env).1 == v && Run(fs + [f], env).0.events == Run(fs, env).0.events + gained
  }

  /** fs is made of these messages and this part of one, and every ping in it could be answered. */
  ghost predicate Came(fs: seq<Frame>, groups: seq<seq<Frame>>, part: seq<Frame>, env: Env) {
    && Bounded(fs, env.max) && Conforms(fs, groups, part, env.max)
    && forall k | 0 <= k < |Pings(fs)| :: env.pongOk(k)
  }

  /** The step taken for f depends only on the open part and the number of pings. */
  lemma AtStep(fs: seq<Frame>, groups: seq<seq<Frame>>, part: seq<Frame>, f: Frame, env: Env) returns (c: Conn)
    requires Came(fs, groups, part, env)
    ensures c == Run(fs, env).0 && c.fragment == FragmentOf(part) && c.pongs == |Pings(fs)|
    ensures Run(fs + [f], env) == Step(c, f, env)
  {
    hide Step, Conforms, Run, Pings, Delivered, PongsSent;
    ConformingAccepted(fs, groups, part, env);
    RunSnoc(fs, f, env);
    c := Run(fs, env).0;
  }

  /** A control frame that is fragmented or long fails the connection with 1002. */
  lemma ControlRefused(fs: seq<Frame>, groups: seq<seq<Frame>>, part: seq<Frame>, f: Frame, env: Env)
    requires Came(fs, groups, part, env) && f.opcode >= 8 && (!f.fin || |f.payload| >= 126)
    ensures Gains(fs, f, env, [SendClose(1002)], Closing)
  {
    hide Run, Came;
    var c := AtStep(fs, groups, part, f, env);
  }

  /** A ping is answered with its own payload, or the connection fails when the socket does not take the
      pong; a pong is handed to the application. */
  lemma PingAnswered(fs: seq<Frame>, groups: seq<seq<Frame>>, part: seq<Frame>, f: Frame, env: Env)
    requires Came(fs, groups, part, env) && (f.opcode == 9 || f.opcode == 10) && f.fin && |f.payload| <= 125
    ensures f.opcode == 9 && env.pongOk(|Pings(fs)|) ==> Gains(fs, f, env, [SendPong(f.payload)], Going)
    ensures f.opcode == 9 && !env.pongOk(|Pings(fs)|) ==> Gains(fs, f, env, [], Failed)
    ensures f.opcode == 10 ==> Gains(fs, f, env, [OnPong(f.payload)], Going)
  {
    hide Run, Came;
    var c := AtStep(fs, groups, part, f, env);
  }

  /** The close handshake. A code that may be sent is echoed and reported, with a reason that must be
      UTF-8; no code at all is answered with no code and reported as 1000. */
  lemma CloseAnswered(fs: seq<Frame>, groups: seq<seq<Frame>>, part: seq<Frame>, f: Frame, env: Env)
    requires Came(fs, groups, part, env) && f.opcode == 8 && f.fin && |f.payload| <= 125
    ensures |f.payload| == 0 ==> Gains(fs, f, env, [SendBareClose, OnClose(1000)], Closing)
    ensures |f.payload| == 1 ==> Gains(fs, f, env, [SendClose(1002)], Closing)
    ensures |f.payload| >= 2 ==>
              var code := 256 * f.payload[0] as int + f.payload[1];
              if !(1000 <= code <= 1003 || 1007 <= code <= 1011 || 3000 <= code <= 4999) then
                Gains(fs, f, env, [SendClose(1002)], Closing)
              else if !Utf8.WellFormed(f.payload[2..]) then Gains(fs, f, env, [SendClose(1007)], Closing)
              else Gains(fs, f, env, [SendClose(code), OnClose(code)], Closing)
  {
    hide Run, Came, Utf8.WellFormed;
    var c := AtStep(fs, groups, part, f, env);
    assert forall a: Event, b: Event :: c.events + [a] + [b] == c.events + [a, b];
  }

  /** A text or binary frame: refused in the middle of a message; otherwise the beginning of a message, or
      a whole one, which if it is text must be UTF-8. */
  lemma DataAnswered(fs: seq<Frame>, groups: seq<seq<Frame>>, part: seq<Frame>, f: Frame, env: Env)
    requires Came(fs, groups, part, env) && (f.opcode == 1 || f.opcode == 2)
    ensures part != [] ==> Gains(fs, f, env, [], Failed)
    ensures part == [] && !f.fin ==> Gains(fs, f, env, [], Going)
    ensures part == [] && f.fin && f.opcode == 1 && !Utf8.WellFormed(f.payload) ==> Gains(fs, f, env, [SendClose(1007)], Closing)
    ensures part == [] && f.fin && (f.opcode == 1 ==> Utf8.WellFormed(f.payload)) ==>
              Gains(fs, f, env, [Deliver(Message(f.opcode == 1, f.payload))], Going)
  {
    hide Run, Came, Utf8.WellFormed;
    var c := AtStep(fs, groups, part, f, env);
  }

  /** A continuation frame: refused outside a message; fails the connection with 1009 when the message gets
      too long and with 1007 when it ends as text that is not UTF-8. */
  lemma ContinuationAnswered(fs: seq<Frame>, groups: seq<seq<Frame>>, part: seq<Frame>, f: Frame, env: Env)
    requires Came(fs, groups, part, env) && f.opcode == 0
    ensures part == [] ==> Gains(fs, f, env, [], Failed)
    ensures part != [] ==>
              var data := Payloads(part) + f.payload;
              if |data| > env.max then Gains(fs, f, env, [SendClose(1009)], Closing)
              else if !f.fin then Gains(fs, f, env, [], Going)
              else if part[0].opcode == 1 && !Utf8.WellFormed(data) then Gains(fs, f, env, [SendClose(1007)], Closing)
              else Gains(fs, f, env, [Deliver(Message(part[0].opcode == 1, data))], Going)
  {
    hide Run, Came, Utf8.WellFormed, Payloads;
    var c := AtStep(fs, groups, part, f, env);
  }

  /** Any other opcode fails the connection. */
  lemma UnknownFails(fs: seq<Frame>, groups: seq<seq<Frame>>, part: seq<Frame>, f: Frame, env: Env)
    requires Came(fs, groups, part, env) && (3 <= f.opcode <= 7 || (f.opcode > 10 && f.fin && |f.payload| <= 125))
    ensures Gains(fs, f, env, [], Failed)
  {
    hide Run, Came;
    var c := AtStep(fs, groups, part, f, env);
  }
}
