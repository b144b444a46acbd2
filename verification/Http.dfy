/** What an HTTP connection must send: one response per request, in the order of the requests
    (section 6.3.2 of RFC 7230). The request parser and the application are parameters. */
module Http {
  import opened Bits

  const STREAM_CHUNK := 1024 * 1024
  const SINGLE_MAX := 4 * 1024 * 1024
  const MAX_HEADER_SIZE := 32 * 1024

  /** What the parser says of the bytes in the receive buffer. */
  datatype Parsed = Incomplete(headersDone: bool) | Malformed | TooLarge | Unsupported | Request(size: nat)

  /** A file to serve: its response header, the bytes the file has from the first one asked for,
      how many are asked for, and whether the connection goes on afterwards. */
  datatype File = File(header: seq<Byte>, data: seq<Byte>, size: nat, keepAlive: bool)

  /** What the application answers: a response that is built at once, one that cannot be built, or
      a file. */
  datatype Answer = Reply(bytes: seq<Byte>, keepAlive: bool) | Unbuildable | Serve(file: File)

  /** The parser, the application, the response to a single read, and the bare status replies. What the
      application answers may depend on the connection and on the number of the request in it. */
  datatype App = App(parse: seq<Byte> -> Parsed, answer: (nat, nat, seq<Byte>) -> Answer,
                     build: (File, seq<Byte>) -> seq<Byte>, status: nat -> seq<Byte>)
  {
    /** A request lies at the front of the buffer, and bytes behind it do not change it. */
    ghost predicate Ok() {
      && (forall b :: parse(b).Request? ==> 0 < parse(b).size <= |b|)
      && (forall b, x :: parse(b).Request? ==> parse(b + x) == parse(b))
    }
  }

  /** A file is streamed when it is larger than one chunk and there is asynchronous I/O. */
  predicate Streamed(f: File, aio: bool) {
    aio && f.size > STREAM_CHUNK
  }

  /** b is a complete response with this answer. A single read may come back short; the response is
      built for what it brought. */
  ghost predicate IsResponse(app: App, aio: bool, answer: Answer, b: seq<Byte>) {
    match answer
    case Reply(bytes, _) => b == bytes
    case Unbuildable => false
    case Serve(f) =>
      if Streamed(f, aio) then f.size <= |f.data| && b == f.header + f.data[..f.size]
      else exists n: nat :: n <= f.size && n <= |f.data| && b == app.build(f, f.data[..n])
  }

  /** b begins a response with this answer. */
  ghost predicate Begins(app: App, aio: bool, answer: Answer, b: seq<Byte>) {
    match answer
    case Reply(bytes, _) => b <= bytes
    case Unbuildable => b == []
    case Serve(f) =>
      if Streamed(f, aio) then b <= f.header + f.data
      else exists n: nat :: n <= f.size && n <= |f.data| && b <= app.build(f, f.data[..n])
  }

  /** b begins one of the status replies after which the connection closes. */
  ghost predicate BeginsStatus(app: App, b: seq<Byte>) {
    || b <= app.status(400) || b <= app.status(413) || b <= app.status(431)
    || b <= app.status(500) || b <= app.status(501) || b <= app.status(503)
  }

  function Concat(bs: seq<seq<Byte>>): seq<Byte> {
    if bs == [] then [] else Concat(bs[..|bs| - 1]) + bs[|bs| - 1]
  }

  /** The parser cuts the input into these requests, and `rest` remains. */
  ghost predicate Cut(app: App, input: seq<Byte>, requests: seq<seq<Byte>>, rest: seq<Byte>)
    decreases |requests|
  {
    if requests == [] then input == rest
    else
      var p := app.parse(input);
      p.Request? && p.size <= |input| && requests[0] == input[..p.size] && Cut(app, input[p.size..], requests[1..], rest)
  }

  /** The life of a connection so far: its number, all input, the requests dispatched, the input behind them, the
      complete responses, and what was sent after those. */
  datatype Log = Log(life: nat, input: seq<Byte>, requests: seq<seq<Byte>>, rest: seq<Byte>,
                     responses: seq<seq<Byte>>, tail: seq<Byte>)

  function EmptyLog(life: nat): Log {
    Log(life, [], [], [], [], [])
  }

  function AnswerTo(app: App, log: Log, i: nat): Answer
    requires i < |log.requests|
  {
    app.answer(log.life, i, log.requests[i])
  }

  /** Whether the connection goes on after this answer. */
  predicate KeepsAlive(answer: Answer) {
    match answer
    case Reply(_, keepAlive) => keepAlive
    case Serve(f) => f.keepAlive
    case Unbuildable => false
  }

  /** One response per request, in order, but for the last request, whose response may be under way; and
      no request was taken up after one that ends the connection. */
  ghost predicate InOrder(app: App, aio: bool, log: Log) {
    && Cut(app, log.input, log.requests, log.rest)
    && |log.responses| <= |log.requests| <= |log.responses| + 1
    && (forall i | 0 <= i < |log.responses| :: IsResponse(app, aio, AnswerTo(app, log, i), log.responses[i]))
    && (forall i | 0 <= i < |log.requests| - 1 :: KeepsAlive(AnswerTo(app, log, i)))
  }

  /** Every request is answered and nothing else was sent. */
  predicate Answered(log: Log) {
    |log.responses| == |log.requests| && log.tail == []
  }

  /** What may follow the complete responses when a connection closes: nothing, the beginning of the
      next response, or a status reply. */
  ghost predicate MayEnd(app: App, aio: bool, log: Log) {
    || log.tail == [] || BeginsStatus(app, log.tail)
    || (|log.requests| == |log.responses| + 1 && Begins(app, aio, AnswerTo(app, log, |log.responses|), log.tail))
  }

  /** The status reply that refuses what comes next: a request that is malformed, too large or not
      supported, a header without end, or a file that can neither be streamed nor read at once. */
  function RefusalCode(app: App, aio: bool, log: Log, recv: seq<Byte>): Refusal {
    if |log.requests| == |log.responses| + 1 then
      match AnswerTo(app, log, |log.responses|)
      case Serve(f) => if !Streamed(f, aio) && f.size > SINGLE_MAX then Refuse(503) else Welcome
      case _ => Welcome
    else
      match app.parse(recv)
      case Malformed => Refuse(400)
      case TooLarge => Refuse(413)
      case Unsupported => Refuse(501)
      case Incomplete(headersDone) => if !headersDone && |recv| > MAX_HEADER_SIZE then Refuse(431) else Welcome
      case Request(_) => Welcome
  }

  datatype Refusal = Welcome | Refuse(code: nat)

  /** The request answered last, or the one that cannot be, closes the connection. */
  predicate LastWord(app: App, log: Log) {
    && log.requests != []
    && var answer := AnswerTo(app, log, |log.requests| - 1);
       !KeepsAlive(answer) && (answer.Unbuildable? || Answered(log))
  }

  /** The last request has an answer that cannot be built. */
  predicate Unanswerable(app: App, log: Log) {
    log.requests != [] && AnswerTo(app, log, |log.requests| - 1).Unbuildable?
  }

  /** Why a connection may close by itself: a send or a file read failed, the last response says so, or
      the status reply that refuses the input was sent. */
  predicate Over(app: App, aio: bool, log: Log, recv: seq<Byte>, sendFailed: bool, readFailed: bool) {
    || sendFailed || readFailed || LastWord(app, log)
    || (RefusalCode(app, aio, log, recv).Refuse? && log.tail == app.status(RefusalCode(app, aio, log, recv).code))
  }

  /** So a connection that closes with no send or read failed has sent a last response, or been asked for what
      cannot be built, or has refused its input or a file with the status code for it. */
  lemma ClosedWith(app: App, aio: bool, log: Log, recv: seq<Byte>)
    requires Over(app, aio, log, recv, false, false) && |log.responses| <= |log.requests| <= |log.responses| + 1
    ensures || (log.requests != [] && Answered(log) && !KeepsAlive(AnswerTo(app, log, |log.requests| - 1)))
            || Unanswerable(app, log)
            || (log.tail == app.status(400) && app.parse(recv).Malformed?)
            || (log.tail == app.status(413) && app.parse(recv).TooLarge?)
            || (log.tail == app.status(501) && app.parse(recv).Unsupported?)
            || (log.tail == app.status(431) && app.parse(recv) == Incomplete(false) && |recv| > 32768)
            || (log.tail == app.status(503) && |log.requests| == |log.responses| + 1 &&
                exists f :: AnswerTo(app, log, |log.responses|) == Serve(f) && f.size > 4194304 && !aio)
  {
    if |log.requests| == |log.responses| + 1 {
      var answer := AnswerTo(app, log, |log.responses|);
      if answer.Serve? {
        assert answer == Serve(answer.file);
      }
    }
  }

  /** There is no request to dispatch: nothing, or the beginning of one that may still become complete. */
  predicate Starved(app: App, recv: seq<Byte>) {
    recv == [] ||
    match app.parse(recv)
    case Incomplete(headersDone) => headersDone || |recv| <= MAX_HEADER_SIZE
    case _ => false
  }

  function SentBytes(log: Log): seq<Byte> {
    Concat(log.responses) + log.tail
  }

  // ----- How the log grows

  function Arrive(log: Log, x: seq<Byte>): Log {
    log.(input := log.input + x, rest := log.rest + x)
  }

  function Dispatch(log: Log, n: nat): Log
    requires n <= |log.rest|
  {
    log.(requests := log.requests + [log.rest[..n]], rest := log.rest[n..])
  }

  function Emit(log: Log, b: seq<Byte>): Log {
    log.(tail := log.tail + b)
  }

  function Complete(log: Log): Log {
    log.(responses := log.responses + [log.tail], tail := [])
  }

  lemma {:induction false} CutArrive(app: App, input: seq<Byte>, requests: seq<seq<Byte>>, rest: seq<Byte>, x: seq<Byte>)
    requires app.Ok() && Cut(app, input, requests, rest)
    ensures Cut(app, input + x, requests, rest + x)
    decreases |requests|
  {
    if requests != [] {
      var n := app.parse(input).size;
      CutArrive(app, input[n..], requests[1..], rest, x);
      assert app.parse(input + x) == app.parse(input);
      assert (input + x)[n..] == input[n..] + x;
      assert (input + x)[..n] == input[..n];
    }
  }

  lemma {:induction false} CutNext(app: App, input: seq<Byte>, requests: seq<seq<Byte>>, rest: seq<Byte>)
    requires app.Ok() && Cut(app, input, requests, rest) && app.parse(rest).Request?
    ensures var n := app.parse(rest).size; Cut(app, input, requests + [rest[..n]], rest[n..])
    decreases |requests|
  {
    var n := app.parse(rest).size;
    var more := requests + [rest[..n]];
    if requests == [] {
      assert more[1..] == [];
    } else {
      var k := app.parse(input).size;
      CutNext(app, input[k..], requests[1..], rest);
      assert more[1..] == requests[1..] + [rest[..n]];
    }
  }

  /** The requests are successive pieces of the input. */
  lemma {:induction false} CutIsInput(app: App, input: seq<Byte>, requests: seq<seq<Byte>>, rest: seq<Byte>)
    requires Cut(app, input, requests, rest)
    ensures input == Concat(requests) + rest
    decreases |requests|
  {
    if requests != [] {
      var n := app.parse(input).size;
      CutIsInput(app, input[n..], requests[1..], rest);
      ConcatCons(requests);
      assert input == input[..n] + input[n..];
    }
  }

  lemma {:induction false} ConcatCons(bs: seq<seq<Byte>>)
    requires bs != []
    ensures Concat(bs) == bs[0] + Concat(bs[1..])
  {
    if |bs| > 1 {
      var k := |bs| - 1;
      ConcatCons(bs[..k]);
      assert bs[..k][1..] == bs[1..][..k - 1];
      assert bs[1..][k - 1] == bs[k];
    }
  }

  lemma ConcatSnoc(bs: seq<seq<Byte>>, b: seq<Byte>)
    ensures Concat(bs + [b]) == Concat(bs) + b
  {
    assert (bs + [b])[..|bs|] == bs;
  }

  lemma ArriveInOrder(app: App, aio: bool, log: Log, x: seq<Byte>)
    requires app.Ok() && InOrder(app, aio, log)
    ensures InOrder(app, aio, Arrive(log, x)) && SentBytes(Arrive(log, x)) == SentBytes(log)
  {
    hide Cut, IsResponse;
    CutArrive(app, log.input, log.requests, log.rest, x);
  }

  lemma DispatchInOrder(app: App, aio: bool, log: Log)
    requires app.Ok() && InOrder(app, aio, log) && Answered(log) && !LastWord(app, log) && app.parse(log.rest).Request?
    ensures var n := app.parse(log.rest).size;
            0 < n <= |log.rest| && InOrder(app, aio, Dispatch(log, n)) && SentBytes(Dispatch(log, n)) == SentBytes(log)
  {
    hide Cut, IsResponse;
    CutNext(app, log.input, log.requests, log.rest);
    var n := app.parse(log.rest).size;
    assert forall i | 0 <= i < |log.requests| :: AnswerTo(app, Dispatch(log, n), i) == AnswerTo(app, log, i);
  }

  lemma EmitInOrder(app: App, aio: bool, log: Log, b: seq<Byte>)
    requires InOrder(app, aio, log)
    ensures InOrder(app, aio, Emit(log, b)) && SentBytes(Emit(log, b)) == SentBytes(log) + b
  {
    hide Cut, IsResponse;
    assert Concat(log.responses) + (log.tail + b) == Concat(log.responses) + log.tail + b;
  }

  lemma CompleteAnswers(app: App, log: Log)
    ensures forall i | 0 <= i < |log.requests| :: AnswerTo(app, Complete(log), i) == AnswerTo(app, log, i)
  {
  }

  lemma CompleteInOrder(app: App, aio: bool, log: Log)
    requires InOrder(app, aio, log) && |log.requests| == |log.responses| + 1
    requires IsResponse(app, aio, AnswerTo(app, log, |log.responses|), log.tail)
    ensures InOrder(app, aio, Complete(log)) && Answered(Complete(log)) && SentBytes(Complete(log)) == SentBytes(log)
  {
    hide Cut, IsResponse, KeepsAlive, Concat;
    ConcatSnoc(log.responses, log.tail);
    assert SentBytes(Complete(log)) == SentBytes(log) + [];
    CompleteAnswers(app, log);
  }
}
