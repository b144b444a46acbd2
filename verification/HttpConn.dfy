/** HTTP on one connection slot, src/http/connection.c: pipelined requests, file responses read off the
    event thread, streamed files, and teardown. A slot lives many lives; reads submitted in one life
    may complete in another. */
module HttpConnection {
  import opened Bits
  import opened Common
  import opened Http
  import opened Output

  datatype State = Free | Live | Retired

  /** http_stream_t: pos counts the file bytes handed over so far. */
  datatype Stream = Stream(generation: nat, file: File, pos: nat, reading: bool)

  /** http_file_ctx_t, and how many bytes the read asks for. */
  datatype FileRead = FileRead(generation: nat, file: File, want: nat)

  /** A pread: how many bytes it asked for and what it returned. */
  datatype Read = Read(want: nat, n: int)

  /** Every stream context ever allocated is either live or has been freed. A live one has a read in
      flight or belongs to the connection. */
  ghost predicate HeapOk(streams: map<nat, Stream>, inFlight: set<nat>, freed: set<nat>, nextId: nat, current: Option<nat>) {
    && (forall id: nat :: id < nextId <==> id in streams || id in freed)
    && (forall id: nat :: !(id in streams && id in freed))
    && (forall id: nat :: id in inFlight <==> id in streams && streams[id].reading)
    && (forall id: nat :: id in streams ==> streams[id].reading || current == Some(id))
  }

  /** The pieces of a stream's file are within what was asked for and what there is. */
  predicate StreamOk(s: Stream) {
    s.pos <= s.file.size && s.pos <= |s.file.data|
  }

  /** The response under way is this file, as far as the stream has come. */
  ghost predicate Streaming(app: App, log: Log, s: Stream) {
    && Requested(app, log, s.file) && Streamed(s.file, true) && StreamOk(s)
    && log.tail == s.file.header + s.file.data[..s.pos]
  }

  ghost predicate FilesOk(files: map<nat, FileRead>, nextRead: nat, generation: nat) {
    forall id: nat :: id in files ==> id < nextRead && files[id].generation <= generation
  }

  ghost predicate NoReads(files: map<nat, FileRead>, generation: nat) {
    forall id: nat :: id in files ==> files[id].generation < generation
  }

  /** The response under way waits for this read. */
  ghost predicate Parked(app: App, log: Log, files: map<nat, FileRead>, id: nat, generation: nat) {
    && id in files && files[id].generation == generation
    && (forall other: nat :: other in files && other != id ==> files[other].generation < generation)
    && Requested(app, log, files[id].file) && log.tail == [] && !Streamed(files[id].file, true)
    && files[id].want == files[id].file.size
  }

  /** The last request asks for this file and is not answered yet. */
  ghost predicate Requested(app: App, log: Log, file: File) {
    |log.requests| == |log.responses| + 1 && AnswerTo(app, log, |log.responses|) == Serve(file)
  }

  /** What was known of a connection when it was closed. */
  datatype Final = Final(log: Log, recv: seq<Byte>, readFailed: bool)

  lemma StreamIsResponse(app: App, log: Log, s: Stream)
    requires Streaming(app, log, s) && s.pos >= s.file.size
    ensures IsResponse(app, true, AnswerTo(app, log, |log.responses|), log.tail)
    ensures log.tail == s.file.header + s.file.data[..s.file.size]
  {
  }

  lemma AnsweredMayEnd(app: App, aio: bool, log: Log)
    requires log.tail == []
    ensures MayEnd(app, aio, log)
  {
  }

  /** A stream may be cut off anywhere. */
  lemma StreamMayEnd(app: App, log: Log, s: Stream, more: seq<Byte>)
    requires Streaming(app, log, s) && more <= s.file.data[s.pos..]
    ensures MayEnd(app, true, Emit(log, more))
  {
    hide BeginsStatus;
    var f := s.file;
    assert f.data == f.data[..s.pos] + f.data[s.pos..];
    assert f.header + f.data[..s.pos] + more <= f.header + f.data;
  }

  lemma StreamCut(app: App, log: Log, s: Stream)
    requires Streaming(app, log, s)
    ensures MayEnd(app, true, log)
  {
    hide MayEnd;
    StreamMayEnd(app, log, s, []);
    assert log.tail + [] == log.tail;
  }

  lemma ChunkMayEnd(app: App, log: Log, s: Stream, n: nat, k: nat)
    requires Streaming(app, log, s) && k <= n && s.pos + n <= |s.file.data|
    ensures MayEnd(app, true, Emit(log, s.file.data[s.pos..s.pos + n][..k]))
    ensures s.pos + n <= s.file.size && k == n ==>
              Streaming(app, Emit(log, s.file.data[s.pos..s.pos + n][..k]), s.(pos := s.pos + n))
  {
    hide MayEnd;
    var f := s.file;
    var chunk := f.data[s.pos..s.pos + n];
    assert chunk[..k] <= f.data[s.pos..];
    StreamMayEnd(app, log, s, chunk[..k]);
    if k == n {
      assert chunk[..k] == chunk && f.data[..s.pos] + chunk == f.data[..s.pos + n];
      assert f.header + f.data[..s.pos] + chunk == f.header + (f.data[..s.pos] + chunk);
    }
  }

  lemma HeaderMayEnd(app: App, log: Log, file: File, k: nat)
    requires Requested(app, log, file) && Streamed(file, true) && log.tail == [] && k <= |file.header|
    ensures MayEnd(app, true, Emit(log, file.header[..k]))
    ensures k == |file.header| ==> Streaming(app, Emit(log, file.header[..k]), Stream(0, file, 0, false))
  {
    hide BeginsStatus;
    assert [] + file.header[..k] == file.header[..k] <= file.header + file.data;
    assert file.header + file.data[..0] == file.header;
  }

  lemma StatusMayEnd(app: App, aio: bool, log: Log, k: nat)
    requires log.tail == [] && k <= |app.status(500)|
    ensures MayEnd(app, aio, Emit(log, app.status(500)[..k]))
  {
    hide Begins;
    assert [] + app.status(500)[..k] <= app.status(500);
  }

  lemma SingleMayEnd(app: App, aio: bool, log: Log, file: File, n: nat, k: nat)
    requires Requested(app, log, file) && !Streamed(file, aio) && log.tail == []
    requires n <= file.size && n <= |file.data| && k <= |app.build(file, file.data[..n])|
    ensures var b := app.build(file, file.data[..n]);
            && MayEnd(app, aio, Emit(log, b[..k]))
            && (k == |b| ==> IsResponse(app, aio, AnswerTo(app, log, |log.responses|), Emit(log, b[..k]).tail))
  {
    hide BeginsStatus;
    var b := app.build(file, file.data[..n]);
    assert [] + b[..k] == b[..k] <= b;
  }

  lemma ReplyMayEnd(app: App, aio: bool, log: Log, bytes: seq<Byte>, k: nat)
    requires |log.requests| == |log.responses| + 1 && log.tail == [] && k <= |bytes|
    requires AnswerTo(app, log, |log.responses|).Reply?
    requires AnswerTo(app, log, |log.responses|).bytes == bytes
    ensures MayEnd(app, aio, Emit(log, bytes[..k]))
    ensures k == |bytes| ==> IsResponse(app, aio, AnswerTo(app, log, |log.responses|), Emit(log, bytes[..k]).tail)
  {
    hide BeginsStatus;
    assert [] + bytes[..k] == bytes[..k] <= bytes;
  }

  lemma NewLog(app: App, aio: bool, life: nat)
    ensures InOrder(app, aio, EmptyLog(life)) && SentBytes(EmptyLog(life)) == []
  {
  }

  lemma NewGeneration(files: map<nat, FileRead>, nextRead: nat, generation: nat)
    requires FilesOk(files, nextRead, generation)
    ensures FilesOk(files, nextRead, generation + 1) && NoReads(files, generation + 1)
  {
  }

  lemma ArriveStreaming(app: App, log: Log, x: seq<Byte>, s: Stream)
    requires Streaming(app, log, s)
    ensures Streaming(app, Arrive(log, x), s)
  {
  }

  lemma ArriveParked(app: App, log: Log, x: seq<Byte>, files: map<nat, FileRead>, id: nat, generation: nat)
    requires Parked(app, log, files, id, generation)
    ensures Parked(app, Arrive(log, x), files, id, generation)
  {
  }

  // ----- The heap of stream contexts

  lemma HeapNew(streams: map<nat, Stream>, inFlight: set<nat>, freed: set<nat>, nextId: nat, s: Stream)
    requires HeapOk(streams, inFlight, freed, nextId, None) && !s.reading
    ensures nextId !in streams && HeapOk(streams[nextId := s], inFlight, freed, nextId + 1, Some(nextId))
  {
  }

  lemma HeapFree(streams: map<nat, Stream>, inFlight: set<nat>, freed: set<nat>, nextId: nat, current: Option<nat>, id: nat)
    requires HeapOk(streams, inFlight, freed, nextId, current) && id in streams && !streams[id].reading
    requires current == Some(id) || current == None
    ensures HeapOk(streams - {id}, inFlight, freed + {id}, nextId, None)
  {
  }

  lemma HeapSubmit(streams: map<nat, Stream>, inFlight: set<nat>, freed: set<nat>, nextId: nat, current: Option<nat>, id: nat)
    requires HeapOk(streams, inFlight, freed, nextId, current) && id in streams
    ensures HeapOk(streams[id := streams[id].(reading := true)], inFlight + {id}, freed, nextId, current)
  {
  }

  lemma HeapDone(streams: map<nat, Stream>, inFlight: set<nat>, freed: set<nat>, nextId: nat, id: nat)
    requires HeapOk(streams, inFlight, freed, nextId, Some(id)) && id in streams
    ensures HeapOk(streams[id := streams[id].(reading := false)], inFlight - {id}, freed, nextId, Some(id))
  {
  }

  lemma HeapDrop(streams: map<nat, Stream>, inFlight: set<nat>, freed: set<nat>, nextId: nat, current: Option<nat>, id: nat)
    requires HeapOk(streams, inFlight, freed, nextId, current) && id in inFlight
    ensures id in streams && HeapOk(streams - {id}, inFlight - {id}, freed + {id}, nextId, current)
  {
  }

  lemma HeapMove(streams: map<nat, Stream>, inFlight: set<nat>, freed: set<nat>, nextId: nat, current: Option<nat>, id: nat, s: Stream)
    requires HeapOk(streams, inFlight, freed, nextId, current) && id in streams && s.reading == streams[id].reading
    ensures HeapOk(streams[id := s], inFlight, freed, nextId, current)
  {
  }

  class HttpSlot {
    const app: App
    /** Whether the event thread has asynchronous I/O. */
    const aio: bool

    var state: State
    var generation: nat
    var out: OutQueue
    var recv: seq<Byte>
    var asyncInflight: bool
    var closeWhenDrained: bool
    var fileStream: Option<nat>

    /** The heap of stream contexts, and the reads that are in flight. */
    var streams: map<nat, Stream>
    var streamReads: set<nat>
    var fileReads: map<nat, FileRead>
    var nextId: nat
    var nextRead: nat

    /** How many requests the application has been asked in this life. */
    var asked: nat

    ghost var freed: set<nat>
    ghost var log: Log
    /** A file read of this life failed, or ended before the bytes promised. */
    ghost var readFailed: bool
    /** The last read made on the spot. */
    ghost var lastRead: Read
    /** The backend has just refused a read that was offered to it. */
    ghost var refused: bool
    /** How the last life ended. */
    ghost var final: Final

    /** What holds of the slot between events, in all its lives. A retired slot keeps its fields but no
        event finds it any more; a read that completes for it only frees its context. */
    ghost predicate Valid()
      reads this, out, out.buffer
    {
      match state
      case Live => Running()
      case Free => Dormant() && fileStream == None
      case Retired => Dormant()
    }

    ghost predicate Dormant()
      reads this
    {
      && app.Ok() && HeapOk(streams, streamReads, freed, nextId, fileStream)
      && FilesOk(fileReads, nextRead, generation)
    }

    constructor (app: App, aio: bool)
      requires app.Ok()
      ensures Valid() && state == Free && generation == 0 && streams == map[] && fileReads == map[]
      ensures fresh(out) && fresh(out.buffer)
    {
      this.app, this.aio := app, aio;
      state, generation := Free, 0;
      out := new OutQueue();
      recv, asyncInflight, closeWhenDrained, fileStream := [], false, false, None;
      streams, streamReads, fileReads, nextId, nextRead := map[], {}, map[], 0, 0;
      asked := 0;
      freed, log, readFailed := {}, EmptyLog(0), false;
      final, lastRead, refused := Final(EmptyLog(0), [], false), Read(0, 0), false;
    }

    ghost predicate Base()
      reads this, out, out.buffer
    {
      && app.Ok() && state == Live && out.Valid() && InOrder(app, aio, log) && out.accepted == SentBytes(log)
      && HeapOk(streams, streamReads, freed, nextId, fileStream)
      && FilesOk(fileReads, nextRead, generation)
      && log.life == generation && asked == |log.requests| && (out.Backlog() ==> out.lastWrite == WouldBlock)
      && (out.armed ==> out.Backlog())
    }

    /** Nothing has gone wrong. */
    ghost predicate Healthy()
      reads this, out
    {
      out.lastSend == Accepted && !readFailed
    }

    /** Every request dispatched so far is done with. */
    ghost predicate Finished()
      reads this, out, out.buffer
    {
      && Base() && Healthy() && log.rest == recv && Answered(log) && NoReads(fileReads, generation)
      && fileStream == None && !asyncInflight && !closeWhenDrained
    }

    /** Ready for the next request: the last response was not one that ends the connection. */
    ghost predicate Idle()
      reads this, out, out.buffer
    {
      Finished() && !LastWord(app, log)
    }

    /** Ready, and nothing to do: no complete request is waiting. */
    ghost predicate Resting()
      reads this, out, out.buffer
    {
      Idle() && Starved(app, recv)
    }

    /** To be closed, and for a reason: what was sent last may be incomplete. */
    ghost predicate Ended()
      reads this, out, out.buffer
    {
      && Base() && MayEnd(app, aio, log) && NoReads(fileReads, generation)
      && fileStream == None && !asyncInflight
      && Over(app, aio, log, recv, out.lastSend != Accepted, readFailed)
    }

    /** To be closed now: nothing waits to be written, unless a send or a read failed or the application's
        answer cannot be built. */
    ghost predicate Done()
      reads this, out, out.buffer
    {
      Ended() && (out.Backlog() ==> !Healthy() || Unanswerable(app, log))
    }

    /** To be closed as soon as the backlog is gone. */
    ghost predicate Ending()
      reads this, out, out.buffer
    {
      Ended() && closeWhenDrained && out.Backlog()
    }

    /** A file response is being streamed. */
    ghost predicate Pumping(id: nat)
      reads this, out, out.buffer
    {
      && Base() && Healthy() && log.rest == recv && NoReads(fileReads, generation)
      && fileStream == Some(id) && asyncInflight && !closeWhenDrained && aio
      && id in streams && streams[id].generation == generation && Streaming(app, log, streams[id])
    }

    /** A stream is never stranded: a read is in flight and nothing waits to be written, or something
        does and the socket will say when it can be (OutQueue.Valid arms EPOLLOUT for a backlog). */
    ghost predicate Waiting(id: nat)
      reads this, out, out.buffer
    {
      Pumping(id) && streams[id].reading != out.Backlog()
    }

    ghost predicate WaitingForFile(id: nat)
      reads this, out, out.buffer
    {
      && Base() && Healthy() && log.rest == recv && Parked(app, log, fileReads, id, generation)
      && fileStream == None && asyncInflight && !closeWhenDrained && aio
    }

    /** Between events. */
    ghost predicate Running()
      reads this, out, out.buffer
    {
      || Resting() || Ending()
      || (exists id: nat :: Waiting(id))
      || (exists id: nat :: WaitingForFile(id))
    }

    /** A request has been dispatched; its n bytes are still in the buffer. */
    ghost predicate Handling(n: nat)
      reads this, out, out.buffer
    {
      && Base() && Healthy() && n <= |recv| && log.rest == recv[n..] && NoReads(fileReads, generation)
      && fileStream == None && !asyncInflight && !closeWhenDrained
      && |log.requests| == |log.responses| + 1 && log.tail == []
    }

    /** Nothing is under way. */
    ghost predicate Quiet()
      reads this, out, out.buffer
    {
      && Base() && Healthy() && NoReads(fileReads, generation) && log.tail == []
      && fileStream == None && !asyncInflight && !closeWhenDrained
    }

    twostate predicate Frame()
      reads this, out
    {
      && out == old(out) && generation == old(generation)
      && (out.buffer != old(out.buffer) ==> fresh(out.buffer))
      && old(log.responses) <= log.responses && log.input == old(log.input) && old(freed) <= freed
      && old(out.accepted) <= out.accepted && old(out.writes) <= out.writes
      && |recv| <= old(|recv|)
      && (forall id: nat :: id in fileReads ==> id in old(fileReads) || id >= old(nextRead)) && old(nextRead) <= nextRead
    }

    // ----- Sending

    /** portico_conn_send, noted in the log. */
    method Put(bytes: seq<Byte>) returns (ok: bool, ghost k: nat)
      requires Base()
      modifies this`log, out, out.buffer
      ensures Base() && k <= |bytes| && log == Emit(old(log), bytes[..k]) && (ok ==> k == |bytes|)
      ensures out.accepted == old(out.accepted) + bytes[..k]
      ensures (ok <==> out.lastSend == Accepted) && old(out.writes) <= out.writes
      ensures !ok ==> out.lastWrite == Broken || old(|out.Pending()|) + |bytes| > OUT_MAX
      ensures out.buffer != old(out.buffer) ==> fresh(out.buffer)
    {
      hide App.Ok, InOrder, HeapOk, SentBytes;
      var r;
      r, k := out.Send(bytes);
      EmitInOrder(app, aio, log, bytes[..k]);
      log := Emit(log, bytes[..k]);
      ok := r == Accepted;
    }

    /** http_finish_close */
    method FinishClose() returns (r: int)
      requires Ended()
      modifies this`closeWhenDrained
      ensures r == 0 <==> out.Backlog()
      ensures r == 0 ==> Ending()
      ensures r != 0 ==> r == -1 && Done() && closeWhenDrained == old(closeWhenDrained)
    {
      hide App.Ok, InOrder, HeapOk, SentBytes, MayEnd, NoReads;
      if out.Backlog() {
        closeWhenDrained := true;
        return 0;
      }
      r := -1;
    }

    /** http_error_close: a status reply, then the end. */
    method ErrorClose(code: nat) returns (r: int)
      requires Quiet() && RefusalCode(app, aio, log, recv) == Refuse(code)
      modifies this`log, this`closeWhenDrained, out, out.buffer
      ensures Frame() && log.responses == old(log.responses)
      ensures r == 0 ==> Ending()
      ensures r != 0 ==> r == -1 && Done()
    {
      hide App.Ok, InOrder, HeapOk, SentBytes, NoReads, Begins;
      ghost var k;
      var ok;
      var bytes := app.status(code);
      ok, k := Put(bytes);
      assert log.tail == bytes[..k] <= app.status(code);
      if !ok {
        return -1;
      }
      assert log.tail == bytes;
      r := FinishClose();
    }

    // ----- Streamed files

    /** stream_fail: cut off and close. */
    method StreamFail(id: nat) returns (r: int)
      requires Base() && NoReads(fileReads, generation) && MayEnd(app, aio, log)
      requires fileStream == Some(id) && id in streams && !streams[id].reading && !Healthy()
      modifies this`fileStream, this`asyncInflight, this`streams, this`freed
      ensures r == -1 && Done() && freed == old(freed) + {id}
    {
      hide App.Ok, InOrder, HeapOk, SentBytes, MayEnd, NoReads, FilesOk;
      HeapFree(streams, streamReads, freed, nextId, fileStream, id);
      fileStream := None;
      asyncInflight := false;
      streams := streams - {id};
      freed := freed + {id};
      r := -1;
    }

    /** stream_finish: the response is complete; go on with the next request or arrange to close. */
    method StreamFinish(id: nat) returns (r: int)
      requires Pumping(id) && !streams[id].reading && streams[id].pos >= streams[id].file.size
      modifies this, out, out.buffer
      ensures Frame() && (r == 0 || r == -1)
      ensures r == 0 ==> Running()
      ensures r == -1 ==> Done()
      ensures old(log.responses) + [old(streams[id].file.header + streams[id].file.data[..streams[id].file.size])]
           <= log.responses
      decreases |recv|, 3
    {
      hide App.Ok, InOrder, HeapOk, SentBytes, MayEnd, NoReads, FilesOk, IsResponse, Streaming;
      var keepAlive := streams[id].file.keepAlive;
      Detach(id);
      ghost var now := log.responses;
      assert old(log.responses) <= now;
      if keepAlive {
        r := ProcessHttpBuffer();
      } else {
        AnsweredMayEnd(app, aio, log);
        r := FinishClose();
      }
    }

    /** The finished stream lets go of the connection and is freed. */
    method Detach(id: nat)
      requires Pumping(id) && !streams[id].reading && streams[id].pos >= streams[id].file.size
      modifies this`log, this`fileStream, this`asyncInflight, this`streams, this`freed
      ensures Finished() && freed == old(freed) + {id} && log.input == old(log.input)
      ensures LastWord(app, log) <==> !old(streams[id].file.keepAlive)
      ensures log.responses
           == old(log.responses) + [old(streams[id].file.header + streams[id].file.data[..streams[id].file.size])]
    {
      hide App.Ok, InOrder, HeapOk, SentBytes, MayEnd, NoReads, FilesOk, IsResponse;
      StreamIsResponse(app, log, streams[id]);
      CompleteInOrder(app, aio, log);
      HeapFree(streams, streamReads, freed, nextId, fileStream, id);
      log := Complete(log);
      fileStream := None;
      asyncInflight := false;
      streams := streams - {id};
      freed := freed + {id};
    }

    /** portico_aio_submit: whether the backend takes the read is up to it. */
    method Offer() returns (accepted: bool)
      modifies this`refused
      ensures refused == !accepted
    {
      accepted := *;
      refused := !accepted;
    }

    /** pread of n bytes at pos: it may bring fewer, none at the end of the file, or fail. The caller
        can use no fewer than `least`. With asynchronous I/O it is a last resort. */
    method PRead(file: File, pos: nat, want: nat, ghost least: nat) returns (n: int)
      requires aio ==> refused
      modifies this`readFailed, this`lastRead, this`refused
      ensures !refused
      ensures n <= want && (n > 0 ==> pos + n <= |file.data|) && lastRead == Read(want, n)
      ensures readFailed == (old(readFailed) || n < least)
    {
      var available := if pos < |file.data| then |file.data| - pos else 0;
      var most := if available < want then available else want;
      n :| -1 <= n <= most;
      readFailed, lastRead, refused := readFailed || n < least, Read(want, n), false;
    }

    /** stream_advance: submit the next read, or wait for the socket, or finish. When no read can be
        submitted the chunk is read on the spot. */
    method StreamAdvance(id: nat) returns (r: int)
      requires Pumping(id) && (streams[id].reading ==> !out.Backlog())
      modifies this, out, out.buffer
      ensures Frame() && (r == 0 || r == -1)
      ensures r == 0 ==> Running()
      ensures r == -1 ==> Done()
      ensures r == -1 && Healthy() ==> |log.responses| > old(|log.responses|)
      decreases |recv|, 5
    {
      hide App.Ok, InOrder, HeapOk, SentBytes, MayEnd, NoReads, FilesOk, Streaming, Over, LastWord, Unanswerable;
      if streams[id].reading {
        assert Waiting(id);
        return 0;
      }
      while true
        invariant Pumping(id) && !streams[id].reading && Frame() && recv == old(recv)
        invariant streams[id].file == old(streams[id].file) && log.responses == old(log.responses)
        decreases streams[id].file.size - streams[id].pos
      {
        r := Pump(id);
        if r <= 0 {
          return;
        }
      }
    }

    /** One turn of that loop: 1 when a chunk has been handed over and there may be more to do. */
    method Pump(id: nat) returns (r: int)
      requires Pumping(id) && !streams[id].reading
      modifies this, out, out.buffer
      ensures Frame() && -1 <= r <= 1
      ensures r == 1 ==> Pumping(id) && !streams[id].reading && recv == old(recv) && log.responses == old(log.responses)
      ensures r == 1 ==> streams[id].file == old(streams[id].file) && old(streams[id].pos < streams[id].file.size)
      ensures r == 1 ==> old(streams[id].pos) < streams[id].pos
      ensures r == 0 ==> Running()
      ensures r == -1 ==> Done()
      ensures r == -1 && Healthy() ==> |log.responses| > old(|log.responses|)
      decreases |recv|, 4
    {
      hide App.Ok, InOrder, HeapOk, SentBytes, MayEnd, NoReads, FilesOk, Streaming, Over, LastWord, Unanswerable;
      if out.Backlog() {
        assert Waiting(id);
        return 0;
      }
      if streams[id].pos >= streams[id].file.size {
        r := StreamFinish(id);
        return;
      }
      var submitted := OfferChunk(id);
      if submitted {
        return 0;
      }
      var ok := ReadChunk(id);
      if !ok {
        r := StreamFail(id);
      } else {
        r := 1;
      }
    }

    /** The chunk is read on the spot and handed over. */
    method ReadChunk(id: nat) returns (ok: bool)
      requires Pumping(id) && !streams[id].reading && streams[id].pos < streams[id].file.size && !out.Backlog()
      requires aio ==> refused
      modifies this`log, this`streams, this`readFailed, this`lastRead, this`refused, out, out.buffer
      ensures Frame() && log.responses == old(log.responses)
      ensures ok ==> Pumping(id) && streams[id] == old(streams[id]).(pos := streams[id].pos)
      ensures ok ==> old(streams[id].pos) < streams[id].pos
      ensures !ok ==> Base() && MayEnd(app, aio, log) && streams == old(streams)
      ensures !ok ==> !Healthy() && (out.lastWrite == Broken || readFailed)
    {
      hide App.Ok, InOrder, HeapOk, SentBytes, MayEnd, NoReads, FilesOk, IsResponse, Streaming;
      var want := streams[id].file.size - streams[id].pos;
      if want > STREAM_CHUNK {
        want := STREAM_CHUNK;
      }
      var n := PRead(streams[id].file, streams[id].pos, want, 1);
      if n <= 0 {
        StreamCut(app, log, streams[id]);
        return false;
      }
      ok := PutChunk(id, n);
    }

    /** The next chunk is offered to the backend, if there is one. */
    method OfferChunk(id: nat) returns (submitted: bool)
      requires Pumping(id) && !streams[id].reading && !out.Backlog()
      modifies this`streams, this`streamReads, this`refused
      ensures submitted ==> Running()
      ensures !submitted ==> Pumping(id) && streams == old(streams) && streamReads == old(streamReads) && (aio ==> refused)
    {
      hide App.Ok, InOrder, HeapOk, SentBytes, MayEnd, NoReads, FilesOk, IsResponse, Streaming;
      submitted := false;
      if aio {
        submitted := Offer();
        if submitted {
          Submit(id);
          assert Waiting(id);
        }
      }
    }

    /** The read is in flight. */
    method Submit(id: nat)
      requires Pumping(id) && !streams[id].reading && !out.Backlog()
      modifies this`streams, this`streamReads
      ensures Waiting(id) && streams[id].reading
    {
      hide App.Ok, InOrder, HeapOk, SentBytes, MayEnd, NoReads, FilesOk, IsResponse;
      HeapSubmit(streams, streamReads, freed, nextId, fileStream, id);
      streams := streams[id := streams[id].(reading := true)];
      streamReads := streamReads + {id};
    }

    /** Hands over the n bytes just read. */
    method PutChunk(id: nat, n: nat) returns (ok: bool)
      requires Pumping(id) && !streams[id].reading && 0 < n <= streams[id].file.size - streams[id].pos
      requires streams[id].pos + n <= |streams[id].file.data|
      modifies this`log, this`streams, out, out.buffer
      ensures out.buffer != old(out.buffer) ==> fresh(out.buffer)
      ensures ok ==> Pumping(id) && streams[id] == old(streams[id]).(pos := old(streams[id].pos) + n)
      ensures !ok ==> Base() && MayEnd(app, aio, log) && streams == old(streams) && out.lastSend != Accepted
      ensures ok ==> out.accepted == old(out.accepted) + old(streams[id].file.data[streams[id].pos..streams[id].pos + n])
      ensures !ok ==> out.lastWrite == Broken || old(|out.Pending()|) + n > OUT_MAX
      ensures old(out.accepted) <= out.accepted && old(out.writes) <= out.writes
      ensures log.responses == old(log.responses) && log.input == old(log.input)
    {
      hide App.Ok, InOrder, HeapOk, SentBytes, NoReads, FilesOk, IsResponse, MayEnd;
      var s := streams[id];
      ghost var before := log;
      ghost var k;
      ok, k := Put(s.file.data[s.pos..s.pos + n]);
      ChunkMayEnd(app, before, s, n, k);
      if ok {
        HeapMove(streams, streamReads, freed, nextId, fileStream, id, s.(pos := s.pos + n));
        streams := streams[id := s.(pos := s.pos + n)];
      }
    }

    /** stream_start: header first, then the first chunk. */
    method StreamStart(file: File, consumed: nat) returns (r: int)
      requires Handling(consumed) && consumed > 0 && Requested(app, log, file) && Streamed(file, aio)
      modifies this, out, out.buffer
      ensures Frame() && (r == 0 || r == -1)
      ensures r == 0 ==> Running()
      ensures r == -1 ==> Done() && (out.Backlog() ==> out.lastSend != Accepted)
      decreases |recv|, 0
    {
      hide App.Ok, InOrder, HeapOk, SentBytes, NoReads, FilesOk, IsResponse, MayEnd, Streaming, Requested;
      var id, ok := PutHeader(file, consumed);
      if !ok {
        r := StreamFail(id);
        return;
      }
      r := StreamAdvance(id);
      if r < 0 {
        r := FinishClose();
      }
    }

    /** A new stream context, the connection parked on it, and the response header sent. */
    method PutHeader(file: File, consumed: nat) returns (id: nat, ok: bool)
      requires Handling(consumed) && Requested(app, log, file) && Streamed(file, aio)
      modifies this`recv, this`streams, this`nextId, this`fileStream, this`asyncInflight, this`log, out, out.buffer
      ensures Frame() && recv == old(recv)[consumed..]
      ensures ok ==> Pumping(id) && !streams[id].reading
      ensures !ok ==> Base() && NoReads(fileReads, generation) && MayEnd(app, aio, log) && !Healthy()
      ensures fileStream == Some(id) && id in streams && !streams[id].reading
    {
      hide App.Ok, InOrder, HeapOk, SentBytes, NoReads, FilesOk, IsResponse, MayEnd;
      recv := recv[consumed..];
      id := NewStream(file);
      ghost var before := log;
      ghost var k;
      ok, k := Put(file.header);
      HeaderMayEnd(app, before, file, k);
      if ok {
        assert Streaming(app, log, streams[id]);
      }
    }

    method NewStream(file: File) returns (id: nat)
      requires Base() && fileStream == None
      modifies this`streams, this`nextId, this`fileStream, this`asyncInflight
      ensures Base() && id in streams && streams[id] == Stream(generation, file, 0, false)
      ensures fileStream == Some(id) && asyncInflight
    {
      hide App.Ok, InOrder, HeapOk, SentBytes, FilesOk;
      id := nextId;
      var s := Stream(generation, file, 0, false);
      HeapNew(streams, streamReads, freed, nextId, s);
      streams := streams[id := s];
      nextId := nextId + 1;
      fileStream := Some(id);
      asyncInflight := true;
    }

    // ----- Single reads

    /** file_emit: the response to a file read in one go. */
    method FileEmit(file: File, nread: int) returns (closeIt: bool)
      requires Base() && out.lastSend == Accepted && log.rest == recv && NoReads(fileReads, generation)
      requires fileStream == None && !asyncInflight && !closeWhenDrained && log.tail == []
      requires Requested(app, log, file) && !Streamed(file, aio)
      requires nread <= file.size && nread <= |file.data| && readFailed == (nread < 0)
      modifies this`log, out, out.buffer
      ensures Frame()
      ensures !closeIt ==> Idle() && nread >= 0 && log.responses == old(log.responses) + [app.build(file, file.data[..nread])]
      ensures closeIt ==> Ended() && !closeWhenDrained
      ensures nread >= 0 && out.lastSend == Accepted ==>
                log.responses == old(log.responses) + [app.build(file, file.data[..nread])]
      ensures nread < 0 || out.lastSend != Accepted ==> log.responses == old(log.responses)
      ensures nread < 0 && out.lastSend == Accepted ==> log.tail == app.status(500)
      ensures closeIt && nread >= 0 && file.keepAlive && out.lastWrite != Broken ==>
                old(|out.Pending()|) + |app.build(file, file.data[..nread])| > OUT_MAX
    {
      hide App.Ok, InOrder, HeapOk, SentBytes, NoReads, FilesOk, IsResponse, MayEnd, RefusalCode;
      ghost var before := log;
      ghost var k;
      var ok;
      if nread < 0 {
        ok, k := Put(app.status(500));
        StatusMayEnd(app, aio, before, k);
        assert ok ==> log.tail == app.status(500);
        return true;
      }
      var sent := PutFile(file, nread);
      closeIt := !sent || !file.keepAlive;
    }

    /** The response built from the n bytes read. */
    method PutFile(file: File, n: nat) returns (sent: bool)
      requires Handling(0) && Requested(app, log, file) && !Streamed(file, aio)
      requires n <= file.size && n <= |file.data|
      modifies this`log, out, out.buffer
      ensures Frame() && (sent <==> out.lastSend == Accepted)
      ensures sent ==> Finished() && log.responses == old(log.responses) + [app.build(file, file.data[..n])]
      ensures sent ==> if file.keepAlive then Idle() else Ended()
      ensures !sent ==> Ended() && log.responses == old(log.responses)
      ensures !sent ==> out.lastWrite == Broken || old(|out.Pending()|) + |app.build(file, file.data[..n])| > OUT_MAX
    {
      hide App.Ok, InOrder, HeapOk, SentBytes, NoReads, FilesOk, IsResponse, MayEnd, RefusalCode;
      ghost var before := log;
      ghost var k;
      assert recv[0..] == recv;
      var resp := app.build(file, file.data[..n]);
      sent, k := Put(resp);
      SingleMayEnd(app, aio, before, file, n, k);
      if sent {
        assert resp[..k] == resp && log.tail == [] + resp == resp;
        CompleteInOrder(app, aio, log);
        log := Complete(log);
        AnsweredMayEnd(app, aio, log);
      }
    }

    /** http_serve_file: -1 close now, 0 parked or closing, 1 go on with the next request. */
    method ServeFile(file: File, consumed: nat) returns (r: int)
      requires Handling(consumed) && consumed > 0 && Requested(app, log, file)
      modifies this, out, out.buffer
      ensures Frame() && -1 <= r <= 1
      ensures r == 1 ==> Idle() && |recv| < old(|recv|)
      ensures r == 0 ==> Running()
      ensures r == -1 ==> Done()
      ensures !Streamed(file, aio) && |log.responses| > old(|log.responses|) ==>
                && lastRead.want == file.size <= 4194304 && 0 <= lastRead.n <= |file.data|
                && log.responses == old(log.responses) + [app.build(file, file.data[..lastRead.n])]
      decreases |recv|, 1
    {
      hide App.Ok, InOrder, HeapOk, SentBytes, NoReads, FilesOk, IsResponse, MayEnd;
      if aio && file.size > STREAM_CHUNK {
        r := StreamStart(file, consumed);
        return;
      }
      if file.size > SINGLE_MAX {
        recv := recv[consumed..];
        r := ErrorClose(503);
        return;
      }
      recv := recv[consumed..];
      var submitted := OfferFile(file);
      if submitted {
        return 0;
      }
      r := ReadFile(file);
    }

    /** The file is read on the spot, in one go. */
    method ReadFile(file: File) returns (r: int)
      requires Handling(0) && Requested(app, log, file) && !Streamed(file, aio) && (aio ==> refused)
      modifies this`log, this`readFailed, this`lastRead, this`refused, this`closeWhenDrained, out, out.buffer
      ensures Frame() && -1 <= r <= 1
      ensures r == 1 ==> Idle()
      ensures r == 0 ==> Running()
      ensures r == -1 ==> Done()
      ensures |log.responses| > old(|log.responses|) ==>
                && lastRead.want == file.size && 0 <= lastRead.n <= |file.data|
                && log.responses == old(log.responses) + [app.build(file, file.data[..lastRead.n])]
    {
      hide App.Ok, InOrder, HeapOk, SentBytes, NoReads, FilesOk, IsResponse, MayEnd;
      assert recv[0..] == recv;
      var n := PRead(file, 0, file.size, 0);
      var closeIt := FileEmit(file, n);
      if closeIt {
        r := FinishClose();
      } else {
        r := 1;
      }
    }

    /** The read is offered to the backend, if there is one; the connection is parked when it is taken. */
    method OfferFile(file: File) returns (submitted: bool)
      requires Handling(0) && Requested(app, log, file) && !Streamed(file, aio)
      modifies this`asyncInflight, this`fileReads, this`nextRead, this`refused
      ensures submitted ==> Running() && nextRead == old(nextRead) + 1
      ensures forall id: nat :: id in fileReads ==> id in old(fileReads) || id >= old(nextRead)
      ensures !submitted ==> Handling(0) && nextRead == old(nextRead) && (aio ==> refused)
    {
      hide App.Ok, InOrder, HeapOk, SentBytes, NoReads, FilesOk, IsResponse, MayEnd, Parked;
      submitted := false;
      if aio {
        submitted := Offer();
        if submitted {
          SubmitFile(file);
        }
      }
    }

    /** The single read is in flight and the connection parked. */
    method SubmitFile(file: File)
      requires Handling(0) && Requested(app, log, file) && !Streamed(file, aio) && aio
      modifies this`asyncInflight, this`fileReads, this`nextRead
      ensures Running() && asyncInflight && nextRead == old(nextRead) + 1
      ensures forall id: nat :: id in fileReads ==> id in old(fileReads) || id >= old(nextRead)
    {
      hide App.Ok, InOrder, HeapOk, SentBytes;
      assert recv[0..] == recv;
      asyncInflight := true;
      fileReads := fileReads[nextRead := FileRead(generation, file, file.size)];
      nextRead := nextRead + 1;
      assert WaitingForFile(nextRead - 1);
    }

    // ----- Requests

    /** process_http_buffer: dispatches the requests in the buffer one after the other, as long as none
        is under way. */
    method ProcessHttpBuffer() returns (r: int)
      requires Idle()
      modifies this, out, out.buffer
      ensures Frame() && (r == 0 || r == -1)
      ensures r == 0 ==> Running()
      ensures r == -1 ==> Done()
      decreases |recv|, 2, 1
    {
      hide App.Ok, InOrder, HeapOk, SentBytes, NoReads, FilesOk, IsResponse, MayEnd;
      while true
        invariant Idle() && Frame()
        decreases |recv|
      {
        if recv == [] {
          return 0;
        }
        match app.parse(recv)
        case Incomplete(headersDone) =>
          if !headersDone && |recv| > MAX_HEADER_SIZE {
            r := ErrorClose(431);
            return;
          }
          return 0;
        case Malformed =>
          r := ErrorClose(400);
          return;
        case TooLarge =>
          r := ErrorClose(413);
          return;
        case Unsupported =>
          r := ErrorClose(501);
          return;
        case Request(size) =>
          r := HandleRequest(size);
          if r <= 0 {
            return;
          }
      }
    }

    /** The application is asked; from here on the request counts as dispatched. */
    method Ask(size: nat) returns (answer: Answer)
      requires Idle() && app.parse(recv) == Request(size)
      modifies this`log, this`asked
      ensures 0 < size <= |recv| && Handling(size) && log.requests[|log.responses|] == recv[..size]
      ensures answer == AnswerTo(app, log, |log.responses|)
      ensures log.input == old(log.input) && log.responses == old(log.responses)
    {
      hide App.Ok, InOrder, HeapOk, SentBytes, NoReads, FilesOk, IsResponse, MayEnd;
      DispatchInOrder(app, aio, log);
      log := Dispatch(log, size);
      answer := app.answer(generation, asked, recv[..size]);
      asked := asked + 1;
    }

    /** Dispatches the request at the front of the buffer: -1 close now, 0 parked or closing, 1 answered. */
    method HandleRequest(size: nat) returns (r: int)
      requires Idle() && app.parse(recv) == Request(size)
      modifies this, out, out.buffer
      ensures Frame() && -1 <= r <= 1
      ensures r == 1 ==> Idle() && |recv| < old(|recv|)
      ensures r == 0 ==> Running()
      ensures r == -1 ==> Done()
      decreases |recv|, 2, 0
    {
      hide App.Ok, InOrder, HeapOk, SentBytes, NoReads, FilesOk, IsResponse, MayEnd;
      var answer := Ask(size);
      match answer
      case Serve(file) =>
        r := ServeFile(file, size);
      case Unbuildable =>
        AnsweredMayEnd(app, aio, log);
        r := -1;
      case Reply(bytes, keepAlive) =>
        var sent := PutReply(bytes, size);
        if !sent {
          return -1;
        }
        if keepAlive {
          return 1;
        }
        AnsweredMayEnd(app, aio, log);
        r := FinishClose();
    }

    /** Sends a response built at once and takes its request off the buffer. */
    method PutReply(bytes: seq<Byte>, size: nat) returns (sent: bool)
      requires Handling(size) && AnswerTo(app, log, |log.responses|).Reply?
      requires AnswerTo(app, log, |log.responses|).bytes == bytes
      modifies this`log, this`recv, out, out.buffer
      ensures Frame()
      ensures sent ==> Finished() && recv == old(recv)[size..] && log.responses == old(log.responses) + [bytes]
      ensures log.requests == old(log.requests) && log.life == old(log.life)
      ensures !sent ==> Done() && (out.lastWrite == Broken || old(|out.Pending()|) + |bytes| > OUT_MAX)
    {
      hide App.Ok, InOrder, HeapOk, SentBytes, NoReads, FilesOk, IsResponse, MayEnd;
      ghost var before := log;
      ghost var k;
      sent, k := Put(bytes);
      ReplyMayEnd(app, aio, before, bytes, k);
      if sent {
        assert bytes[..k] == bytes && log.tail == [] + bytes == bytes;
        CompleteInOrder(app, aio, log);
        log := Complete(log);
        recv := recv[size..];
      }
    }

    // ----- Events

    /** The memset of ws_connection_init and ws_connection_cleanup. */
    method Wipe()
      modifies this`out, this`recv, this`asyncInflight, this`closeWhenDrained, this`fileStream, this`log, this`readFailed,
               this`asked
      ensures fresh(out) && fresh(out.buffer) && out.Valid() && !out.Backlog() && out.accepted == []
      ensures recv == [] && !asyncInflight && !closeWhenDrained && fileStream == None && log == EmptyLog(generation)
      ensures Healthy() && asked == 0 && !out.armed
    {
      asked := 0;
      out := new OutQueue();
      recv, asyncInflight, closeWhenDrained, fileStream := [], false, false, None;
      log, readFailed := EmptyLog(generation), false;
    }

    /** A new life: accept on a free slot. */
    method Open()
      requires Valid() && state == Free
      modifies this`generation, this`state, this`out, this`recv, this`asyncInflight, this`closeWhenDrained,
               this`fileStream, this`log, this`readFailed, this`asked
      ensures Valid() && Resting() && log == EmptyLog(generation) && generation == old(generation) + 1
      ensures fresh(out) && fresh(out.buffer)
    {
      hide App.Ok, InOrder, SentBytes, HeapOk, NoReads, FilesOk, Waiting, WaitingForFile, Ending;
      NewLog(app, aio, generation + 1);
      NewGeneration(fileReads, nextRead, generation);
      generation := generation + 1;
      state := Live;
      Wipe();
    }

    /** The connection's stream, unless a read for it is in flight. */
    ghost function Abandoned(): set<nat>
      reads this`fileStream, this`streams
    {
      match fileStream
      case Some(id) => if id in streams && !streams[id].reading then {id} else {}
      case None => {}
    }

    /** portico_http_stream_abort: a stream with a read in flight is left to the completion. */
    method StreamAbort()
      requires HeapOk(streams, streamReads, freed, nextId, fileStream)
      requires fileStream.Some? ==> fileStream.value in streams
      modifies this`fileStream, this`streams, this`freed
      ensures fileStream == None && HeapOk(streams, streamReads, freed, nextId, None)
      ensures freed == old(freed + Abandoned())
      ensures streams == old(streams - Abandoned())
    {
      match fileStream
      case None =>
      case Some(id) =>
        if !streams[id].reading {
          HeapFree(streams, streamReads, freed, nextId, fileStream, id);
          streams := streams - {id};
          freed := freed + {id};
        }
        fileStream := None;
    }

    /** close_connection. With the last reference the slot is wiped and its stream, unless a read is in
        flight, freed; otherwise the slot is retired as it is. */
    method Close(last: bool)
      requires Closable()
      modifies this`state, this`out, this`recv, this`asyncInflight, this`closeWhenDrained, this`fileStream, this`log,
               this`streams, this`freed, this`readFailed, this`final, this`asked
      ensures Valid() && state != Live && final == old(Final(log, recv, readFailed))
      ensures last ==> state == Free && fresh(out) && fresh(out.buffer)
      ensures last ==> freed == old(freed + Abandoned()) && streams == old(streams - Abandoned())
      ensures !last ==> state == Retired && streams == old(streams) && freed == old(freed)
    {
      hide App.Ok, HeapOk, FilesOk, Running, Abandoned;
      final := Final(log, recv, readFailed);
      if last {
        Recycle();
      } else {
        state := Retired;
      }
    }

    /** ws_connection_cleanup, and back to the pool. */
    method Recycle()
      requires Closable()
      modifies this`state, this`out, this`recv, this`asyncInflight, this`closeWhenDrained, this`fileStream, this`log,
               this`streams, this`freed, this`readFailed, this`asked
      ensures Dormant() && fileStream == None && state == Free && fresh(out) && fresh(out.buffer)
      ensures freed == old(freed + Abandoned()) && streams == old(streams - Abandoned())
    {
      hide App.Ok, HeapOk, FilesOk, Abandoned;
      StreamAbort();
      Wipe();
      state := Free;
    }

    /** The connection can be torn down. */
    ghost predicate Closable()
      reads this, out, out.buffer
    {
      state == Live && Dormant() && (fileStream.Some? ==> fileStream.value in streams)
    }

    /** More input, in whatever phase. */
    method Arrived(bytes: seq<Byte>)
      requires Running() && !closeWhenDrained
      modifies this`recv, this`log
      ensures log == Arrive(old(log), bytes)
      ensures if asyncInflight then Running() else Idle()
    {
      hide App.Ok, InOrder, SentBytes, HeapOk, NoReads, FilesOk, MayEnd, Streaming, Parked;
      ArriveInOrder(app, aio, log, bytes);
      ghost var before := log;
      recv := recv + bytes;
      log := Arrive(log, bytes);
      if id: nat :| old(Waiting(id)) {
        ArriveStreaming(app, before, bytes, streams[id]);
        assert Waiting(id);
      } else if id: nat :| old(WaitingForFile(id)) {
        ArriveParked(app, before, bytes, fileReads, id, generation);
        assert WaitingForFile(id);
      } else {
        assert Idle();
      }
    }

    /** portico_http_event: input is read at any time, but no request is dispatched while a response is
        under way or the connection is about to close. */
    method HttpEvent(bytes: seq<Byte>, gone: bool) returns (r: int)
      requires Running()
      modifies this, out, out.buffer
      ensures out == old(out) && (out.buffer != old(out.buffer) ==> fresh(out.buffer))
      ensures state == Live && (r == 0 || r == -1)
      ensures r == 0 ==> Running()
      ensures r == -1 ==> Closable() && (gone || Done())
      ensures gone && !old(closeWhenDrained) ==> r == -1
      ensures old(asyncInflight || closeWhenDrained) ==> log.requests == old(log.requests) && out.accepted == old(out.accepted)
      ensures log.input == old(log.input) + old(if closeWhenDrained then [] else bytes)
      ensures old(log.responses) <= log.responses
    {
      hide App.Ok, InOrder, SentBytes, HeapOk, NoReads, FilesOk, MayEnd, Streaming, Parked, IsResponse;
      if closeWhenDrained {
        return 0;
      }
      Arrived(bytes);
      if gone {
        return -1;
      }
      if asyncInflight {
        return 0;
      }
      r := ProcessHttpBuffer();
    }

    /** The life that ended had a reason to, found in its log, its last input or its output queue. */
    ghost predicate EndedBy(queue: OutQueue)
      reads this, queue
    {
      Over(app, aio, final.log, final.recv, queue.lastSend != Accepted, final.readFailed)
    }

    /** It took everything it had accepted with it, or something had failed. */
    ghost predicate LeftNothing(queue: OutQueue)
      reads this, queue
    {
      queue.wire == queue.accepted || queue.lastSend != Accepted || final.readFailed || Unanswerable(app, final.log)
    }

    /** EPOLLIN: afterwards no complete request waits, unless a response is under way or the connection is
        closing; and it closes only if the peer is gone or for a reason of its own. */
    method OnReadable(bytes: seq<Byte>, gone: bool, last: bool)
      requires Valid() && state == Live
      modifies this, out, out.buffer
      ensures Valid()
      ensures state == Live ==> log.input == old(log.input) + old(if closeWhenDrained then [] else bytes)
      ensures state == Live ==> old(log.responses) <= log.responses
      ensures state == Live && !asyncInflight && !closeWhenDrained ==> Starved(app, recv)
      ensures state == Live || gone || (EndedBy(old(out)) && LeftNothing(old(out)))
      ensures gone && !old(closeWhenDrained) ==> state != Live
    {
      hide App.Ok, InOrder, SentBytes, HeapOk, NoReads, FilesOk, Over, Starved;
      var r := HttpEvent(bytes, gone);
      if r < 0 {
        Close(last);
      }
    }

    /** EPOLLHUP, EPOLLERR or the reaper: the connection closes in whatever phase it is. */
    method OnHangup(last: bool)
      requires Valid() && state == Live
      modifies this
      ensures Valid() && state == (if last then Free else Retired)
      ensures last ==> forall id: nat :: id in streams ==> id in streamReads
    {
      hide App.Ok, InOrder, SentBytes, FilesOk, NoReads, Over, Starved;
      Close(last);
    }

    /** portico_conn_on_writable: drain; when all is out, take up the stream or finish a deferred close. */
    method Writable() returns (r: int)
      requires Running()
      modifies this, out, out.buffer
      ensures log.input == old(log.input) && old(log.responses) <= log.responses
      ensures out == old(out) && (out.buffer != old(out.buffer) ==> fresh(out.buffer))
      ensures state == Live && (r == 0 || r == -1)
      ensures r == 0 ==> Running()
      ensures r == -1 ==> Closable() && (out.lastWrite == Broken || Done())
      ensures old(out.Backlog()) ==> out.writes > old(out.writes)
    {
      hide App.Ok, InOrder, SentBytes, HeapOk, NoReads, FilesOk, MayEnd, Streaming, Parked, IsResponse, Over, Starved;
      var ok := Drained();
      if !ok {
        return -1;
      }
      if out.Backlog() {
        return 0;
      }
      if fileStream.Some? {
        r := StreamAdvance(fileStream.value);
        return;
      }
      r := if closeWhenDrained then -1 else 0;
    }

    /** Writes what the socket takes, and disarms EPOLLOUT when that is all. */
    method Drained() returns (ok: bool)
      requires Running()
      modifies out
      ensures out.buffer == old(out.buffer) && Closable() && out.accepted == old(out.accepted)
      ensures !ok ==> out.Backlog() && out.lastWrite == Broken
      ensures old(out.Backlog()) ==> out.writes > old(out.writes)
      ensures ok && out.Backlog() ==> Running()
      ensures ok && !out.Backlog() ==> !out.armed
      ensures ok && !out.Backlog() && fileStream.Some? ==> Pumping(fileStream.value)
      ensures ok && !out.Backlog() && fileStream.None? ==> if closeWhenDrained then Ended() else Running()
    {
      hide App.Ok, InOrder, SentBytes, HeapOk, NoReads, FilesOk, MayEnd, Streaming, Parked, Over, Starved;
      ok := out.Drain();
      if !ok {
        return;
      }
      if !out.Backlog() {
        out.Disarm();
      }
      if id: nat :| old(Waiting(id)) {
        assert Pumping(id);
        assert out.Backlog() ==> Waiting(id);
      } else if id: nat :| old(WaitingForFile(id)) {
        assert WaitingForFile(id);
      } else if old(Resting()) {
        assert Resting();
      } else {
        assert Ended();
      }
    }

    /** EPOLLOUT: a backlog is written until it is gone or the socket blocks; a connection that closes is
        broken, or has a reason of its own. */
    method OnWritable(last: bool)
      requires Valid() && state == Live
      modifies this, out, out.buffer
      ensures Valid()
      ensures state == Live ==> log.input == old(log.input) && old(log.responses) <= log.responses
      ensures old(out.Backlog()) ==> old(out).writes > old(out.writes)
      ensures state == Live ==> out == old(out) && (!out.Backlog() || out.lastWrite == WouldBlock)
      ensures state == Live || old(out).lastWrite == Broken || (EndedBy(old(out)) && LeftNothing(old(out)))
    {
      hide App.Ok, InOrder, SentBytes, HeapOk, NoReads, FilesOk, Over, Starved, MayEnd, Streaming, Parked;
      var r := Writable();
      if r < 0 {
        Close(last);
      }
    }

    // ----- Completions

    /** What a completion does with a connection that is to be closed: not before its backlog is out. */
    method EndOrClose(last: bool)
      requires Ended()
      modifies this
      ensures Valid()
      ensures state == Live <==> old(out.Backlog())
      ensures state == Live ==> log == old(log) && closeWhenDrained && out == old(out)
      ensures state != Live ==> final.log == old(log) && EndedBy(old(out)) && old(out).wire == old(out).accepted
      ensures fileReads == old(fileReads) && old(freed) <= freed
    {
      hide App.Ok, InOrder, SentBytes, HeapOk, NoReads, FilesOk, MayEnd, Over, Starved;
      if out.Backlog() {
        closeWhenDrained := true;
      } else {
        Close(last);
      }
    }

    /** The read is over. */
    method ReadDone(id: nat)
      requires Waiting(id) && streams[id].reading
      modifies this`streams, this`streamReads
      ensures Pumping(id) && !out.Backlog() && streams[id] == old(streams[id]).(reading := false)
    {
      hide App.Ok, InOrder, SentBytes, HeapOk, NoReads, FilesOk, MayEnd;
      HeapDone(streams, streamReads, freed, nextId, id);
      streams := streams[id := streams[id].(reading := false)];
      streamReads := streamReads - {id};
    }

    /** The chunk that a read brought to the connection's own stream. */
    method NextChunk(id: nat, nread: int) returns (rc: int)
      requires Waiting(id) && streams[id].reading
      requires nread <= STREAM_CHUNK && nread <= streams[id].file.size - streams[id].pos
      requires nread > 0 ==> streams[id].pos + nread <= |streams[id].file.data|
      modifies this, out, out.buffer
      ensures nread > 0 && out.lastSend == Accepted ==>
                old(out.accepted) + old(streams[id].file.data[streams[id].pos..streams[id].pos + nread]) <= out.accepted
      ensures out == old(out) && (out.buffer != old(out.buffer) ==> fresh(out.buffer))
      ensures rc == 0 || rc == -1
      ensures log.input == old(log.input) && old(log.responses) <= log.responses
      ensures rc == 0 ==> Running()
      ensures rc == -1 ==> Done()
      ensures nread <= 0 ==> rc == -1 && id in freed
      ensures nread > 0 && out.lastSend == Accepted && old(streams[id].pos + nread >= streams[id].file.size) ==>
                |log.responses| > old(|log.responses|)
      ensures rc == -1 && nread > 0 && Healthy() ==> |log.responses| > old(|log.responses|)
    {
      hide App.Ok, InOrder, SentBytes, HeapOk, NoReads, FilesOk, MayEnd, Streaming, IsResponse, Starved, LastWord, RefusalCode;
      ReadDone(id);
      if nread <= 0 {
        readFailed := true;
        StreamCut(app, log, streams[id]);
        rc := StreamFail(id);
        return;
      }
      var ok := PutChunk(id, nread);
      if !ok {
        rc := StreamFail(id);
      } else if streams[id].pos >= streams[id].file.size {
        rc := StreamFinish(id);
      } else {
        rc := StreamAdvance(id);
      }
    }

    /** A read completed for a connection that is gone: only its context is freed. */
    method DropStream(id: nat)
      requires Valid() && id in streamReads && !(state == Live && fileStream == Some(id))
      modifies this`streams, this`streamReads, this`freed
      ensures Valid() && streams == old(streams) - {id} && freed == old(freed) + {id}
    {
      hide App.Ok, InOrder, SentBytes, HeapOk, NoReads, FilesOk, MayEnd, Streaming, Parked;
      HeapDrop(streams, streamReads, freed, nextId, fileStream, id);
      streams := streams - {id};
      streamReads := streamReads - {id};
      freed := freed + {id};
      if state == Live {
        if other: nat :| old(Waiting(other)) {
          assert Waiting(other);
        } else if other: nat :| old(WaitingForFile(other)) {
          assert WaitingForFile(other);
        } else if old(Resting()) {
          assert Resting();
        } else {
          assert Ending();
        }
      }
    }

    /** The connection, whichever it is, is left alone. */
    twostate predicate Untouched()
      reads this, out
    {
      && state == old(state) && log == old(log) && recv == old(recv) && out == old(out)
      && out.accepted == old(out.accepted) && out.wire == old(out.wire)
    }

    /** stream_chunk_complete: the bytes go out behind everything before them, unless the send fails; a
        failed read frees the stream and closes the connection. For a connection that is gone, only the
        context is freed. */
    method StreamChunkComplete(id: nat, nread: int, last: bool)
      requires Valid() && id in streamReads && id in streams
      requires nread <= STREAM_CHUNK && nread <= streams[id].file.size - streams[id].pos
      requires nread > 0 ==> streams[id].pos + nread <= |streams[id].file.data|
      modifies this, out, out.buffer
      ensures Valid()
      ensures old(state != Live || fileStream != Some(id)) ==> streams == old(streams) - {id} && freed == old(freed) + {id}
      ensures old(state != Live || fileStream != Some(id)) ==> Untouched()
      ensures old(state) == Live && state == Live ==> log.input == old(log.input) && old(log.responses) <= log.responses
      ensures old(state == Live && fileStream == Some(id)) && nread > 0 && old(out).lastSend == Accepted ==>
                old(out.accepted) + old(streams[id].file.data[streams[id].pos..streams[id].pos + nread]) <= old(out).accepted
      ensures old(state == Live && fileStream == Some(id)) && nread <= 0 ==> id in freed && (state != Live || closeWhenDrained)
      ensures old(state) == Live && state != Live ==> EndedBy(old(out)) && old(out).wire == old(out).accepted
    {
      hide App.Ok, InOrder, SentBytes, HeapOk, NoReads, FilesOk, MayEnd, Streaming, Parked, Over, Starved;
      if state == Live && fileStream == Some(id) {
        OwnStream(id);
      }
      if !(state == Live && streams[id].generation == generation && fileStream == Some(id)) {
        DropStream(id);
        return;
      }
      var rc := NextChunk(id, nread);
      if rc < 0 {
        EndOrClose(last);
      }
    }

    /** The connection's own stream is the one that waits, and its generation is the connection's. */
    lemma OwnStream(id: nat)
      requires Running() && fileStream == Some(id) && id in streamReads
      ensures Waiting(id) && streams[id].reading && streams[id].generation == generation
    {
    }

    /** file_read_complete: the connection that waits for the read gets its response, or a status reply if
        the read failed, unless the send fails; then it goes on with the next request. */
    method FileReadComplete(id: nat, nread: int, last: bool)
      requires Valid() && id in fileReads && nread <= fileReads[id].want && nread <= |fileReads[id].file.data|
      modifies this, out, out.buffer
      ensures Valid() && id !in fileReads
      ensures old(state != Live || fileReads[id].generation != generation) ==> Untouched()
      ensures old(state) == Live && state == Live ==> log.input == old(log.input) && old(log.responses) <= log.responses
      ensures old(state == Live && fileReads[id].generation == generation) && old(out).lastSend == Accepted ==>
                var end := if state == Live then log else final.log;
                if nread >= 0 then
                  old(log.responses) + [app.build(old(fileReads[id].file), old(fileReads[id].file).data[..nread])] <= end.responses
                else
                  end.responses == old(log.responses) && end.tail == app.status(500) && (state != Live || closeWhenDrained)
      ensures state == Live && !asyncInflight && !closeWhenDrained ==> Starved(app, recv)
      ensures old(state) == Live && state != Live ==> EndedBy(old(out)) && old(out).wire == old(out).accepted
    {
      hide App.Ok, InOrder, SentBytes, HeapOk, MayEnd, Streaming, IsResponse, Over, Starved, NoReads, FilesOk, Parked;
      var ctx := fileReads[id];
      if !(state == Live && ctx.generation == generation) {
        DropFile(id);
        return;
      }
      var rc := Respond(id, nread);
      if rc < 0 {
        EndOrClose(last);
      }
    }

    /** The response to the read the connection was parked on, and the requests behind it. */
    method Respond(id: nat, nread: int) returns (rc: int)
      requires Running() && id in fileReads && fileReads[id].generation == generation
      requires nread <= fileReads[id].want && nread <= |fileReads[id].file.data|
      modifies this, out, out.buffer
      ensures Frame() && id !in fileReads && (rc == 0 || rc == -1)
      ensures rc == 0 ==> Running()
      ensures rc == -1 ==> Ended()
      ensures out.lastSend == Accepted && nread >= 0 ==>
                old(log.responses) + [app.build(old(fileReads[id].file), old(fileReads[id].file).data[..nread])] <= log.responses
      ensures out.lastSend == Accepted && nread < 0 ==>
                rc == -1 && log.responses == old(log.responses) && log.tail == app.status(500)
    {
      hide App.Ok, InOrder, SentBytes, HeapOk, MayEnd, Streaming, IsResponse, Over, Starved, NoReads, FilesOk, Parked;
      var ctx := fileReads[id];
      Unpark(id);
      readFailed := nread < 0;
      var closeIt := FileEmit(ctx.file, nread);
      if closeIt {
        return -1;
      }
      ghost var now := log.responses;
      rc := ProcessHttpBuffer();
      assert now <= log.responses;
    }

    method Unpark(id: nat)
      requires Running() && id in fileReads && fileReads[id].generation == generation
      modifies this`asyncInflight, this`fileReads
      ensures Handling(0) && log.rest == recv && id < nextRead && fileReads == old(fileReads) - {id}
      ensures Requested(app, log, old(fileReads[id].file)) && !Streamed(old(fileReads[id].file), aio)
      ensures old(fileReads[id].want == fileReads[id].file.size)
    {
      hide App.Ok, InOrder, SentBytes, HeapOk, MayEnd, Streaming;
      assert WaitingForFile(id);
      assert recv[0..] == recv;
      asyncInflight := false;
      fileReads := fileReads - {id};
    }

    method DropFile(id: nat)
      requires Valid() && id in fileReads && !(state == Live && fileReads[id].generation == generation)
      modifies this`fileReads
      ensures Valid() && id !in fileReads
    {
      hide App.Ok, InOrder, SentBytes, HeapOk, MayEnd, Streaming;
      fileReads := fileReads - {id};
      if state == Live {
        if other: nat :| old(Waiting(other)) {
          assert Waiting(other);
        } else if other: nat :| old(WaitingForFile(other)) {
          assert WaitingForFile(other);
        } else if old(Resting()) {
          assert Resting();
        } else {
          assert Ending();
        }
      }
    }

    // ----- What this says about the wire

    /** Between events the bytes handed to the output queue are the responses to the requests read, one
        per request and in the order in which the input has them, then what was sent after those. */
    lemma ResponsesInRequestOrder()
      requires Valid() && state == Live
      ensures out.wire + out.Pending() == Concat(log.responses) + log.tail
      ensures log.input == Concat(log.requests) + log.rest
      ensures |log.responses| <= |log.requests| <= |log.responses| + 1
      ensures forall i | 0 <= i < |log.responses| :: IsResponse(app, aio, AnswerTo(app, log, i), log.responses[i])
      ensures MayEnd(app, aio, log)
    {
      hide App.Ok, HeapOk, IsResponse, BeginsStatus, Begins, Cut, FilesOk, NoReads;
      InOrderBytes();
      if id: nat :| Waiting(id) {
        StreamCut(app, log, streams[id]);
      }
    }

    lemma InOrderBytes()
      requires Base()
      ensures out.wire + out.Pending() == Concat(log.responses) + log.tail
      ensures log.input == Concat(log.requests) + log.rest
    {
      hide App.Ok, HeapOk, IsResponse;
      CutIsInput(app, log.input, log.requests, log.rest);
    }

    /** A response that ends the connection is the last: no request is taken up after it, and the connection is
        closed, or will be as soon as what waits has been written. */
    lemma LastResponseCloses(i: nat)
      requires Valid() && state == Live && i < |log.responses|
      ensures i < |log.requests|
      ensures !KeepsAlive(AnswerTo(app, log, i)) ==>
                i == |log.requests| - 1 && closeWhenDrained && out.Backlog() && out.armed && !asyncInflight && fileStream == None
    {
      hide App.Ok, HeapOk, IsResponse, Cut, FilesOk, NoReads, MayEnd, Over;
      assert InOrder(app, aio, log);
      if id: nat :| Waiting(id) {
        assert Requested(app, log, streams[id].file);
      } else if id: nat :| WaitingForFile(id) {
        assert Requested(app, log, fileReads[id].file);
      }
    }

    /** A live stream is never stranded, and it has handed over exactly its header and the file up to
        its position. */
    lemma StreamIsDriven(id: nat)
      requires Valid() && state == Live && fileStream == Some(id)
      ensures id in streams && asyncInflight && !closeWhenDrained && aio && streams[id].file.size > 1048576
      ensures (id in streamReads && !out.Backlog()) || (id !in streamReads && out.Backlog() && out.armed)
      ensures streams[id].pos <= streams[id].file.size && streams[id].pos <= |streams[id].file.data|
      ensures out.accepted == Concat(log.responses) + (streams[id].file.header + streams[id].file.data[..streams[id].pos])
    {
      hide App.Ok, InOrder, FilesOk, NoReads, MayEnd;
      assert Waiting(id);
    }

    /** A connection that waits without a stream waits for one file read, which is in flight, asks for the
        whole of a file of at most one chunk, and is for its last request. */
    lemma FileIsAwaited() returns (id: nat)
      requires Valid() && state == Live && asyncInflight && fileStream == None
      ensures id in fileReads && fileReads[id].generation == generation && fileReads[id].want == fileReads[id].file.size <= 1048576
      ensures |log.requests| == |log.responses| + 1 && AnswerTo(app, log, |log.responses|) == Serve(fileReads[id].file)
      ensures forall other: nat :: other in fileReads && other != id ==> fileReads[other].generation < generation
      ensures out.accepted == Concat(log.responses) && !closeWhenDrained
    {
      hide App.Ok, InOrder, FilesOk, HeapOk, MayEnd, Over, Starved;
      id :| WaitingForFile(id);
      assert Concat(log.responses) + [] == Concat(log.responses);
    }

    /** A connection with no response under way and not about to close has no complete request waiting, and
        no more than the longest header of an incomplete one. */
    lemma NothingWaits()
      requires Valid() && state == Live && !asyncInflight && !closeWhenDrained
      ensures recv == [] || app.parse(recv) == Incomplete(true) || (app.parse(recv) == Incomplete(false) && |recv| <= 32768)
      ensures |log.requests| == |log.responses| && out.accepted == Concat(log.responses)
    {
      hide App.Ok, InOrder, FilesOk, HeapOk, MayEnd, Over, NoReads;
      assert Resting();
      assert Concat(log.responses) + [] == Concat(log.responses);
    }

    /** In every life, each stream context ever allocated is live or has been freed, never both; one that
        is live on a free slot has a read in flight, whose completion will free it. */
    lemma ContextsAccounted(id: nat)
      requires Valid()
      ensures id < nextId <==> (id in streams || id in freed)
      ensures !(id in streams && id in freed)
      ensures state == Free && id in streams ==> id in streamReads
    {
      hide App.Ok, InOrder, FilesOk, NoReads, MayEnd, Streaming, Parked;
      assert HeapOk(streams, streamReads, freed, nextId, fileStream);
    }
  }
}
