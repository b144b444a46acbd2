/** The receive loop handle_websocket_frames of src/ws/ws_connection_handler.c on its buffer. */
module ReceiveLoop {
  import opened Bits
  import opened Frames
  import opened FrameHandler
  import opened Masking
  import opened Reassembly
  import opened Seqs
  import opened Stream

  /** What a socket read returns: some bytes, nothing for now, or the end of the connection. */
  datatype Read = Data(bytes: seq<Byte>) | WouldBlock | Gone

  /** The peer's bytes that the kernel still holds. How many of them a read gets, and whether the
      peer is gone once there are none, is up to the kernel. */
  class Socket {
    var incoming: seq<Byte>
    /** What the last read returned, and how many reads there were. */
    ghost var last: Read
    ghost var asked: nat

    constructor (incoming: seq<Byte>)
      ensures this.incoming == incoming
    {
      this.incoming := incoming;
      last, asked := WouldBlock, 0;
    }

    method Receive(space: nat) returns (r: Read)
      requires space > 0
      modifies this
      ensures r == last && asked == old(asked) + 1
      ensures r.Data? ==> 0 < |r.bytes| <= space && old(incoming) == r.bytes + incoming
      ensures !r.Data? ==> incoming == old(incoming)
      ensures r.WouldBlock? ==> incoming == []
    {
      if * {
        r := Gone;
      } else if incoming == [] {
        r := WouldBlock;
      } else {
        var n: nat :| 1 <= n <= space && n <= |incoming|;
        r := Data(incoming[..n]);
        incoming := incoming[n..];
      }
      last, asked := r, asked + 1;
    }
  }

  /** Why the loop ended. */
  datatype Cause = Drained | Lost | Full | Protocol | More

  /** The frame at the front of buffer[offset..used], with its payload as it now lies in the buffer. */
  method ParseAt(buffer: array<Byte>, offset: nat, used: nat, max: nat, cpu: Cpu) returns (result: int, f: Frame)
    requires offset < used <= buffer.Length && max + 14 < 0x8000_0000
    modifies buffer
    ensures result == match Parse(old(buffer[offset..used]), max)
                      case NeedMore => 0
                      case Bad => -1
                      case Complete(_, total) => total
    ensures result > 0 ==> f == Parse(old(buffer[offset..used]), max).frame
    ensures result > 0 ==> buffer[offset + result..used] == old(buffer[offset + result..used])
    ensures result <= 0 ==> buffer[..] == old(buffer[..])
  {
    hide Parse, MaskedRange;
    ghost var whole := buffer[..];
    var raw;
    result, raw := ParseFrame(buffer, offset, used - offset, max, cpu);
    f := Frame(false, 0, ZERO_KEY, []);
    if result > 0 {
      f := Frame(raw.fin, raw.opcode, raw.key, buffer[offset + raw.headerLen..offset + result]);
      MaskedThere(whole, offset + raw.headerLen, raw.payloadLen, raw.key);
      assert forall k | offset + result <= k < used :: buffer[..][k] == whole[k];
    }
  }

  lemma FrameLength(b: seq<Byte>, max: nat)
    requires Parse(b, max).Complete?
    ensures |Parse(b, max).frame.payload| <= max && Parse(b, max).total <= |b|
  {
  }

  lemma NothingWaits(max: nat)
    ensures Parse([], max).NeedMore?
  {
  }

  class Receiver {
    const handler: Reassembler
    const cpu: Cpu
    var buffer: array<Byte>
    var used: nat
    ghost var consumed: seq<Byte>
    ghost var handed: seq<Frame>

    function Max(): nat {
      handler.env.max
    }

    ghost predicate Owned()
      reads this, handler
    {
      used <= buffer.Length && buffer.Length > 0 && handler.fragmentBuffer != buffer && Max() + 14 < 0x8000_0000
    }

    /** The bytes taken out of the buffer so far are complete frames, all of them handled. */
    ghost predicate Valid()
      reads this, buffer, handler, handler.fragmentBuffer
    {
      Owned() && handler.Valid() && Upto(consumed, handed, handler.State(), handler.env)
    }

    /** All bytes received, parsed or not. */
    ghost function Input(): seq<Byte>
      requires used <= buffer.Length
      reads this, buffer
    {
      consumed + buffer[..used]
    }

    constructor (capacity: nat, env: Env, cpu: Cpu)
      requires capacity > 0 && env.max + 14 < 0x8000_0000
      ensures Settled() && Input() == [] && buffer.Length == capacity && handler.env == env
      ensures fresh(buffer) && fresh(handler)
    {
      handler := new Reassembler(env);
      buffer := new Byte[capacity];
      used := 0;
      this.cpu := cpu;
      consumed, handed := [], [];
      new;
      UptoNothing(env);
      ReceivedNothing(env);
      assert Input() == [];
    }

    /** One frame off the buffer at `offset`: parsed, unmasked in place and handled. */
    method TakeFrame(offset: nat) returns (result: int, v: Verdict)
      requires Valid() && offset < used
      modifies this`consumed, this`handed, buffer, handler, handler.fragmentBuffer
      ensures Owned() && handler.Valid()
      ensures handler.fragmentBuffer != null && handler.fragmentBuffer != old(handler.fragmentBuffer) ==> fresh(handler.fragmentBuffer)
      ensures result <= 0 ==> buffer[..] == old(buffer[..]) && handler.State() == old(handler.State())
      ensures result < 0 ==> Parse(old(buffer[offset..used]), Max()).Bad?
      ensures result == 0 ==> Parse(old(buffer[offset..used]), Max()).NeedMore? && Valid()
      ensures result > 0 ==>
                var p := Parse(old(buffer[offset..used]), Max());
                && p.Complete? && result == p.total
                && (handler.State(), v) == Step(old(handler.State()), p.frame, handler.env)
                && buffer[offset + result..used] == old(buffer[offset + result..used])
                && (v == Going ==> Valid() && consumed == old(consumed) + old(buffer[offset..offset + result]))
      ensures result <= 0 || v != Going ==> consumed == old(consumed) && handed == old(handed)
    {
      hide Parse, Step, Upto;
      v := Going;
      ghost var c := handler.State();
      ghost var rest := buffer[offset..used];
      var f;
      result, f := ParseAt(buffer, offset, used, Max(), cpu);
      if result > 0 {
        FrameLength(rest, Max());
        v := handler.ProcessFrame(f);
        if v == Going {
          AtFrame(consumed, handed, c, rest, handler.env);
          consumed := consumed + rest[..result];
          handed := handed + [f];
        }
      }
    }

    /** memmove of the unparsed bytes to the front. */
    method MoveToFront(offset: nat)
      requires offset <= used <= buffer.Length
      modifies this`used, buffer
      ensures used == old(used) - offset && buffer[..used] == old(buffer[offset..used])
    {
      var n := used - offset;
      forall i | 0 <= i < n {
        buffer[i] := buffer[offset + i];
      }
      used := n;
    }

    /** The same, said of all input so far: either the pass goes on behind the frame, or the outcome of the
        whole input is known. */
    method TakeNext(offset: nat, ghost input: seq<Byte>) returns (result: int, v: Verdict)
      requires Valid() && offset < used && consumed + buffer[offset..used] == input
      modifies this`consumed, this`handed, buffer, handler, handler.fragmentBuffer
      ensures Owned() && handler.Valid()
      ensures handler.fragmentBuffer != null && handler.fragmentBuffer != old(handler.fragmentBuffer) ==> fresh(handler.fragmentBuffer)
      ensures result < 0 ==> Received(input, handler.env) == Outcome(handler.State(), Failed, [])
      ensures result == 0 ==> Valid() && Received(input, handler.env) == Outcome(handler.State(), Going, buffer[offset..used])
      ensures result == 0 ==> consumed + buffer[offset..used] == input
      ensures result > 0 && v != Going ==> Received(input, handler.env) == Outcome(handler.State(), v, [])
      ensures result > 0 && v == Going ==> Valid() && offset + result <= used && consumed + buffer[offset + result..used] == input
    {
      hide Parse, Step, Upto, Received;
      ghost var c, before, frames, rest := handler.State(), consumed, handed, buffer[offset..used];
      ghost var whole := buffer[..];
      assert rest == whole[offset..used];
      result, v := TakeFrame(offset);
      if result < 0 {
        AtBad(before, frames, c, rest, handler.env);
      } else if result == 0 {
        assert buffer[offset..used] == whole[offset..used];
        AtWait(before, frames, c, rest, handler.env);
      } else if v != Going {
        AtStop(before, frames, c, rest, handler.env);
      } else {
        FrameLength(rest, Max());
        SubSlice(whole, offset, used, 0, result);
        SubSlice(whole, offset, used, result, used - offset);
        assert rest == rest[..result] + rest[result..];
        assert before + rest[..result] + rest[result..] == before + rest;
      }
    }

    /** The pass over the complete frames in the buffer. It leaves what the whole input so far leaves:
        the same connection state and verdict, and the same unfinished frame, not yet unmasked. */
    method ParseBuffered() returns (v: Verdict)
      requires Valid() && used > 0
      modifies this`consumed, this`handed, this`used, buffer, handler, handler.fragmentBuffer
      ensures Owned() && handler.Valid()
      ensures handler.fragmentBuffer != null && handler.fragmentBuffer != old(handler.fragmentBuffer) ==> fresh(handler.fragmentBuffer)
      ensures v == Going ==> Valid() && Input() == old(Input())
      ensures Received(old(Input()), handler.env)
           == Outcome(handler.State(), v, if v == Going then buffer[..used] else [])
    {
      hide Parse, Step, Upto, Received;
      ghost var input := Input();
      var offset := 0;
      while offset < used
        invariant Valid() && offset <= used == old(used)
        invariant consumed + buffer[offset..used] == input
        invariant handler.fragmentBuffer != null && handler.fragmentBuffer != old(handler.fragmentBuffer) ==> fresh(handler.fragmentBuffer)
      {
        var result;
        result, v := TakeNext(offset, input);
        if result < 0 {
          used := 0;
          return Failed;
        }
        if result == 0 {
          if offset > 0 {
            MoveToFront(offset);
          }
          return Going;
        }
        if v == Closing {
          return Closing;
        }
        if v == Failed {
          used := 0;
          return Failed;
        }
        offset := offset + result;
      }
      NothingWaits(Max());
      AtWait(consumed, handed, handler.State(), [], handler.env);
      used := 0;
      v := Going;
    }

    /** A larger buffer with the same bytes. */
    method Grow(capacity: nat)
      requires used <= buffer.Length <= capacity
      modifies this`buffer
      ensures fresh(buffer) && buffer.Length == capacity && buffer[..used] == old(buffer[..used])
    {
      var grown := new Byte[capacity];
      forall i | 0 <= i < used {
        grown[i] := buffer[i];
      }
      buffer := grown;
    }

    /** Room for a read: a full buffer is doubled, up to hardMax, or given up. */
    method MakeRoom(hardMax: nat) returns (ok: bool)
      requires Valid() && buffer.Length <= hardMax
      modifies this`buffer, this`used
      ensures Owned() && handler.Valid()
      ensures !ok <==> old(used == buffer.Length >= hardMax)
      ensures ok ==> Valid() && used < buffer.Length <= hardMax
      ensures ok ==> used == old(used) && buffer[..used] == old(buffer[..used]) && Input() == old(Input())
      ensures buffer != old(buffer) ==> fresh(buffer)
    {
      hide Upto;
      if used == buffer.Length {
        if buffer.Length >= hardMax {
          used := 0;
          return false;
        }
        var capacity := buffer.Length * 2;
        if capacity > hardMax {
          capacity := hardMax;
        }
        Grow(capacity);
      }
      ok := true;
    }

    /** The read system call has put bytes behind the ones in the buffer. */
    method Store(bytes: seq<Byte>)
      requires Valid() && used + |bytes| <= buffer.Length
      modifies this`used, buffer
      ensures Valid() && used == old(used) + |bytes| && Input() == old(Input()) + bytes
    {
      hide Upto;
      ghost var have := buffer[..used];
      var at, n := used, |bytes|;
      forall i | 0 <= i < n {
        buffer[at + i] := bytes[i];
      }
      used := used + |bytes|;
      assert buffer[..used] == have + bytes;
      assert consumed + (have + bytes) == (consumed + have) + bytes;
    }

    /** The unparsed bytes are what the input so far leaves over. */
    ghost predicate Settled()
      reads this, buffer, handler, handler.fragmentBuffer
    {
      Valid() && Received(Input(), handler.env) == Outcome(handler.State(), Going, buffer[..used])
    }

    /** One read and the pass over what it brought. */
    method ReadAndParse(socket: Socket) returns (v: Verdict, cause: Cause, ghost got: seq<Byte>)
      requires Valid() && used < buffer.Length
      modifies this`consumed, this`handed, this`used, buffer, handler, handler.fragmentBuffer, socket
      ensures Owned() && handler.Valid()
      ensures handler.fragmentBuffer != null && handler.fragmentBuffer != old(handler.fragmentBuffer) ==> fresh(handler.fragmentBuffer)
      ensures old(socket.incoming) == got + socket.incoming
      ensures cause == Lost || cause == Drained ==> got == [] && Valid()
      ensures cause == Lost || cause == Drained ==> Input() == old(Input())
      ensures cause == Lost || cause == Drained ==> handler.State() == old(handler.State())
      ensures cause == Lost || cause == Drained ==> buffer[..used] == old(buffer[..used]) && used == old(used)
      ensures cause == Lost ==> v == Failed && socket.last == Gone
      ensures cause == Drained ==> v == Going && socket.incoming == [] && socket.last == WouldBlock
      ensures cause != Full ==> socket.asked > old(socket.asked)
      ensures cause == Protocol ==> v != Going && got != []
      ensures cause == Protocol ==> Received(old(Input()) + got, handler.env) == Outcome(handler.State(), v, [])
      ensures cause == More ==> got != [] && Settled() && Input() == old(Input()) + got
      ensures cause != Full
    {
      hide Upto, Received;
      got := [];
      var r := socket.Receive(buffer.Length - used);
      if r.Gone? {
        return Failed, Lost, [];
      }
      if r.WouldBlock? {
        return Going, Drained, [];
      }
      got := r.bytes;
      Store(r.bytes);
      v := ParseBuffered();
      cause := if v != Going then Protocol else More;
    }

    /** One turn of the loop. */
    method Turn(hardMax: nat, socket: Socket) returns (v: Verdict, cause: Cause, ghost got: seq<Byte>)
      requires Valid() && buffer.Length <= hardMax
      modifies this`consumed, this`handed, this`used, this`buffer, buffer, handler, handler.fragmentBuffer, socket
      ensures Owned() && handler.Valid()
      ensures buffer != old(buffer) ==> fresh(buffer)
      ensures handler.fragmentBuffer != null && handler.fragmentBuffer != old(handler.fragmentBuffer) ==> fresh(handler.fragmentBuffer)
      ensures old(socket.incoming) == got + socket.incoming
      ensures cause == Full <==> old(used == buffer.Length >= hardMax)
      ensures cause == Full ==> v == Failed && got == []
      ensures cause == Lost || cause == Drained ==> got == [] && Valid() && Input() == old(Input())
      ensures cause == Lost || cause == Drained ==> (old(Settled()) ==> Settled())
      ensures cause == Lost ==> v == Failed && socket.last == Gone
      ensures cause == Drained ==> v == Going && socket.incoming == [] && socket.last == WouldBlock
      ensures cause != Full ==> socket.asked > old(socket.asked)
      ensures cause == Protocol ==> v != Going && got != []
      ensures cause == Protocol ==> Received(old(Input()) + got, handler.env) == Outcome(handler.State(), v, [])
      ensures cause == More ==> got != [] && Settled() && Input() == old(Input()) + got && buffer.Length <= hardMax
    {
      hide Upto, Received;
      var ok := MakeRoom(hardMax);
      if !ok {
        return Failed, Full, [];
      }
      v, cause, got := ReadAndParse(socket);
    }

    /** handle_websocket_frames. However the kernel cuts the input into reads, the connection ends up
        where parsing the whole input at once leaves it. The buffer is found full only when it was
        full, and as large as it may get, before the first read. */
    method HandleFrames(socket: Socket) returns (v: Verdict, ghost cause: Cause, ghost read: seq<Byte>)
      requires Valid()
      modifies this, buffer, handler, handler.fragmentBuffer, socket
      ensures Owned() && handler.Valid()
      ensures old(socket.incoming) == read + socket.incoming
      ensures cause == Full <==> old(used == buffer.Length >= Max() + 64)
      ensures cause == Full ==> v == Failed && read == []
      ensures cause == Protocol ==> v != Going && read != []
      ensures cause == Protocol ==> Received(old(Input()) + read, handler.env) == Outcome(handler.State(), v, [])
      ensures cause == Lost || cause == Drained ==> Valid() && Input() == old(Input()) + read
      ensures cause != Full ==> socket.asked > old(socket.asked)
      ensures old(Settled()) ==> cause != Full
      ensures cause == Lost ==> socket.last == Gone
      ensures cause == Drained ==> socket.last == WouldBlock
      ensures cause == Lost ==> v == Failed && (read != [] || old(Settled()) ==> Settled())
      ensures cause == Drained ==> v == Going && socket.incoming == [] && (read != [] || old(Settled()) ==> Settled())
      ensures cause != More
    {
      hide Upto, Received;
      if Settled() {
        SettledIsShort();
      }
      ghost var input := Input();
      read := [];
      var hardMax := Max() + 64;
      if hardMax < buffer.Length {
        hardMax := buffer.Length;
      }
      while true
        invariant Valid() && Input() == input + read && old(socket.incoming) == read + socket.incoming
        invariant Max() + 64 <= hardMax && buffer.Length <= hardMax
        invariant read != [] || old(Settled()) ==> Settled()
        invariant read != [] ==> old(!(used == buffer.Length >= Max() + 64))
        invariant read == [] ==> buffer == old(buffer) && used == old(used)
        invariant read == [] ==> hardMax == (if Max() + 64 < buffer.Length then buffer.Length else Max() + 64)
        invariant buffer != old(buffer) ==> fresh(buffer)
        invariant handler.fragmentBuffer != null && handler.fragmentBuffer != old(handler.fragmentBuffer) ==> fresh(handler.fragmentBuffer)
        invariant socket.asked >= old(socket.asked)
        decreases |socket.incoming|
      {
        if read != [] {
          SettledIsShort();
        }
        var c;
        ghost var got;
        v, c, got := Turn(hardMax, socket);
        assert input + read + got == input + (read + got);
        read := read + got;
        if c != More {
          return v, c, read;
        }
      }
    }

    lemma SettledIsShort()
      requires Settled()
      ensures used < Max() + 14
    {
      RestIsShort(Input(), Max());
    }
  }
}
