/** The frame handler of src/ws/ws_connection_handler.c with its fragment buffer. */
module FrameHandler {
  import opened Bits
  import opened Frames
  import opened Reassembly
  import Utf8

  class Reassembler {
    const env: Env
    var inFragmentedMessage: bool
    var fragmentOpcode: nat
    var fragmentBuffer: array?<Byte>
    var fragmentBufferSize: nat
    var fragmentTotalSize: nat
    var pongs: nat
    var events: seq<Event>

    /** While a message is open its size is within both the limit and the buffer, so neither the
        subtraction from the limit nor the copy can go wrong; otherwise there is no buffer. */
    ghost predicate Valid()
      reads this, fragmentBuffer
    {
      if inFragmentedMessage then
        && fragmentBuffer != null && fragmentBuffer.Length == fragmentBufferSize
        && fragmentTotalSize <= fragmentBufferSize && fragmentTotalSize <= env.max
        && (fragmentOpcode == TEXT || fragmentOpcode == BINARY)
      else
        fragmentBuffer == null && fragmentOpcode == 0 && fragmentBufferSize == 0 && fragmentTotalSize == 0
    }

    ghost function Pending(): Fragment
      requires Valid()
      reads this, fragmentBuffer
    {
      if inFragmentedMessage then Collecting(fragmentOpcode == TEXT, fragmentBuffer[..fragmentTotalSize]) else Idle
    }

    ghost function State(): Conn
      requires Valid()
      reads this, fragmentBuffer
    {
      Conn(Pending(), pongs, events)
    }

    constructor (env: Env)
      ensures Valid() && State() == INIT && this.env == env
    {
      this.env := env;
      inFragmentedMessage, fragmentOpcode, fragmentBuffer := false, 0, null;
      fragmentBufferSize, fragmentTotalSize, pongs, events := 0, 0, 0, [];
    }

    /** ws_fail_connection */
    method FailConnection(code: nat) returns (v: Verdict)
      requires Valid()
      modifies this`events
      ensures Valid() && (State(), v) == Refuse(old(State()), code)
    {
      events := events + [SendClose(code)];
      v := Closing;
    }

    /** cleanup_fragmentation_state */
    method CleanupFragmentation()
      modifies this`inFragmentedMessage, this`fragmentOpcode, this`fragmentBuffer,
               this`fragmentBufferSize, this`fragmentTotalSize
      ensures Valid() && State() == Conn(Idle, pongs, events)
    {
      fragmentBuffer := null;
      inFragmentedMessage, fragmentOpcode, fragmentBufferSize, fragmentTotalSize := false, 0, 0, 0;
    }

    /** process_fragmented_frame: the first or only frame of a message. */
    method StartFrame(f: Frame) returns (v: Verdict)
      requires Valid() && |f.payload| <= env.max && (f.opcode == TEXT || f.opcode == BINARY)
      modifies this
      ensures Valid() && (State(), v) == StartStep(old(State()), f)
      ensures fragmentBuffer != old(fragmentBuffer) ==> fresh(fragmentBuffer)
    {
      hide Utf8.WellFormed;
      if inFragmentedMessage {
        return Failed;
      }
      if !f.fin {
        inFragmentedMessage, fragmentOpcode, fragmentTotalSize := true, f.opcode, |f.payload|;
        var initialSize := if |f.payload| > 65536 then |f.payload| * 2 else 65536;
        var buffer := new Byte[initialSize];
        forall i | 0 <= i < |f.payload| {
          buffer[i] := f.payload[i];
        }
        fragmentBuffer, fragmentBufferSize := buffer, initialSize;
        assert fragmentBuffer[..fragmentTotalSize] == f.payload;
        return Going;
      }
      if f.opcode == TEXT {
        var ok := Utf8.Valid(f.payload);
        if !ok {
          v := FailConnection(1007);
          return;
        }
      }
      events := events + [Deliver(Message(f.opcode == TEXT, f.payload))];
      v := Going;
    }

    /** Makes room for n more bytes and copies them behind the fragments so far. */
    method AppendFragment(p: seq<Byte>)
      requires Valid() && inFragmentedMessage && fragmentTotalSize + |p| <= env.max
      modifies this`fragmentBuffer, this`fragmentBufferSize, this`fragmentTotalSize, fragmentBuffer
      ensures Valid() && inFragmentedMessage
      ensures fragmentBuffer[..fragmentTotalSize] == old(fragmentBuffer[..fragmentTotalSize]) + p
      ensures fragmentBuffer != old(fragmentBuffer) ==> fresh(fragmentBuffer)
    {
      var neededSize := fragmentTotalSize + |p|;
      if neededSize > fragmentBufferSize {
        var newSize := neededSize * 2;
        var newBuffer := new Byte[newSize];
        forall i | 0 <= i < fragmentTotalSize {
          newBuffer[i] := fragmentBuffer[i];
        }
        fragmentBuffer, fragmentBufferSize := newBuffer, newSize;
      }
      var at, buffer := fragmentTotalSize, fragmentBuffer;
      forall i | 0 <= i < |p| {
        buffer[at + i] := p[i];
      }
      fragmentTotalSize := fragmentTotalSize + |p|;
    }

    /** process_continuation_frame */
    method ContinueFrame(f: Frame) returns (v: Verdict)
      requires Valid() && |f.payload| <= env.max
      modifies this, fragmentBuffer
      ensures Valid() && (State(), v) == ContinueStep(old(State()), f, env.max)
      ensures fragmentBuffer != null && fragmentBuffer != old(fragmentBuffer) ==> fresh(fragmentBuffer)
    {
      hide Utf8.WellFormed;
      if !inFragmentedMessage {
        return Failed;
      }
      if |f.payload| > env.max - fragmentTotalSize {
        CleanupFragmentation();
        v := FailConnection(1009);
        return;
      }
      AppendFragment(f.payload);
      if f.fin {
        var message := fragmentBuffer[..fragmentTotalSize];
        if fragmentOpcode == TEXT {
          var ok := Utf8.Valid(message);
          if !ok {
            CleanupFragmentation();
            v := FailConnection(1007);
            return;
          }
        }
        events := events + [Deliver(Message(fragmentOpcode == TEXT, message))];
        CleanupFragmentation();
      }
      v := Going;
    }

    /** The close handshake. */
    method CloseFrame(p: seq<Byte>) returns (v: Verdict)
      requires Valid()
      modifies this`events
      ensures Valid() && (State(), v) == CloseStep(old(State()), p)
    {
      hide Utf8.WellFormed;
      if |p| == 1 {
        v := FailConnection(1002);
        return;
      }
      var closeCode := 1000;
      if |p| >= 2 {
        closeCode := p[0] as int * 256 + p[1];
        if !CloseCodeValid(closeCode) {
          v := FailConnection(1002);
          return;
        }
        if |p| > 2 {
          var ok := Utf8.Valid(p[2..]);
          if !ok {
            v := FailConnection(1007);
            return;
          }
        } else {
          Utf8.EmptyWellFormed();
          assert p[2..] == [];
        }
      }
      if |p| >= 2 {
        events := events + [SendClose(closeCode)];
      } else {
        events := events + [SendBareClose];
      }
      events := events + [OnClose(closeCode)];
      v := Closing;
    }

    /** process_websocket_frame */
    method ProcessFrame(f: Frame) returns (v: Verdict)
      requires Valid() && |f.payload| <= env.max
      modifies this, fragmentBuffer
      ensures Valid() && (State(), v) == Step(old(State()), f, env)
      ensures fragmentBuffer != null && fragmentBuffer != old(fragmentBuffer) ==> fresh(fragmentBuffer)
    {
      hide StartStep, ContinueStep, CloseStep, CloseCodeValid;
      if f.opcode >= 8 && (!f.fin || |f.payload| > 125) {
        v := FailConnection(1002);
        return;
      }
      match f.opcode
      case 1 =>
        v := StartFrame(f);
      case 2 =>
        v := StartFrame(f);
      case 9 =>
        var ok := env.pongOk(pongs);
        pongs := pongs + 1;
        if !ok {
          return Failed;
        }
        events := events + [SendPong(f.payload)];
        v := Going;
      case 10 =>
        events := events + [OnPong(f.payload)];
        v := Going;
      case 8 =>
        v := CloseFrame(f.payload);
      case 0 =>
        v := ContinueFrame(f);
      case _ =>
        v := Failed;
    }
  }
}
