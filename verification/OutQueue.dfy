/** The output queue of a connection, src/http/connection.c: bytes that the socket does not take at
    once wait in a buffer until it is writable again. */
module Output {
  import opened Bits
  import opened Seqs

  /** PORTICO_OUT_MAX */
  const OUT_MAX := 4 * 1024 * 1024

  /** What a write does: it takes some bytes, would block, or fails (0 is a failure too). */
  datatype Write = Took(n: nat) | WouldBlock | Broken

  /** How a send ends: all accepted, refused for lack of room, or the socket failed. */
  datatype Sent = Accepted | Overflow | Fatal

  lemma Regroup(a: seq<Byte>, b: seq<Byte>, n: nat)
    requires n <= |b|
    ensures a + b[..n] + b[n..] == a + b
  {
  }

  class OutQueue {
    var buffer: array<Byte>
    var used: nat
    var sent: nat
    /** EPOLLOUT is armed. */
    var armed: bool
    /** The bytes the socket has taken, how its last write went, and how many there were. */
    ghost var wire: seq<Byte>
    ghost var lastWrite: Write
    ghost var writes: nat
    /** The bytes handed over by callers, and how the last send ended. */
    ghost var accepted: seq<Byte>
    ghost var lastSend: Sent

    /** What was handed over is what was written and what waits, in order. */
    ghost predicate Fifo()
      reads this, buffer
    {
      && sent <= used <= buffer.Length <= OUT_MAX
      && (sent == used ==> used == 0)
      && wire + buffer[sent..used] == accepted
    }

    /** And whatever waits will be woken. */
    ghost predicate Valid()
      reads this, buffer
    {
      Fifo() && (Backlog() ==> armed)
    }

    predicate Backlog()
      reads this
    {
      used > sent
    }

    ghost function Pending(): seq<Byte>
      requires sent <= used <= buffer.Length
      reads this, buffer
    {
      buffer[sent..used]
    }

    constructor ()
      ensures Valid() && !Backlog() && !armed && wire == [] && accepted == [] && fresh(buffer)
      ensures lastSend == Accepted && lastWrite == WouldBlock
    {
      buffer := new Byte[0];
      used, sent, armed := 0, 0, false;
      wire, accepted, lastWrite := [], [], WouldBlock;
      writes, lastSend := 0, Accepted;
    }

    /** The socket write; what it takes is up to the kernel. */
    method WriteRaw(bytes: seq<Byte>) returns (w: Write)
      requires bytes != []
      modifies this`wire, this`lastWrite, this`writes
      ensures w == lastWrite && writes == old(writes) + 1
      ensures w.Took? ==> 0 < w.n <= |bytes| && wire == old(wire) + bytes[..w.n]
      ensures !w.Took? ==> wire == old(wire)
    {
      if * {
        w := WouldBlock;
      } else if * {
        w := Broken;
      } else {
        var n: nat :| 1 <= n <= |bytes|;
        wire := wire + bytes[..n];
        w := Took(n);
      }
      lastWrite := w;
      writes := writes + 1;
    }

    /** conn_out_drain: writes what the socket takes. */
    method Drain() returns (ok: bool)
      requires Valid()
      modifies this`used, this`sent, this`wire, this`lastWrite, this`writes
      ensures Valid()
      ensures writes > old(writes) <==> old(Backlog())
      ensures ok ==> !Backlog() || lastWrite == WouldBlock
      ensures !ok ==> Backlog() && lastWrite == Broken
      ensures old(wire) <= wire
    {
      while sent < used
        invariant sent <= used == old(used) <= buffer.Length
        invariant old(wire) <= wire && wire + buffer[sent..used] == accepted
        invariant writes >= old(writes) && (writes > old(writes) <==> sent > old(sent)) && sent >= old(sent)
        decreases used - sent
      {
        ghost var before, rest := wire, buffer[sent..used];
        var w := WriteRaw(buffer[sent..used]);
        match w
        case Took(n) =>
          Regroup(before, rest, n);
          assert buffer[sent + n..used] == rest[n..];
          sent := sent + n;
        case WouldBlock =>
          return true;
        case Broken =>
          return false;
      }
      assert buffer[sent..used] == [] && wire + [] == wire;
      used, sent := 0, 0;
      ok := true;
    }

    /** The sent prefix is given up. */
    method Compact()
      requires Fifo()
      modifies this`used, this`sent, buffer
      ensures Fifo() && sent == 0 && Pending() == old(Pending())
    {
      if sent > 0 {
        ghost var rest := buffer[sent..used];
        var rem := used - sent;
        var from := sent;
        forall i | 0 <= i < rem {
          buffer[i] := buffer[from + i];
        }
        assert buffer[..rem] == rest;
        used, sent := rem, 0;
      }
    }

    /** Room for `needed` bytes in all: the capacity doubles until it suffices, within the cap. */
    method Reserve(needed: nat)
      requires Fifo() && sent == 0 && used <= needed <= OUT_MAX
      modifies this`buffer
      ensures Fifo() && needed <= buffer.Length && Pending() == old(Pending())
      ensures buffer != old(buffer) ==> fresh(buffer)
    {
      if needed > buffer.Length {
        var capacity := if buffer.Length > 0 then buffer.Length else 8192;
        while capacity < needed
          invariant capacity > 0
          decreases needed - capacity
        {
          capacity := capacity * 2;
        }
        if capacity > OUT_MAX {
          capacity := OUT_MAX;
        }
        var grown := new Byte[capacity];
        forall i | 0 <= i < used {
          grown[i] := buffer[i];
        }
        buffer := grown;
      }
    }

    /** conn_out_append: refused exactly when the backlog would pass the cap. */
    method Append(bytes: seq<Byte>) returns (ok: bool)
      requires Fifo()
      modifies this`buffer, this`used, this`sent, this`accepted, buffer
      ensures Fifo()
      ensures ok <==> |old(Pending())| + |bytes| <= 4194304
      ensures ok ==> Pending() == old(Pending()) + bytes && accepted == old(accepted) + bytes
      ensures !ok ==> Pending() == old(Pending()) && accepted == old(accepted)
      ensures buffer != old(buffer) ==> fresh(buffer)
    {
      Compact();
      if used + |bytes| > OUT_MAX {
        return false;
      }
      Reserve(used + |bytes|);
      ghost var had := buffer[..used];
      var at, n := used, |bytes|;
      forall i | 0 <= i < n {
        buffer[at + i] := bytes[i];
      }
      used := used + n;
      accepted := accepted + bytes;
      assert buffer[..used] == had + bytes;
      assert wire + (had + bytes) == wire + had + bytes;
      ok := true;
    }

    /** portico_conn_send: everything queues behind a backlog; otherwise what the socket takes goes out
        at once and the rest waits. On success all bytes are accepted. On failure a prefix may be: k
        bytes of it. */
    method Send(bytes: seq<Byte>) returns (r: Sent, ghost k: nat)
      requires Valid()
      modifies this, buffer
      ensures Valid() && k <= |bytes| && accepted == old(accepted) + bytes[..k] && r == lastSend
      ensures r == Accepted ==> k == |bytes|
      ensures old(Backlog() ==> lastWrite == WouldBlock) ==> (Backlog() ==> lastWrite == WouldBlock)
      ensures r == Fatal ==> lastWrite == Broken
      ensures old(armed ==> Backlog()) ==> (armed ==> Backlog())
      ensures !old(Backlog()) && r == Accepted && Backlog() ==> lastWrite == WouldBlock
      ensures old(Backlog()) ==> r != Fatal && (r == Accepted <==> |old(Pending())| + |bytes| <= 4194304)
      ensures r == Overflow ==> |old(Pending())| + |bytes| - k > OUT_MAX
      ensures old(wire) <= wire && old(writes) <= writes && (old(Backlog()) ==> wire == old(wire))
      ensures buffer != old(buffer) ==> fresh(buffer)
    {
      if Backlog() {
        var ok := Append(bytes);
        assert bytes[..|bytes|] == bytes && bytes[..0] == [];
        r := if ok then Accepted else Overflow;
        k := if ok then |bytes| else 0;
      } else {
        r, k := SendNow(bytes);
      }
      lastSend := r;
    }

    /** With no backlog: as much as the socket takes, and the rest into the queue. */
    method SendNow(bytes: seq<Byte>) returns (r: Sent, ghost k: nat)
      requires Valid() && !Backlog()
      modifies this`buffer, this`used, this`sent, this`armed, this`wire, this`lastWrite, this`writes, this`accepted, buffer
      ensures Valid() && k <= |bytes| && accepted == old(accepted) + bytes[..k]
      ensures r == Accepted ==> k == |bytes|
      ensures r == Fatal ==> lastWrite == Broken
      ensures Backlog() ==> r == Accepted && lastWrite == WouldBlock
      ensures !old(armed) ==> (armed ==> Backlog())
      ensures r == Overflow ==> |bytes| - k > OUT_MAX
      ensures old(wire) <= wire && old(writes) <= writes
      ensures buffer != old(buffer) ==> fresh(buffer)
    {
      var off := 0;
      while off < |bytes|
        invariant off <= |bytes| && Valid() && !Backlog() && buffer == old(buffer) && armed == old(armed)
        invariant wire == old(wire) + bytes[..off] && accepted == old(accepted) + bytes[..off]
        invariant old(writes) <= writes
      {
        var rest := bytes[off..];
        var w := WriteRaw(rest);
        match w
        case Took(n) =>
          accepted := accepted + rest[..n];
          assert bytes[..off] + rest[..n] == bytes[..off + n];
          assert wire + [] == wire;
          off := off + n;
        case WouldBlock =>
          var ok := Append(rest);
          if !ok {
            return Overflow, off;
          }
          armed := true;
          assert bytes[..off] + rest == bytes == bytes[..|bytes|];
          return Accepted, |bytes|;
        case Broken =>
          return Fatal, off;
      }
      return Accepted, |bytes|;
    }

    /** Disarm EPOLLOUT. */
    method Disarm()
      requires Valid() && !Backlog()
      modifies this`armed
      ensures Valid() && !armed
    {
      armed := false;
    }
  }
}
