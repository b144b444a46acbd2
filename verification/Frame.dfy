/** WebSocket frames: the parser and the encoder of src/ws/ws_frame.c (section 5.2 of RFC 6455). */
module Frames {
  import opened Bits
  import opened Masking
  import opened Seqs

  // ----- Big-endian lengths

  function Pow256(k: nat): (r: nat)
    ensures r > 0
  {
    if k == 0 then 1 else 256 * Pow256(k - 1)
  }

  /** The k lowest bytes of n, highest first. */
  function BigEndian(n: nat, k: nat): (r: seq<Byte>)
    ensures |r| == k
  {
    if k == 0 then [] else BigEndian(n / 256, k - 1) + [n % 256]
  }

  function Value(b: seq<Byte>): nat {
    if b == [] then 0 else Value(b[..|b| - 1]) * 256 + b[|b| - 1]
  }

  lemma {:induction false} ValueOfBigEndian(n: nat, k: nat)
    requires n < Pow256(k)
    ensures Value(BigEndian(n, k)) == n
  {
    if k > 0 {
      ValueOfBigEndian(n / 256, k - 1);
      assert BigEndian(n, k)[..k - 1] == BigEndian(n / 256, k - 1);
    }
  }

  lemma {:induction false} BigEndianOfValue(b: seq<Byte>)
    ensures Value(b) < Pow256(|b|) && BigEndian(Value(b), |b|) == b
  {
    if b != [] {
      var v, last := Value(b[..|b| - 1]), b[|b| - 1];
      BigEndianOfValue(b[..|b| - 1]);
      ModUnique(256 * v + last, 256, v, last);
      assert Value(b) == 256 * v + last;
      assert BigEndian(Value(b), |b|) == BigEndian(v, |b| - 1) + [last];
      assert b == b[..|b| - 1] + [last];
    }
  }

  // ----- The wire format

  datatype Frame = Frame(fin: bool, opcode: nat, key: Key, payload: seq<Byte>)

  /** How a length is written: in 7 bits, in 16 or in 64. */
  datatype Form = Short | Medium | Long

  predicate Fits(n: nat, form: Form) {
    match form
    case Short => n < 126
    case Medium => n < 65536
    case Long => n < 0x1_0000_0000_0000_0000
  }

  function LengthCode(n: nat, form: Form): nat {
    match form
    case Short => n
    case Medium => 126
    case Long => 127
  }

  function Extension(n: nat, form: Form): seq<Byte> {
    match form
    case Short => []
    case Medium => BigEndian(n, 2)
    case Long => BigEndian(n, 8)
  }

  function FirstByte(fin: bool, opcode: nat): Byte
    requires opcode < 16
  {
    (if fin then 128 else 0) + opcode
  }

  predicate Sendable(f: Frame, form: Form) {
    f.opcode < 16 && Fits(|f.payload|, form)
  }

  /** A client frame on the wire: header, key, masked payload. */
  function Serialize(f: Frame, form: Form): (r: seq<Byte>)
    requires Sendable(f, form)
    ensures |r| == 6 + |Extension(|f.payload|, form)| + |f.payload|
  {
    var n := |f.payload|;
    [FirstByte(f.fin, f.opcode), 128 + LengthCode(n, form)] + Extension(n, form) + f.key + Masked(f.payload, f.key)
  }

  // ----- What the parser computes

  datatype Head = NeedHead | BadHead | Head(fin: bool, opcode: nat, length: nat, key: Key, size: nat)

  datatype Parsed = NeedMore | Bad | Complete(frame: Frame, total: nat)

  function FormOf(code: nat): Form {
    if code < 126 then Short else if code == 126 then Medium else Long
  }

  /** Bytes of header before the key. */
  function KeyAt(form: Form): nat {
    match form
    case Short => 2
    case Medium => 4
    case Long => 10
  }

  function DeclaredLength(b: seq<Byte>): nat
    requires |b| >= 2 && |b| >= KeyAt(FormOf(b[1] % 128))
  {
    match FormOf(b[1] % 128)
    case Short => b[1] % 128
    case Medium => Value(b[2..4])
    case Long => Value(b[2..10])
  }

  /** The header at the front of b. Reserved bits, a missing mask and a length over the limit are
      errors; the length is judged before the key has arrived. */
  function ParseHead(b: seq<Byte>, max: nat): (h: Head)
    ensures h.Head? ==> h.opcode < 16 && h.length <= max && 6 <= h.size <= 14 && h.size <= |b|
  {
    if |b| < 2 then NeedHead
    else if b[0] / 16 % 8 != 0 || b[1] < 128 then BadHead
    else
      var keyAt := KeyAt(FormOf(b[1] % 128));
      if |b| < keyAt then NeedHead
      else if DeclaredLength(b) > max then BadHead
      else if |b| < keyAt + 4 then NeedHead
      else Head(b[0] >= 128, b[0] % 16, DeclaredLength(b), b[keyAt..keyAt + 4], keyAt + 4)
  }

  /** The frame at the front of b. */
  function Parse(b: seq<Byte>, max: nat): (p: Parsed)
    ensures p.Complete? ==> 6 <= p.total <= |b| && |p.frame.payload| <= max && p.frame.opcode < 16
  {
    match ParseHead(b, max)
    case NeedHead => NeedMore
    case BadHead => Bad
    case Head(fin, opcode, length, key, size) =>
      if |b| < size + length then NeedMore
      else Complete(Frame(fin, opcode, key, Masked(b[size..size + length], key)), size + length)
  }

  // ----- The parser accepts exactly the wire format

  /** Where the parts of a frame lie. */
  lemma Layout(f: Frame, form: Form, rest: seq<Byte>)
    requires Sendable(f, form)
    ensures var n, b := |f.payload|, Serialize(f, form) + rest;
            var ext := Extension(n, form);
            && |ext| + 2 == KeyAt(form)
            && b[0] == FirstByte(f.fin, f.opcode) && b[1] == 128 + LengthCode(n, form)
            && b[2..KeyAt(form)] == ext && b[KeyAt(form)..KeyAt(form) + 4] == f.key
            && b[KeyAt(form) + 4..KeyAt(form) + 4 + n] == Masked(f.payload, f.key)
  {
    hide Masked, BigEndian, FirstByte;
    var n := |f.payload|;
    var b := Serialize(f, form) + rest;
    var front := [FirstByte(f.fin, f.opcode), 128 + LengthCode(n, form)];
    Parts(front, Extension(n, form), f.key, Masked(f.payload, f.key), rest);
    assert b[..2] == front;
  }

  lemma HeadOfSerialized(f: Frame, form: Form, rest: seq<Byte>, max: nat)
    requires Sendable(f, form) && |f.payload| <= max
    ensures ParseHead(Serialize(f, form) + rest, max)
         == Head(f.fin, f.opcode, |f.payload|, f.key, KeyAt(form) + 4)
  {
    hide Masked, BigEndian, Serialize;
    var n := |f.payload|;
    Layout(f, form, rest);
    if form == Medium {
      assert Pow256(2) == 65536;
      ValueOfBigEndian(n, 2);
    } else if form == Long {
      Pow256Of8();
      ValueOfBigEndian(n, 8);
    }
  }

  lemma Pow256Of8()
    ensures Pow256(8) == 0x1_0000_0000_0000_0000
  {
    assert Pow256(4) == 0x1_0000_0000;
  }

  /** Whatever length form was chosen and whatever follows, a frame that keeps to the limit is
      read back, and exactly its bytes are consumed. */
  lemma ParsesSerialized(f: Frame, form: Form, rest: seq<Byte>, max: nat)
    requires Sendable(f, form) && |f.payload| <= max
    ensures Parse(Serialize(f, form) + rest, max) == Complete(f, |Serialize(f, form)|)
  {
    hide ParseHead, Extension, Masked, Serialize;
    Layout(f, form, rest);
    HeadOfSerialized(f, form, rest, max);
    MaskedTwice(f.payload, f.key);
  }

  /** Every frame the parser reports is on the wire in one of the three forms. */
  lemma ParsedIsSerialized(b: seq<Byte>, max: nat)
    requires Parse(b, max).Complete? && max < 0x1_0000_0000_0000_0000
    ensures var p, form := Parse(b, max), FormOf(b[1] % 128);
            Sendable(p.frame, form) && b[..p.total] == Serialize(p.frame, form)
  {
    hide Masked, BigEndian, Value, ParseHead;
    var p, form := Parse(b, max), FormOf(b[1] % 128);
    var h := ParseHead(b, max);
    HeadBytes(b, max);
    var masked := b[h.size..p.total];
    MaskedTwice(masked, h.key);
    assert b[..p.total] == b[..h.size] + masked;
  }

  lemma HeadBytes(b: seq<Byte>, max: nat)
    requires ParseHead(b, max).Head? && max < 0x1_0000_0000_0000_0000
    ensures var h, form := ParseHead(b, max), FormOf(b[1] % 128);
            && Fits(h.length, form)
            && b[..h.size] == [FirstByte(h.fin, h.opcode), 128 + LengthCode(h.length, form)] + Extension(h.length, form) + h.key
  {
    hide BigEndian, Value;
    var h, form := ParseHead(b, max), FormOf(b[1] % 128);
    var keyAt := KeyAt(form);
    assert b[0] == FirstByte(h.fin, h.opcode);
    if form == Medium {
      BigEndianOfValue(b[2..4]);
      assert Pow256(2) == 65536;
    } else if form == Long {
      BigEndianOfValue(b[2..10]);
    }
    assert b[2..keyAt] == Extension(h.length, form);
    assert b[..h.size] == [b[0], b[1]] + b[2..keyAt] + b[keyAt..h.size];
  }

  // ----- Incremental parsing

  /** A verdict does not change when more bytes arrive. */
  lemma VerdictIsStable(b: seq<Byte>, rest: seq<Byte>, max: nat)
    requires !Parse(b, max).NeedMore?
    ensures Parse(b + rest, max) == Parse(b, max)
  {
    hide Masked;
    var c := b + rest;
    HeadIsStable(b, rest, max);
    match ParseHead(b, max)
    case Head(_, _, length, _, size) =>
      assert c[size..size + length] == b[size..size + length];
    case _ =>
  }

  lemma HeadIsStable(b: seq<Byte>, rest: seq<Byte>, max: nat)
    requires !ParseHead(b, max).NeedHead?
    ensures ParseHead(b + rest, max) == ParseHead(b, max)
  {
    hide Value;
    var c := b + rest;
    assert c[0] == b[0] && c[1] == b[1];
    if |b| >= 4 { assert c[2..4] == b[2..4]; }
    if |b| >= 10 { assert c[2..10] == b[2..10]; }
    var keyAt := KeyAt(FormOf(b[1] % 128));
    if |b| >= keyAt + 4 { assert c[keyAt..keyAt + 4] == b[keyAt..keyAt + 4]; }
  }

  /** What waits for more bytes is always shorter than the limit plus the longest header. */
  lemma WaitingIsShort(b: seq<Byte>, max: nat)
    requires Parse(b, max).NeedMore?
    ensures |b| < max + 14
  {
  }

  // ----- The format, byte by byte

  /** What is an error, from the bytes themselves: a reserved bit, no mask bit, or a length over the limit as
      soon as it has arrived. */
  lemma BadExactly(b: seq<Byte>, max: nat)
    ensures Parse(b, max).Bad? <==>
              && |b| >= 2
              && (|| b[0] / 16 % 8 != 0 || b[1] < 128
                  || (b[1] < 254 && b[1] - 128 > max)
                  || (b[1] == 254 && |b| >= 4 && 256 * b[2] as int + b[3] > max)
                  || (b[1] == 255 && |b| >= 10 && Value(b[2..10]) > max))
  {
    hide Value, Masked;
    if |b| >= 4 {
      Value2(b[2..4]);
    }
  }

  /** A frame of n bytes with its key at h, read off its bytes. */
  lemma CompleteExactly(b: seq<Byte>, max: nat, h: nat, n: nat)
    requires |b| >= 2 && b[0] / 16 % 8 == 0 && b[1] >= 128 && n <= max && |b| >= h + 4 + n
    requires || (h == 2 && n == b[1] - 128 < 126)
             || (h == 4 && b[1] == 254 && n == 256 * b[2] as int + b[3])
             || (h == 10 && b[1] == 255 && n == Value(b[2..10]))
    ensures var p := Parse(b, max);
            && p.Complete? && p.total == h + 4 + n && p.frame.fin == (b[0] >= 128) && p.frame.opcode == b[0] % 16
            && |p.frame.payload| == n && forall i | 0 <= i < n :: p.frame.payload[i] == XorByte(b[h + 4 + i], b[h + i % 4])
  {
    hide Value;
    if h == 4 {
      Value2(b[2..4]);
    }
    var key, masked := b[h..h + 4], b[h + 4..h + 4 + n];
    assert ParseHead(b, max) == Head(b[0] >= 128, b[0] % 16, n, key, h + 4);
    assert Parse(b, max) == Complete(Frame(b[0] >= 128, b[0] % 16, key, Masked(masked, key)), h + 4 + n);
    forall i | 0 <= i < n ensures Masked(masked, key)[i] == XorByte(b[h + 4 + i], b[h + i % 4]) {
      assert masked[i] == b[h + 4 + i] && key[i % 4] == b[h + i % 4];
    }
  }

  // ----- The parser, on the receive buffer

  /** ws_frame_t: a parsed header; the payload stays in the buffer, after the header. */
  datatype Raw = Raw(fin: bool, opcode: nat, masked: bool, payloadLen: nat, key: Key, headerLen: nat)

  const ZERO_KEY: Key := [0, 0, 0, 0]

  lemma Value2(b: seq<Byte>)
    requires |b| == 2
    ensures Value(b) == b[0] as int * 256 + b[1]
  {
    assert b[..1][..0] == [];
    assert Value(b[..1]) == b[0];
  }

  lemma Value4(b: seq<Byte>)
    requires |b| == 4
    ensures Value(b) == b[0] as int * 0x100_0000 + b[1] as int * 0x1_0000 + b[2] as int * 0x100 + b[3]
  {
    Value2(b[..2]);
    assert b[..3][..2] == b[..2];
    assert Value(b[..3]) == Value(b[..2]) * 256 + b[2];
  }

  lemma Value8(b: seq<Byte>)
    requires |b| == 8
    ensures Value(b) == Value(b[..4]) * 0x1_0000_0000 + Value(b[4..])
  {
    Value4(b[4..]);
    assert b[..7][..6] == b[..6] && b[..6][..5] == b[..5] && b[..5][..4] == b[..4];
    assert Value(b[..5]) == Value(b[..4]) * 256 + b[4];
    assert Value(b[..6]) == Value(b[..5]) * 256 + b[5];
    assert Value(b[..7]) == Value(b[..6]) * 256 + b[6];
  }

  /** The shifted sum of eight bytes. */
  lemma Sum8(b: seq<Byte>)
    requires |b| == 8
    ensures Value(b) == b[0] as int * 0x100_0000_0000_0000 + b[1] as int * 0x1_0000_0000_0000
                      + b[2] as int * 0x100_0000_0000 + b[3] as int * 0x1_0000_0000
                      + b[4] as int * 0x100_0000 + b[5] as int * 0x1_0000 + b[6] as int * 0x100 + b[7]
  {
    Value8(b);
    Value4(b[..4]);
    Value4(b[4..]);
  }

  method Length16(data: array<Byte>, at: nat) returns (n: nat)
    requires at + 2 <= data.Length
    ensures n == Value(data[..][at..at + 2])
  {
    hide Value;
    Value2(data[..][at..at + 2]);
    n := data[at] as int * 256 + data[at + 1];
  }

  method Length64(data: array<Byte>, at: nat) returns (n: nat)
    requires at + 8 <= data.Length
    ensures n == Value(data[..][at..at + 8])
  {
    hide Value;
    Sum8(data[..][at..at + 8]);
    n := data[at] as int * 0x100_0000_0000_0000 + data[at + 1] as int * 0x1_0000_0000_0000
       + data[at + 2] as int * 0x100_0000_0000 + data[at + 3] as int * 0x1_0000_0000
       + data[at + 4] as int * 0x100_0000 + data[at + 5] as int * 0x1_0000
       + data[at + 6] as int * 0x100 + data[at + 7];
  }

  /** ws_parse_frame_header: 0 for more bytes, -1 for an error, otherwise the header's length. */
  method ParseHeader(data: array<Byte>, at: nat, len: nat, max: nat) returns (r: int, frame: Raw)
    requires at + len <= data.Length
    ensures match ParseHead(data[at..at + len], max)
            case NeedHead => r == 0
            case BadHead => r == -1
            case Head(fin, opcode, length, key, size) => r == size && frame == Raw(fin, opcode, true, length, key, size)
  {
    hide Value;
    ghost var b := data[at..at + len];
    assert b == data[..][at..at + len];
    assert len >= 2 ==> b[0] == data[at] && b[1] == data[at + 1];
    frame := Raw(false, 0, false, 0, ZERO_KEY, 0);
    if len < 2 {
      return 0, frame;
    }
    frame := Raw(data[at] >= 128, data[at] % 16, data[at + 1] >= 128, 0, ZERO_KEY, 2);
    if data[at] / 16 % 8 != 0 {
      return -1, frame;
    }
    if !frame.masked {
      return -1, frame;
    }
    var payloadLen := data[at + 1] % 128;
    if payloadLen < 126 {
      frame := frame.(payloadLen := payloadLen);
    } else if payloadLen == 126 {
      if len < 4 {
        return 0, frame;
      }
      var n := Length16(data, at + 2);
      SubSlice(data[..], at, at + len, 2, 4);
      frame := frame.(payloadLen := n, headerLen := 4);
    } else {
      if len < 10 {
        return 0, frame;
      }
      var n := Length64(data, at + 2);
      SubSlice(data[..], at, at + len, 2, 10);
      frame := frame.(payloadLen := n, headerLen := 10);
    }
    if frame.payloadLen > max {
      return -1, frame;
    }
    if len < frame.headerLen + 4 {
      return 0, frame;
    }
    var h := frame.headerLen;
    SubSlice(data[..], at, at + len, h, h + 4);
    var key := data[at + h..at + h + 4];
    assert |key| == 4;
    frame := frame.(key := key, headerLen := h + 4);
    r := frame.headerLen;
  }

  /** ws_parse_frame: a complete frame's payload is unmasked where it lies, and nothing else in the
      buffer changes; otherwise the buffer is left alone. */
  method ParseFrame(data: array<Byte>, at: nat, len: nat, max: nat, cpu: Cpu) returns (r: int, frame: Raw)
    requires at + len <= data.Length && max + 14 < 0x8000_0000
    modifies data
    ensures len == 0 ==> r == -1
    ensures len > 0 ==> r == match Parse(old(data[at..at + len]), max)
                             case NeedMore => 0
                             case Bad => -1
                             case Complete(_, total) => total
    ensures r <= 0 ==> data[..] == old(data[..])
    ensures r > 0 ==>
              var f := Parse(old(data[at..at + len]), max).frame;
              && frame == Raw(f.fin, f.opcode, true, |f.payload|, f.key, r - |f.payload|)
              && 6 <= frame.headerLen
              && data[..] == MaskedRange(old(data[..]), at + frame.headerLen, frame.payloadLen, frame.key)
              && data[at + frame.headerLen..at + r] == f.payload
  {
    hide ParseHead, Masked, MaskedRange;
    ghost var whole := data[..];
    assert data[at..at + len] == whole[at..at + len];
    frame := Raw(false, 0, false, 0, ZERO_KEY, 0);
    if len == 0 {
      return -1, frame;
    }
    var headerLen;
    headerLen, frame := ParseHeader(data, at, len, max);
    if headerLen == 0 {
      return 0, frame;
    }
    if headerLen < 0 {
      return -1, frame;
    }
    var total := headerLen + frame.payloadLen;
    if len < total {
      return 0, frame;
    }
    SubSlice(whole, at, at + len, headerLen, total);
    MaskedThere(whole, at + headerLen, frame.payloadLen, frame.key);
    if frame.payloadLen > 0 {
      Unmask(data, at + headerLen, frame.payloadLen, frame.key, cpu);
    }
    assert data[at + headerLen..at + total] == data[..][at + headerLen..at + total];
    r := total;
  }

  // ----- The encoder

  function ShortestForm(n: nat): Form {
    if n < 126 then Short else if n <= 0xFFFF then Medium else Long
  }

  /** A server frame: final, unmasked, its length in the shortest form. */
  function Encoded(opcode: Byte, payload: seq<Byte>): (r: seq<Byte>)
    requires |payload| < 0x1_0000_0000_0000_0000
  {
    var n := |payload|;
    [128 + opcode % 16, LengthCode(n, ShortestForm(n))] + Extension(n, ShortestForm(n)) + payload
  }

  /** The frame a client would send for the server frame e: mask bit set, key put in after the
      header, payload masked. */
  function ClientFrame(e: seq<Byte>, key: Key): seq<Byte>
    requires |e| >= 2 && e[1] < 128 && |e| >= KeyAt(FormOf(e[1]))
  {
    var h := KeyAt(FormOf(e[1]));
    [e[0], e[1] + 128] + e[2..h] + key + Masked(e[h..], key)
  }

  /** The encoder's bytes in full. */
  lemma EncodedExactly(opcode: Byte, payload: seq<Byte>)
    requires |payload| < 0x1_0000_0000_0000_0000
    ensures var n, e := |payload|, Encoded(opcode, payload);
            if n <= 125 then e == [128 + opcode % 16, n] + payload
            else if n <= 65535 then e == [128 + opcode % 16, 126, n / 256, n % 256] + payload
            else |e| == 10 + n && e[0] == 128 + opcode % 16 && e[1] == 127 && Value(e[2..10]) == n && e[10..] == payload
  {
    hide BigEndian, Value;
    var n := |payload|;
    if 126 <= n <= 65535 {
      BigEndian2(n);
      assert n / 256 % 256 == n / 256;
    } else if n > 65535 {
      Pow256Of8();
      ValueOfBigEndian(n, 8);
      assert Encoded(opcode, payload)[2..10] == BigEndian(n, 8);
    }
  }

  lemma EncodedParts(opcode: Byte, payload: seq<Byte>)
    requires |payload| < 0x1_0000_0000_0000_0000
    ensures var n, e := |payload|, Encoded(opcode, payload);
            var h := KeyAt(FormOf(e[1]));
            && e[1] < 128 && e[0] == 128 + opcode % 16 && e[1] == LengthCode(n, ShortestForm(n))
            && h == 2 + |Extension(n, ShortestForm(n))| <= |e|
            && e[2..h] == Extension(n, ShortestForm(n)) && e[h..] == payload
  {
    hide BigEndian;
  }

  /** Masked by any key and followed by anything, an encoded frame is read back whole. */
  lemma EncodeParse(opcode: Byte, payload: seq<Byte>, key: Key, rest: seq<Byte>, max: nat)
    requires |payload| <= max && |payload| < 0x1_0000_0000_0000_0000
    ensures var e := Encoded(opcode, payload);
            && |e| >= 2 && e[1] < 128 && |e| >= KeyAt(FormOf(e[1]))
            && Parse(ClientFrame(e, key) + rest, max)
               == Complete(Frame(true, opcode % 16, key, payload), |e| + 4)
  {
    hide Extension, Parse, Encoded, Masked;
    EncodedParts(opcode, payload);
    var f := Frame(true, opcode % 16, key, payload);
    assert ClientFrame(Encoded(opcode, payload), key) == Serialize(f, ShortestForm(|payload|));
    ParsesSerialized(f, ShortestForm(|payload|), rest, max);
  }

  lemma DivDiv(n: nat, a: nat)
    requires a > 0
    ensures n / 256 / a == n / (256 * a)
  {
    var q, r := n / 256 / a, n / 256 % a;
    assert n / 256 == a * q + r;
    assert n == 256 * (a * q + r) + n % 256;
    assert 256 * (a * q) == (256 * a) * q;
    ModUnique(n, 256 * a, q, 256 * r + n % 256);
  }

  lemma BigEndianCons(n: nat, k: nat)
    requires k > 0
    ensures BigEndian(n, k) == [n / Pow256(k - 1) % 256] + BigEndian(n, k - 1)
    decreases k
  {
    if k > 1 {
      BigEndianCons(n / 256, k - 1);
      DivDiv(n, Pow256(k - 2));
    }
  }

  lemma BigEndian2(n: nat)
    ensures BigEndian(n, 2) == [n / 256 % 256, n % 256]
  {
    BigEndianCons(n, 2);
    BigEndianCons(n, 1);
  }

  lemma BigEndian4(n: nat)
    ensures BigEndian(n, 4) == [n / 0x100_0000 % 256, n / 0x1_0000 % 256, n / 256 % 256, n % 256]
  {
    BigEndianCons(n, 4);
    BigEndianCons(n, 3);
    BigEndian2(n);
    assert Pow256(3) == 0x100_0000 && Pow256(2) == 0x1_0000;
  }

  lemma BigEndian8(n: nat)
    ensures BigEndian(n, 8) == [n / 0x100_0000_0000_0000 % 256, n / 0x1_0000_0000_0000 % 256, n / 0x100_0000_0000 % 256,
                                n / 0x1_0000_0000 % 256] + BigEndian(n, 4)
  {
    hide BigEndian;
    BigEndianCons(n, 8);
    BigEndianCons(n, 7);
    BigEndianCons(n, 6);
    BigEndianCons(n, 5);
    assert Pow256(4) == 0x1_0000_0000;
    assert Pow256(6) == 0x1_0000_0000_0000 && Pow256(5) == 0x100_0000_0000;
    assert Pow256(7) == 0x100_0000_0000_0000;
  }

  /** Writes the header's second byte and the extended length. */
  method PutLength(header: array<Byte>, n: nat)
    requires n < 0x1_0000_0000_0000_0000
    requires header.Length >= KeyAt(ShortestForm(n))
    modifies header
    ensures header[1..KeyAt(ShortestForm(n))] == [LengthCode(n, ShortestForm(n))] + Extension(n, ShortestForm(n))
    ensures header[0] == old(header[0])
  {
    hide BigEndian;
    if n < 126 {
      header[1] := n;
    } else if n <= 0xFFFF {
      header[1] := 126;
      header[2], header[3] := n / 256 % 256, n % 256;
      BigEndian2(n);
    } else {
      header[1] := 127;
      header[2], header[3] := n / 0x100_0000_0000_0000 % 256, n / 0x1_0000_0000_0000 % 256;
      header[4], header[5] := n / 0x100_0000_0000 % 256, n / 0x1_0000_0000 % 256;
      header[6], header[7], header[8], header[9] := n / 0x100_0000 % 256, n / 0x1_0000 % 256, n / 256 % 256, n % 256;
      BigEndian8(n);
      BigEndian4(n);
    }
  }

  /** ws_encode_frame */
  method Encode(opcode: Byte, payload: seq<Byte>) returns (frame: array<Byte>)
    requires |payload| + 10 < 0x1_0000_0000_0000_0000
    ensures fresh(frame) && frame[..] == Encoded(opcode, payload)
  {
    hide Extension, LengthCode;
    var n := |payload|;
    var headerLen := 2;
    if n < 126 {
    } else if n <= 0xFFFF {
      headerLen := headerLen + 2;
    } else {
      headerLen := headerLen + 8;
    }
    frame := new Byte[headerLen + n];
    frame[0] := 128 + opcode % 16;
    PutLength(frame, n);
    ghost var header := frame[..headerLen];
    assert header == [frame[0]] + frame[1..headerLen];
    PutPayload(frame, headerLen, payload);
  }

  method PutPayload(frame: array<Byte>, at: nat, payload: seq<Byte>)
    requires frame.Length == at + |payload|
    modifies frame
    ensures frame[..] == old(frame[..at]) + payload
  {
    forall i | 0 <= i < |payload| {
      frame[at + i] := payload[i];
    }
  }
}
