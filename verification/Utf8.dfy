/** The table-driven UTF-8 validator of src/ws/ws_utf8.c against the definition of UTF-8:
    a text is well-formed if it is the encoding of a sequence of Unicode scalar values
    (section 3 of RFC 3629). */
module Utf8 {
  import opened Bits

  // ----- The table and the loop

  const ACCEPT: nat := 0
  const REJECT: nat := 12

  function Times(n: nat, c: nat): (r: seq<nat>)
    ensures |r| == n && forall i | 0 <= i < n :: r[i] == c
  {
    seq(n, _ => c)
  }

  /** byte -> character class, as runs of equal entries */
  const CLASSES: seq<nat> :=
    Times(128, 0) +
    Times(16, 1) + Times(16, 9) + Times(32, 7) +
    Times(2, 8) + Times(30, 2) +
    [10] + Times(12, 3) + [4] + Times(2, 3) +
    [11] + Times(3, 6) + [5] + Times(11, 8)

  /** state + class -> next state */
  const MOVES: seq<nat> :=
    [ 0, 12, 24, 36, 60, 96, 84, 12, 12, 12, 48, 72] +
    [12, 12, 12, 12, 12, 12, 12, 12, 12, 12, 12, 12] +
    [12,  0, 12, 12, 12, 12, 12,  0, 12,  0, 12, 12] +
    [12, 24, 12, 12, 12, 12, 12, 24, 12, 24, 12, 12] +
    [12, 12, 12, 12, 12, 12, 12, 24, 12, 12, 12, 12] +
    [12, 24, 12, 12, 12, 12, 12, 12, 12, 24, 12, 12] +
    [12, 12, 12, 12, 12, 12, 12, 36, 12, 36, 12, 12] +
    [12, 36, 12, 12, 12, 12, 12, 36, 12, 36, 12, 12] +
    [12, 36, 12, 12, 12, 12, 12, 12, 12, 12, 12, 12]

  const UTF8D: seq<nat> := CLASSES + MOVES

  predicate StateOk(state: nat) {
    state % 12 == 0 && state <= 96
  }

  lemma TableSize()
    ensures |CLASSES| == 256 && |MOVES| == 108 && |UTF8D| == 364
  {
  }

  /** The character class of a byte, by the ranges of the grammar. */
  function ClassOf(b: Byte): nat {
    if b < 0x80 then 0
    else if b < 0x90 then 1 else if b < 0xA0 then 9 else if b < 0xC0 then 7
    else if b < 0xC2 then 8 else if b < 0xE0 then 2
    else if b == 0xE0 then 10 else if b == 0xED then 4 else if b < 0xF0 then 3
    else if b == 0xF0 then 11 else if b < 0xF4 then 6 else if b == 0xF4 then 5 else 8
  }

  lemma ClassTable(b: Byte)
    ensures |CLASSES| == 256 && CLASSES[b] == ClassOf(b)
  {
  }

  /** The next state, by what the state is waiting for. */
  function MoveOf(state: nat, c: nat): nat {
    match state
    case 0 =>
      (match c
       case 0 => 0
       case 2 => 24
       case 3 => 36
       case 4 => 60
       case 5 => 96
       case 6 => 84
       case 10 => 48
       case 11 => 72
       case _ => 12)
    case 24 => if c == 1 || c == 7 || c == 9 then 0 else 12       // one more byte
    case 36 => if c == 1 || c == 7 || c == 9 then 24 else 12      // two more
    case 48 => if c == 7 then 24 else 12                          // after E0
    case 60 => if c == 1 || c == 9 then 24 else 12                // after ED
    case 72 => if c == 7 || c == 9 then 36 else 12                // after F0
    case 84 => if c == 1 || c == 7 || c == 9 then 36 else 12      // after F1 to F3
    case 96 => if c == 1 then 36 else 12                          // after F4
    case _ => 12
  }

  lemma MoveTable(state: nat, c: nat)
    requires StateOk(state) && c < 12
    ensures |MOVES| == 108 && MOVES[state + c] == MoveOf(state, c)
  {
    var row := state / 12;
    assert row == 0 || row == 1 || row == 2 || row == 3 || row == 4 || row == 5 || row == 6 || row == 7 || row == 8;
  }

  /** utf8_decode: both components of the decoder's state. */
  function Decode(state: nat, codep: nat, b: Byte): (r: (nat, nat))
    requires StateOk(state)
    ensures StateOk(r.0)
  {
    TableSize();
    ClassTable(b);
    var type_ := UTF8D[b];
    MoveTable(state, type_);
    (UTF8D[256 + state + type_],
     if state != ACCEPT then b % 64 + 64 * codep else And(b, 255 / Pow2(type_)))
  }

  function Feed(state: nat, codep: nat, s: seq<Byte>): (r: (nat, nat))
    requires StateOk(state)
    ensures StateOk(r.0)
    decreases |s|
  {
    if s == [] then (state, codep)
    else var next := Decode(state, codep, s[0]); Feed(next.0, next.1, s[1..])
  }

  predicate Accepts(s: seq<Byte>) {
    Feed(ACCEPT, 0, s).0 == ACCEPT
  }

  // ----- The definition of UTF-8

  predicate Scalar(cp: int) {
    0 <= cp < 0xD800 || 0xE000 <= cp < 0x11_0000
  }

  function Encode(cp: int): seq<Byte>
    requires Scalar(cp)
  {
    if cp < 0x80 then [cp]
    else if cp < 0x800 then [0xC0 + cp / 64, 0x80 + cp % 64]
    else if cp < 0x1_0000 then [0xE0 + cp / 4096, 0x80 + cp / 64 % 64, 0x80 + cp % 64]
    else [0xF0 + cp / 262144, 0x80 + cp / 4096 % 64, 0x80 + cp / 64 % 64, 0x80 + cp % 64]
  }

  predicate AllScalar(cps: seq<int>) {
    forall i | 0 <= i < |cps| :: Scalar(cps[i])
  }

  function EncodeAll(cps: seq<int>): seq<Byte>
    requires AllScalar(cps)
  {
    if cps == [] then [] else Encode(cps[0]) + EncodeAll(cps[1..])
  }

  ghost predicate WellFormed(s: seq<Byte>) {
    exists cps: seq<int> :: AllScalar(cps) && EncodeAll(cps) == s
  }

  // ----- The table does what the definition says

  lemma Decoded(state: nat, codep: nat, b: Byte)
    requires StateOk(state)
    ensures Decode(state, codep, b).0 == MoveOf(state, ClassOf(b))
    ensures state != ACCEPT ==> Decode(state, codep, b).1 == b % 64 + 64 * codep
    ensures state == ACCEPT ==> Decode(state, codep, b).1 == And(b, 255 / Pow2(ClassOf(b)))
  {
    TableSize();
    ClassTable(b);
    MoveTable(state, ClassOf(b));
  }

  /** The bits of the code point that a lead byte carries. */
  lemma LeadBits(b: Byte)
    requires b < 0x80 || 0xC2 <= b < 0xF5
    ensures And(b, 255 / Pow2(ClassOf(b))) == Lead(b)
  {
    hide And, Pow2;
    var c := ClassOf(b);
    PowersOf2();
    if c <= 6 {
      LeadMask(c);
      AndMask(b, 8 - c);
    } else {
      AndNone(b);
    }
  }

  function Lead(b: Byte): int
    requires b < 0x80 || 0xC2 <= b < 0xF5
  {
    if b < 0x80 then b else if b < 0xE0 then b - 0xC0 else if b < 0xF0 then b - 0xE0 else b - 0xF0
  }

  lemma LeadMask(c: nat)
    requires c == 0 || 2 <= c <= 6
    ensures 255 / Pow2(c) == Pow2(8 - c) - 1
  {
    hide Pow2;
    PowersOf2();
  }

  lemma PowersOf2()
    ensures Pow2(0) == 1 && Pow2(2) == 4 && Pow2(3) == 8 && Pow2(4) == 16 && Pow2(5) == 32 && Pow2(6) == 64
    ensures Pow2(8) == 256 && Pow2(10) == 1024 && Pow2(11) == 2048
  {
    assert Pow2(1) == 2;
    assert Pow2(4) == 16 && Pow2(7) == 128 && Pow2(9) == 512;
  }

  lemma FeedCons(state: nat, codep: nat, b: Byte, s: seq<Byte>)
    requires StateOk(state)
    ensures Feed(state, codep, [b] + s) == Feed(Decode(state, codep, b).0, Decode(state, codep, b).1, s)
  {
    assert ([b] + s)[1..] == s;
  }

  lemma Feed1(state: nat, codep: nat, a: Byte)
    requires StateOk(state)
    ensures Feed(state, codep, [a]) == Decode(state, codep, a)
  {
    FeedCons(state, codep, a, []);
    assert [a] + [] == [a];
  }

  /** The code point after continuation bytes. */
  function Tail(codep: nat, s: seq<Byte>): nat
    decreases |s|
  {
    if s == [] then codep else Tail(s[0] % 64 + 64 * codep, s[1..])
  }

  /** The states in which these continuation bytes complete a character. */
  predicate Completes(state: nat, s: seq<Byte>) {
    && (forall i | 0 <= i < |s| :: 0x80 <= s[i] < 0xC0)
    && match |s|
       case 1 => state == 24
       case 2 => state == 36 || (state == 48 && s[0] >= 0xA0) || (state == 60 && s[0] < 0xA0)
       case 3 => state == 84 || (state == 72 && s[0] >= 0x90) || (state == 96 && s[0] < 0x90)
       case _ => false
  }

  lemma {:induction false} TailAccepted(state: nat, codep: nat, s: seq<Byte>)
    requires StateOk(state) && Completes(state, s)
    ensures Feed(state, codep, s) == (ACCEPT, Tail(codep, s))
    decreases |s|
  {
    hide Decode, Feed;
    Decoded(state, codep, s[0]);
    if |s| == 1 {
      Feed1(state, codep, s[0]);
      assert s == [s[0]];
    } else {
      var d := Decode(state, codep, s[0]);
      FeedCons(state, codep, s[0], s[1..]);
      assert s == [s[0]] + s[1..];
      TailAccepted(d.0, d.1, s[1..]);
    }
  }

  /** From the accepting state, the encoding of a scalar value leads back to it, with the value
      in the code point register. */
  lemma EncodingAccepted(cp: int, codep: nat)
    requires Scalar(cp)
    ensures Feed(ACCEPT, codep, Encode(cp)) == (ACCEPT, cp)
  {
    hide Decode, Feed, And, Pow2, Tail;
    var e := Encode(cp);
    Decoded(ACCEPT, codep, e[0]);
    LeadBits(e[0]);
    if |e| == 1 {
      Feed1(ACCEPT, codep, e[0]);
    } else {
      var d := Decode(ACCEPT, codep, e[0]);
      FeedCons(ACCEPT, codep, e[0], e[1..]);
      assert e == [e[0]] + e[1..];
      EncodingTail(cp);
      TailAccepted(d.0, d.1, e[1..]);
    }
  }

  /** A multi-byte encoding starts with a lead byte whose continuation completes it. */
  predicate Composed(cp: int, e: seq<Byte>) {
    && |e| > 1 && 0xC2 <= e[0] < 0xF5
    && Completes(MoveOf(ACCEPT, ClassOf(e[0])), e[1..])
    && Lead(e[0]) >= 0
    && Tail(Lead(e[0]), e[1..]) == cp
  }

  lemma EncodingTail(cp: int)
    requires Scalar(cp) && cp >= 0x80
    ensures Composed(cp, Encode(cp))
  {
    hide Composed;
    if cp < 0x800 {
      Composed2(cp);
    } else if cp < 0x1_0000 {
      Composed3(cp);
    } else {
      Composed4(cp);
    }
  }

  lemma Composed2(cp: int)
    requires 0x80 <= cp < 0x800
    ensures Composed(cp, [0xC0 + cp / 64, 0x80 + cp % 64])
  {
    hide Tail;
    var e: seq<Byte> := [0xC0 + cp / 64, 0x80 + cp % 64];
    TailValue(cp / 64, e[1..]);
  }

  lemma Composed3(cp: int)
    requires 0x800 <= cp < 0x1_0000 && Scalar(cp)
    ensures Composed(cp, [0xE0 + cp / 4096, 0x80 + cp / 64 % 64, 0x80 + cp % 64])
  {
    hide Composed;
    var x, y, z := cp / 4096, cp / 64 % 64, cp % 64;
    assert cp == 4096 * x + 64 * y + z;
    Composed3Digits(x, y, z);
  }

  lemma Composed3Digits(x: nat, y: nat, z: nat)
    requires x < 16 && y < 64 && z < 64 && (x == 0 ==> y >= 32) && (x == 13 ==> y < 32)
    ensures Composed(4096 * x + 64 * y + z, [0xE0 + x, 0x80 + y, 0x80 + z])
  {
    hide Tail;
    var e: seq<Byte> := [0xE0 + x, 0x80 + y, 0x80 + z];
    TailValue(x, e[1..]);
  }

  /** One digit in base 64; the higher ones are those of the quotient. */
  lemma Split64(n: nat)
    ensures n == 64 * (n / 64) + n % 64 && n / 64 / 64 == n / 4096 && n / 4096 / 64 == n / 262144
  {
  }

  lemma Composed4(cp: int)
    requires 0x1_0000 <= cp < 0x11_0000
    ensures Composed(cp, [0xF0 + cp / 262144, 0x80 + cp / 4096 % 64, 0x80 + cp / 64 % 64, 0x80 + cp % 64])
  {
    hide Composed;
    var w, x, y, z := cp / 262144, cp / 4096 % 64, cp / 64 % 64, cp % 64;
    Split64(cp);
    Split64(cp / 64);
    Split64(cp / 4096);
    Composed4Digits(w, x, y, z);
  }

  lemma Composed4Digits(w: nat, x: nat, y: nat, z: nat)
    requires w <= 4 && x < 64 && y < 64 && z < 64 && (w == 0 ==> x >= 16) && (w == 4 ==> x < 16)
    ensures Composed(262144 * w + 4096 * x + 64 * y + z, [0xF0 + w, 0x80 + x, 0x80 + y, 0x80 + z])
  {
    hide Tail;
    var e: seq<Byte> := [0xF0 + w, 0x80 + x, 0x80 + y, 0x80 + z];
    TailValue(w, e[1..]);
  }

  lemma TailValue(codep: nat, s: seq<Byte>)
    requires 1 <= |s| <= 3
    ensures |s| == 1 ==> Tail(codep, s) == 64 * codep + s[0] % 64
    ensures |s| == 2 ==> Tail(codep, s) == 4096 * codep + 64 * (s[0] % 64 as int) + s[1] % 64
    ensures |s| == 3 ==> Tail(codep, s) == 262144 * codep + 4096 * (s[0] % 64 as int) + 64 * (s[1] % 64 as int) + s[2] % 64
  {
    assert Tail(codep, s) == Tail(s[0] % 64 + 64 * codep, s[1..]);
    if |s| > 1 {
      var u := s[1..];
      assert Tail(s[0] % 64 + 64 * codep, u) == Tail(u[0] % 64 + 64 * (s[0] % 64 + 64 * codep), u[1..]);
    }
  }

  lemma {:induction false} FeedSplit(state: nat, codep: nat, a: seq<Byte>, b: seq<Byte>)
    requires StateOk(state)
    ensures Feed(state, codep, a + b) == Feed(Feed(state, codep, a).0, Feed(state, codep, a).1, b)
    decreases |a|
  {
    hide Decode;
    if a == [] {
      assert a + b == b;
    } else {
      var d := Decode(state, codep, a[0]);
      FeedSplit(d.0, d.1, a[1..], b);
      assert (a + b)[1..] == a[1..] + b;
    }
  }

  /** The rejecting state is never left. */
  lemma {:induction false} RejectStays(codep: nat, s: seq<Byte>)
    ensures Feed(REJECT, codep, s).0 == REJECT
    decreases |s|
  {
    hide Decode;
    if s != [] {
      Decoded(REJECT, codep, s[0]);
      RejectStays(Decode(REJECT, codep, s[0]).1, s[1..]);
    }
  }

  lemma {:induction false} EncodingsAccepted(cps: seq<int>, codep: nat)
    requires AllScalar(cps)
    ensures Feed(ACCEPT, codep, EncodeAll(cps)).0 == ACCEPT
  {
    hide Decode, Feed;
    if cps != [] {
      EncodingAccepted(cps[0], codep);
      EncodingsAccepted(cps[1..], cps[0]);
      FeedSplit(ACCEPT, codep, Encode(cps[0]), EncodeAll(cps[1..]));
    } else {
      FeedNone(ACCEPT, codep);
    }
  }

  lemma FeedNone(state: nat, codep: nat)
    requires StateOk(state)
    ensures Feed(state, codep, []) == (state, codep)
  {
  }

  // ----- What the table accepts is an encoding

  /** A state that needs continuation bytes gets them: how many, and which. */
  function Needs(state: nat): nat {
    match state
    case 24 => 1
    case 36 => 2
    case 48 => 2
    case 60 => 2
    case 72 => 3
    case 84 => 3
    case 96 => 3
    case _ => 0
  }

  lemma {:induction false} TailTaken(state: nat, codep: nat, s: seq<Byte>)
    requires StateOk(state) && Needs(state) > 0 && Feed(state, codep, s).0 == ACCEPT
    ensures Needs(state) <= |s| && Completes(state, s[..Needs(state)])
    decreases Needs(state)
  {
    hide Decode;
    assert s != [];
    Decoded(state, codep, s[0]);
    var d := Decode(state, codep, s[0]);
    if d.0 == REJECT {
      RejectStays(d.1, s[1..]);
      assert false;
    } else if Needs(state) > 1 {
      TailTaken(d.0, d.1, s[1..]);
      var t := s[1..];
      assert s[..Needs(state)] == [s[0]] + t[..Needs(d.0)];
    }
  }

  /** The scalar value whose encoding is this lead byte and these continuation bytes. */
  lemma Compose(b: Byte, t: seq<Byte>) returns (cp: int)
    requires Needs(MoveOf(ACCEPT, ClassOf(b))) == |t| > 0 && Completes(MoveOf(ACCEPT, ClassOf(b)), t)
    ensures Scalar(cp) && Encode(cp) == [b] + t
  {
    hide Encode, Scalar;
    if |t| == 1 {
      cp := Compose2(b, t[0]);
    } else if |t| == 2 {
      cp := Compose3(b, t[0], t[1]);
    } else {
      cp := Compose4(b, t[0], t[1], t[2]);
    }
  }

  lemma Compose2(b: Byte, t0: Byte) returns (cp: int)
    requires 0xC2 <= b < 0xE0 && 0x80 <= t0 < 0xC0
    ensures Scalar(cp) && Encode(cp) == [b, t0]
  {
    var x: int, y: int := b - 0xC0, t0 - 0x80;
    cp := 64 * x + y;
  }

  lemma Compose3(b: Byte, t0: Byte, t1: Byte) returns (cp: int)
    requires 0xE0 <= b < 0xF0 && 0x80 <= t0 < 0xC0 && 0x80 <= t1 < 0xC0
    requires (b == 0xE0 ==> t0 >= 0xA0) && (b == 0xED ==> t0 < 0xA0)
    ensures Scalar(cp) && Encode(cp) == [b, t0, t1]
  {
    var x: int, y: int, z: int := b - 0xE0, t0 - 0x80, t1 - 0x80;
    cp := 4096 * x + 64 * y + z;
    Digits3(x, y, z);
  }

  lemma Compose4(b: Byte, t0: Byte, t1: Byte, t2: Byte) returns (cp: int)
    requires 0xF0 <= b < 0xF5 && 0x80 <= t0 < 0xC0 && 0x80 <= t1 < 0xC0 && 0x80 <= t2 < 0xC0
    requires (b == 0xF0 ==> t0 >= 0x90) && (b == 0xF4 ==> t0 < 0x90)
    ensures Scalar(cp) && Encode(cp) == [b, t0, t1, t2]
  {
    var w: int, x: int, y: int, z: int := b - 0xF0, t0 - 0x80, t1 - 0x80, t2 - 0x80;
    cp := 262144 * w + 4096 * x + 64 * y + z;
    Digits3(64 * w + x, y, z);
    assert (64 * w + x) / 64 == w && (64 * w + x) % 64 == x;
    assert cp / 262144 == w;
  }

  lemma Digits3(x: nat, y: nat, z: nat)
    requires y < 64 && z < 64
    ensures (4096 * x + 64 * y + z) % 64 == z
    ensures (4096 * x + 64 * y + z) / 64 % 64 == y
    ensures (4096 * x + 64 * y + z) / 4096 == x
  {
    assert (4096 * x + 64 * y + z) / 64 == 64 * x + y;
  }

  lemma {:induction false} AcceptedIsEncoding(codep: nat, s: seq<Byte>) returns (cps: seq<int>)
    requires Feed(ACCEPT, codep, s).0 == ACCEPT
    ensures AllScalar(cps) && EncodeAll(cps) == s
    decreases |s|
  {
    hide Decode;
    if s == [] {
      return [];
    }
    Decoded(ACCEPT, codep, s[0]);
    var d := Decode(ACCEPT, codep, s[0]);
    var n := 1 + Needs(d.0);
    var cp := s[0];
    if d.0 == REJECT {
      RejectStays(d.1, s[1..]);
      assert false;
    } else if d.0 != ACCEPT {
      TailTaken(d.0, d.1, s[1..]);
      cp := Compose(s[0], s[1..][..n - 1]);
      assert s[..n] == [s[0]] + s[1..][..n - 1];
    }
    assert s[..n] == Encode(cp);
    EncodingAccepted(cp, codep);
    FeedSplit(ACCEPT, codep, s[..n], s[n..]);
    assert s == s[..n] + s[n..];
    var rest := AcceptedIsEncoding(cp, s[n..]);
    cps := [cp] + rest;
  }

  /** The table accepts exactly the encodings of sequences of scalar values: no overlong forms,
      no surrogates, nothing above U+10FFFF, no truncated tail. */
  lemma AcceptsIffWellFormed(s: seq<Byte>)
    ensures Accepts(s) <==> WellFormed(s)
  {
    hide Feed;
    if Accepts(s) {
      var cps := AcceptedIsEncoding(0, s);
    }
    if WellFormed(s) {
      var cps: seq<int> :| AllScalar(cps) && EncodeAll(cps) == s;
      EncodingsAccepted(cps, 0);
    }
  }

  lemma EmptyWellFormed()
    ensures WellFormed([])
  {
    assert AllScalar([]) && EncodeAll([]) == [];
  }

  /** ws_utf8_valid */
  method Valid(s: seq<Byte>) returns (ok: bool)
    ensures ok <==> WellFormed(s)
  {
    hide Feed, Decode, WellFormed;
    AcceptsIffWellFormed(s);
    FeedNone(ACCEPT, 0);
    var state, codep := ACCEPT, 0;
    for i := 0 to |s|
      invariant StateOk(state)
      invariant Feed(ACCEPT, 0, s[..i]) == (state, codep)
    {
      FeedSplit(ACCEPT, 0, s[..i], [s[i]]);
      Feed1(state, codep, s[i]);
      assert s[..i + 1] == s[..i] + [s[i]];
      var next := Decode(state, codep, s[i]);
      state, codep := next.0, next.1;
      if state == REJECT {
        FeedSplit(ACCEPT, 0, s[..i + 1], s[i + 1..]);
        assert s == s[..i + 1] + s[i + 1..];
        RejectStays(codep, s[i + 1..]);
        return false;
      }
    }
    assert s[..|s|] == s;
    ok := state == ACCEPT;
  }
}
