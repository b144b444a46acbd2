/** Payload masking of src/ws/ws_frame.c (section 5.3 of RFC 6455). The library XORs the payload
    in place in blocks of 32, 16 or 4 bytes; a block of memory is a little-endian word. */
module Masking {
  import opened Bits
  import opened Seqs

  type Key = k: seq<Byte> | |k| == 4 witness [0, 0, 0, 0]

  /** Byte i of the payload is XORed with byte i mod 4 of the key. */
  function Masked(p: seq<Byte>, key: Key): (r: seq<Byte>)
    ensures |r| == |p|
  {
    seq(|p|, i requires 0 <= i < |p| => XorByte(p[i], key[i % 4]))
  }

  /** s with the n bytes at `at` masked. */
  function MaskedRange(s: seq<Byte>, at: nat, n: nat, key: Key): (r: seq<Byte>)
    requires at + n <= |s|
    ensures |r| == |s|
  {
    s[..at] + Masked(s[at..at + n], key) + s[at + n..]
  }

  lemma MaskedThere(s: seq<Byte>, at: nat, n: nat, key: Key)
    requires at + n <= |s|
    ensures MaskedRange(s, at, n, key)[at..at + n] == Masked(s[at..at + n], key)
    ensures n == 0 ==> MaskedRange(s, at, n, key) == s
    ensures forall k | at + n <= k < |s| :: MaskedRange(s, at, n, key)[k] == s[k]
  {
    hide Masked;
    Middle(s[..at], Masked(s[at..at + n], key), s[at + n..]);
    assert s == s[..at] + s[at..];
  }

  /** Unmasking is masking again. */
  lemma MaskedTwice(p: seq<Byte>, key: Key)
    ensures Masked(Masked(p, key), key) == p
  {
    forall i | 0 <= i < |p| ensures Masked(Masked(p, key), key)[i] == p[i] {
      XorInvolution(p[i], key[i % 4]);
    }
  }

  /** The word with `lanes` copies of a 32-bit word. */
  function Broadcast(word: nat, lanes: nat): nat {
    if lanes == 0 then 0 else word + 0x1_0000_0000 * Broadcast(word, lanes - 1)
  }

  function Repeated(key: Key, lanes: nat): (r: seq<Byte>)
    ensures |r| == 4 * lanes
  {
    seq<Byte>(4 * lanes, i requires 0 <= i < 4 * lanes => key[i % 4])
  }

  lemma RepeatedMore(key: Key, lanes: nat)
    requires lanes > 0
    ensures Repeated(key, lanes) == key + Repeated(key, lanes - 1)
  {
    forall i | 4 <= i < 4 * lanes ensures i % 4 == (i - 4) % 4 {
      ShiftMod(4, i - 4);
    }
  }

  lemma WordOf4(key: Key, rest: seq<Byte>)
    ensures Word(key + rest) == Word(key) + 0x1_0000_0000 * Word(rest)
  {
    var a, b, c, d := key[0], key[1], key[2], key[3];
    assert key + rest == [a] + ([b] + ([c] + ([d] + rest)));
    assert key == [a] + ([b] + ([c] + ([d] + [])));
    WordCons(a, [b] + ([c] + ([d] + rest)));
    WordCons(b, [c] + ([d] + rest));
    WordCons(c, [d] + rest);
    WordCons(d, rest);
    WordCons(a, [b] + ([c] + ([d] + [])));
    WordCons(b, [c] + ([d] + []));
    WordCons(c, [d] + []);
    WordCons(d, []);
  }

  lemma WordCons(b: Byte, rest: seq<Byte>)
    ensures Word([b] + rest) == b + 256 * Word(rest)
  {
    assert ([b] + rest)[1..] == rest;
  }

  /** Broadcasting the key's word gives the word of the repeated key. */
  lemma {:induction false} BroadcastKey(key: Key, lanes: nat)
    ensures Broadcast(Word(key), lanes) == Word(Repeated(key, lanes))
  {
    hide Word;
    if lanes > 0 {
      BroadcastKey(key, lanes - 1);
      RepeatedMore(key, lanes);
      WordOf4(key, Repeated(key, lanes - 1));
    } else {
      EmptyWord();
    }
  }

  lemma EmptyWord()
    ensures Word([]) == 0
  {
  }

  /** XORing a block as one word with the broadcast key masks its bytes. */
  lemma BlockMasked(block: seq<Byte>, key: Key, lanes: nat)
    requires |block| == 4 * lanes
    ensures Bytes(Xor(Word(block), Broadcast(Word(key), lanes)), |block|) == Masked(block, key)
  {
    hide Word, Bytes, Xor;
    var mask := Repeated(key, lanes);
    BroadcastKey(key, lanes);
    XorWord(block, mask);
    var x := seq(|block|, i requires 0 <= i < |block| => XorByte(block[i], mask[i]));
    assert x == Masked(block, key);
    BytesOfWord(x);
  }

  /** What an unmask loop has done after i bytes of the payload a[at..at + len]: byte by byte
      XOR up to there, nothing anywhere else. */
  ghost predicate Done(now: seq<Byte>, before: seq<Byte>, at: nat, i: nat, key: Key) {
    && |now| == |before| && at + i <= |now|
    && (forall j | at <= j < at + i :: now[j] == XorByte(before[j], key[(j - at) % 4]))
    && (forall j | 0 <= j < at || at + i <= j < |now| :: now[j] == before[j])
  }

  lemma DoneIsMasked(now: seq<Byte>, before: seq<Byte>, at: nat, len: nat, key: Key)
    requires Done(now, before, at, len, key)
    ensures now == MaskedRange(before, at, len, key)
  {
    hide XorByte;
  }

  lemma DoneNothing(before: seq<Byte>, at: nat, key: Key)
    requires at <= |before|
    ensures Done(before, before, at, 0, key)
  {
  }

  lemma DoneBlock(now: seq<Byte>, mid: seq<Byte>, before: seq<Byte>, at: nat, i: nat, n: nat, key: Key)
    requires Done(mid, before, at, i, key) && i % 4 == 0 && at + i + n <= |mid| == |now|
    requires now == MaskedRange(mid, at + i, n, key)
    ensures Done(now, before, at, i + n, key)
  {
    hide XorByte;
    forall j | at <= j < at + i + n ensures now[j] == XorByte(before[j], key[(j - at) % 4]) {
      if j >= at + i {
        assert (j - at) % 4 == (j - (at + i)) % 4 by { ShiftMod(i, j - (at + i)); }
      }
    }
  }

  lemma ShiftMod(i: nat, k: nat)
    requires i % 4 == 0
    ensures (i + k) % 4 == k % 4
  {
    ModUnique(i + k, 4, i / 4 + k / 4, k % 4);
  }

  lemma Multiple(m: nat, k: nat)
    requires m == 16 || m == 32
    ensures m * k % 4 == 0
  {
    ModUnique(m * k, 4, if m == 16 then 4 * k else 8 * k, 0);
  }

  /** Load, XOR, store one block of 4, 16 or 32 bytes. */
  method XorBlock(a: array<Byte>, at: nat, lanes: nat, mask: nat, ghost key: Key)
    requires at + 4 * lanes <= a.Length && mask == Broadcast(Word(key), lanes)
    modifies a
    ensures a[..] == MaskedRange(old(a[..]), at, 4 * lanes, key)
  {
    hide Word, Bytes, Xor, Masked;
    var data := Word(a[at..at + 4 * lanes]);
    data := Xor(data, mask);
    BlockMasked(a[at..at + 4 * lanes], key, lanes);
    var bytes := Bytes(data, 4 * lanes);
    forall j | at <= j < at + 4 * lanes {
      a[j] := bytes[j - at];
    }
  }

  /** 32-bit chunks from `from` up to `to`. */
  method XorWords(a: array<Byte>, at: nat, from: nat, to: nat, key: Key, ghost before: seq<Byte>)
    requires from % 4 == 0 && to % 4 == 0 && from <= to && at + to <= a.Length
    requires Done(a[..], before, at, from, key)
    modifies a
    ensures Done(a[..], before, at, to, key)
  {
    hide Done, Broadcast, Word, MaskedRange;
    var mask32 := Word(key);
    OneLane(mask32);
    var i := from;
    while i < to
      invariant from <= i <= to && i % 4 == 0
      invariant Done(a[..], before, at, i, key)
    {
      ghost var mid := a[..];
      XorBlock(a, at + i, 1, mask32, key);
      DoneBlock(a[..], mid, before, at, i, 4, key);
      i := i + 4;
    }
  }

  lemma OneLane(word: nat)
    ensures Broadcast(word, 1) == word
  {
  }

  /** The final one to three bytes. */
  method XorTail(a: array<Byte>, at: nat, len: nat, key: Key, ghost before: seq<Byte>)
    requires at + len <= a.Length && Done(a[..], before, at, len - len % 4, key)
    modifies a
    ensures Done(a[..], before, at, len, key)
  {
    hide XorByte;
    for i := len - len % 4 to len
      invariant Done(a[..], before, at, i, key)
    {
      a[at + i] := XorByte(a[at + i], key[i % 4]);
    }
  }

  /** The n bytes that whole blocks of 16 or 32 cover are whole words, and words reach at least as far. */
  lemma Rounded(len: nat, m: nat)
    requires m == 16 || m == 32
    ensures len / m * m <= len / 4 * 4 <= len && len / 4 * 4 == len - len % 4
    ensures len / m * m % 4 == 0 && len / 4 * 4 % 4 == 0
  {
  }

  /** 128-bit chunks. */
  method XorBlocks16(a: array<Byte>, at: nat, blocks: nat, key: Key, ghost before: seq<Byte>)
    requires at + 16 * blocks <= a.Length && Done(a[..], before, at, 0, key)
    modifies a
    ensures Done(a[..], before, at, 16 * blocks, key)
  {
    hide Broadcast, Word, Done, MaskedRange;
    var mask := Broadcast(Word(key), 4);
    var i := 0;
    ghost var k := 0;
    while i < 16 * blocks
      invariant k <= blocks && i == 16 * k
      invariant Done(a[..], before, at, i, key)
    {
      assert k < blocks;
      Multiple(16, k);
      ghost var mid := a[..];
      XorBlock(a, at + i, 4, mask, key);
      DoneBlock(a[..], mid, before, at, i, 16, key);
      i := i + 16;
      k := k + 1;
    }
  }

  /** 256-bit chunks. */
  method XorBlocks32(a: array<Byte>, at: nat, blocks: nat, key: Key, ghost before: seq<Byte>)
    requires at + 32 * blocks <= a.Length && Done(a[..], before, at, 0, key)
    modifies a
    ensures Done(a[..], before, at, 32 * blocks, key)
  {
    hide Broadcast, Word, Done, MaskedRange;
    var mask := Broadcast(Word(key), 8);
    var i := 0;
    ghost var k := 0;
    while i < 32 * blocks
      invariant k <= blocks && i == 32 * k
      invariant Done(a[..], before, at, i, key)
    {
      assert k < blocks;
      Multiple(32, k);
      ghost var mid := a[..];
      XorBlock(a, at + i, 8, mask, key);
      DoneBlock(a[..], mid, before, at, i, 32, key);
      i := i + 32;
      k := k + 1;
    }
  }

  /** ws_unmask_payload_scalar */
  method UnmaskScalar(a: array<Byte>, at: nat, len: nat, key: Key)
    requires at + len <= a.Length
    modifies a
    ensures a[..] == MaskedRange(old(a[..]), at, len, key)
  {
    hide Done, MaskedRange;
    ghost var before := a[..];
    DoneNothing(before, at, key);
    var chunks := len / 4;
    XorWords(a, at, 0, chunks * 4, key, before);
    XorTail(a, at, len, key, before);
    DoneIsMasked(a[..], before, at, len, key);
  }

  /** ws_unmask_payload_sse2 */
  method UnmaskSse2(a: array<Byte>, at: nat, len: nat, key: Key)
    requires at + len <= a.Length
    modifies a
    ensures a[..] == MaskedRange(old(a[..]), at, len, key)
  {
    hide Done, MaskedRange;
    ghost var before := a[..];
    DoneNothing(before, at, key);
    Rounded(len, 16);
    XorBlocks16(a, at, len / 16, key, before);
    XorWords(a, at, len / 16 * 16, len / 4 * 4, key, before);
    XorTail(a, at, len, key, before);
    DoneIsMasked(a[..], before, at, len, key);
  }

  /** ws_unmask_payload_avx2 */
  method UnmaskAvx2(a: array<Byte>, at: nat, len: nat, key: Key)
    requires at + len <= a.Length
    modifies a
    ensures a[..] == MaskedRange(old(a[..]), at, len, key)
  {
    hide Done, MaskedRange;
    ghost var before := a[..];
    DoneNothing(before, at, key);
    Rounded(len, 32);
    XorBlocks32(a, at, len / 32, key, before);
    XorWords(a, at, len / 32 * 32, len / 4 * 4, key, before);
    XorTail(a, at, len, key, before);
    DoneIsMasked(a[..], before, at, len, key);
  }

  datatype Cpu = Avx2 | Sse2 | Plain

  /** ws_unmask_payload: whichever loop the processor gets, the payload is masked byte by byte
      and no other byte is written. */
  method Unmask(a: array<Byte>, at: nat, len: nat, key: Key, cpu: Cpu)
    requires at + len <= a.Length
    modifies a
    ensures a[..] == MaskedRange(old(a[..]), at, len, key)
  {
    match cpu
    case Avx2 => UnmaskAvx2(a, at, len, key);
    case Sse2 => UnmaskSse2(a, at, len, key);
    case Plain => UnmaskScalar(a, at, len, key);
  }
}
