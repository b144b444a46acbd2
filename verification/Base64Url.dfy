/** The unpadded base64url codec of src/acme/acme_base64url.c (section 5 of RFC 4648).
    Text is a sequence of character codes. */
module Base64Url {
  import opened Bits

  // ----- The alphabet

  /** ENC: A-Z, a-z, 0-9, '-', '_' */
  function Enc(k: nat): Byte
    requires k < 64
  {
    if k < 26 then 65 + k else if k < 52 then 97 + (k - 26) else if k < 62 then 48 + (k - 52)
    else if k == 62 then 45 else 95
  }

  /** The value of a character, or -1 outside the alphabet. */
  function Dec(c: Byte): (r: int)
    ensures -1 <= r < 64
  {
    if 65 <= c < 91 then c - 65 else if 97 <= c < 123 then c - 97 + 26 else if 48 <= c < 58 then c - 48 + 52
    else if c == 45 then 62 else if c == 95 then 63 else -1
  }

  lemma DecEnc(k: nat)
    requires k < 64
    ensures Dec(Enc(k)) == k
  {
  }

  lemma EncDec(c: Byte)
    requires Dec(c) >= 0
    ensures Enc(Dec(c)) == c
  {
  }

  /** A to Z, a to z, 0 to 9, then '-' and '_'. */
  lemma AlphabetExactly(k: nat)
    requires k < 64
    ensures k < 26 ==> Enc(k) == 'A' as int + k <= 'Z' as int
    ensures 26 <= k < 52 ==> Enc(k) == 'a' as int + k - 26 <= 'z' as int
    ensures 52 <= k < 62 ==> Enc(k) == '0' as int + k - 52 <= '9' as int
    ensures Enc(62) == '-' as int && Enc(63) == '_' as int
  {
  }

  // ----- What the encoder and the decoder compute

  function EncodedLength(n: nat): nat {
    n / 3 * 4 + if n % 3 == 0 then 0 else n % 3 + 1
  }

  function Encoded(s: seq<Byte>): seq<Byte> {
    if |s| >= 3 then
      [Enc(s[0] / 4), Enc(s[0] % 4 * 16 + s[1] / 16), Enc(s[1] % 16 * 4 + s[2] / 64), Enc(s[2] % 64)] + Encoded(s[3..])
    else if |s| == 2 then [Enc(s[0] / 4), Enc(s[0] % 4 * 16 + s[1] / 16), Enc(s[1] % 16 * 4)]
    else if |s| == 1 then [Enc(s[0] / 4), Enc(s[0] % 4 * 16)]
    else []
  }

  predicate InAlphabet(t: seq<Byte>) {
    forall i | 0 <= i < |t| :: Dec(t[i]) >= 0
  }

  function DecodedLength(n: nat): nat {
    n / 4 * 3 + if n % 4 < 2 then 0 else n % 4 - 1
  }

  /** The three bytes of four characters. */
  function Triple(a: Byte, b: Byte, c: Byte, d: Byte): seq<Byte>
    requires Dec(a) >= 0 && Dec(b) >= 0 && Dec(c) >= 0 && Dec(d) >= 0
  {
    [Dec(a) * 4 + Dec(b) / 16, Dec(b) % 16 * 16 + Dec(c) / 4, Dec(c) % 4 * 64 + Dec(d)]
  }

  function Decoded(t: seq<Byte>): (s: seq<Byte>)
    requires InAlphabet(t)
  {
    if |t| >= 4 then Triple(t[0], t[1], t[2], t[3]) + Decoded(t[4..])
    else if |t| == 3 then [Dec(t[0]) * 4 + Dec(t[1]) / 16, Dec(t[1]) % 16 * 16 + Dec(t[2]) / 4]
    else if |t| == 2 then [Dec(t[0]) * 4 + Dec(t[1]) / 16]
    else []
  }

  lemma {:induction false} EncodedSize(s: seq<Byte>)
    ensures |Encoded(s)| == EncodedLength(|s|)
  {
    if |s| >= 3 {
      EncodedSize(s[3..]);
    }
  }

  lemma {:induction false} DecodedSize(t: seq<Byte>)
    requires InAlphabet(t)
    ensures |Decoded(t)| == DecodedLength(|t|)
  {
    if |t| >= 4 {
      DecodedSize(t[4..]);
    }
  }

  // ----- Round trips

  lemma Regroup(x: Byte, y: Byte, z: Byte)
    ensures x / 4 * 4 + (x % 4 * 16 + y / 16) / 16 == x
    ensures (x % 4 * 16 + y / 16) % 16 * 16 + (y % 16 * 4 + z / 64) / 4 == y
    ensures (y % 16 * 4 + z / 64) % 4 * 64 + z % 64 == z
  {
  }

  /** Decoding undoes encoding, for every byte string. */
  lemma {:induction false} RoundTrip(s: seq<Byte>)
    ensures InAlphabet(Encoded(s)) && Decoded(Encoded(s)) == s
  {
    hide Enc, Dec;
    if |s| >= 3 {
      RoundTrip(s[3..]);
      GroupRoundTrip(s[0], s[1], s[2], Encoded(s[3..]));
      assert s == [s[0], s[1], s[2]] + s[3..];
    } else if |s| == 2 {
      DecEnc(s[0] / 4);
      DecEnc(s[0] % 4 * 16 + s[1] / 16);
      DecEnc(s[1] % 16 * 4);
      Regroup(s[0], s[1], 0);
    } else if |s| == 1 {
      DecEnc(s[0] / 4);
      DecEnc(s[0] % 4 * 16);
      Regroup(s[0], 0, 0);
    }
  }

  lemma GroupRoundTrip(x: Byte, y: Byte, z: Byte, u: seq<Byte>)
    requires InAlphabet(u)
    ensures var t := [Enc(x / 4), Enc(x % 4 * 16 + y / 16), Enc(y % 16 * 4 + z / 64), Enc(z % 64)] + u;
            InAlphabet(t) && Decoded(t) == [x, y, z] + Decoded(u)
  {
    hide Enc, Dec;
    var t := [Enc(x / 4), Enc(x % 4 * 16 + y / 16), Enc(y % 16 * 4 + z / 64), Enc(z % 64)] + u;
    DecEnc(x / 4);
    DecEnc(x % 4 * 16 + y / 16);
    DecEnc(y % 16 * 4 + z / 64);
    DecEnc(z % 64);
    Regroup(x, y, z);
    assert t[4..] == u;
  }

  /** The bits of the last character that carry no data are zero. */
  predicate Canonical(t: seq<Byte>) {
    && (|t| % 4 == 2 ==> Dec(t[|t| - 1]) % 16 == 0)
    && (|t| % 4 == 3 ==> Dec(t[|t| - 1]) % 4 == 0)
  }

  lemma Ungroup(a: nat, b: nat, c: nat, d: nat)
    requires a < 64 && b < 64 && c < 64 && d < 64
    ensures var x, y, z := a * 4 + b / 16, b % 16 * 16 + c / 4, c % 4 * 64 + d;
            && 0 <= x < 256 && 0 <= y < 256 && 0 <= z < 256
            && x / 4 == a && x % 4 * 16 + y / 16 == b && y % 16 * 4 + z / 64 == c && z % 64 == d
  {
  }

  /** Encoding undoes decoding exactly on the texts whose unused bits are zero; other texts of
      the same bytes are accepted too. */
  lemma {:induction false} CanonicalRoundTrip(t: seq<Byte>)
    requires InAlphabet(t) && |t| % 4 != 1
    ensures Encoded(Decoded(t)) == t <==> Canonical(t)
  {
    hide Enc, Dec, Encoded, Decoded, Canonical;
    if |t| >= 4 {
      var u := t[4..];
      CanonicalRoundTrip(u);
      GroupCanonical(t);
      CanonicalRest(t);
      PrefixEqual(t, Encoded(Decoded(u)));
    } else {
      CanonicalTail(t);
    }
  }

  /** "AB" decodes to the same byte as "AA". */
  lemma NotCanonical()
    ensures InAlphabet([65, 66]) && Decoded([65, 66]) == [0] && Encoded([0]) == [65, 65]
    ensures Encoded(Decoded([65, 66])) != [65, 66]
  {
  }

  lemma CanonicalTail(t: seq<Byte>)
    requires InAlphabet(t) && |t| < 4 && |t| != 1
    ensures Encoded(Decoded(t)) == t <==> Canonical(t)
  {
    hide Enc, Dec, Encoded, Decoded;
    if |t| == 3 {
      Tail3(t);
    } else if |t| == 2 {
      Tail2(t);
    } else {
      EncodedSize([]);
      RoundTrip([]);
    }
  }

  lemma CanonicalRest(t: seq<Byte>)
    requires |t| >= 4
    ensures Canonical(t) <==> Canonical(t[4..])
  {
    hide Dec;
    var u := t[4..];
    if |u| > 0 { assert t[|t| - 1] == u[|u| - 1]; }
  }

  lemma PrefixEqual(t: seq<Byte>, v: seq<Byte>)
    requires |t| >= 4
    ensures t[..4] + v == t <==> v == t[4..]
  {
    assert t == t[..4] + t[4..];
    assert (t[..4] + v)[4..] == v;
  }

  lemma EncodedGroup(x: Byte, y: Byte, z: Byte, v: seq<Byte>)
    ensures Encoded([x, y, z] + v)
         == [Enc(x / 4), Enc(x % 4 * 16 + y / 16), Enc(y % 16 * 4 + z / 64), Enc(z % 64)] + Encoded(v)
  {
    hide Enc, Dec;
    assert ([x, y, z] + v)[3..] == v;
  }

  /** Three bytes regrouped into the values of four characters encode as those characters. */
  lemma GroupEncoded(x: Byte, y: Byte, z: Byte, t: seq<Byte>, v: seq<Byte>)
    requires |t| == 4 && InAlphabet(t)
    requires x / 4 == Dec(t[0]) && x % 4 * 16 + y / 16 == Dec(t[1])
    requires y % 16 * 4 + z / 64 == Dec(t[2]) && z % 64 == Dec(t[3])
    ensures Encoded([x, y, z] + v) == t + Encoded(v)
  {
    hide Enc, Dec, Encoded;
    EncodedGroup(x, y, z, v);
    EncDec(t[0]);
    EncDec(t[1]);
    EncDec(t[2]);
    EncDec(t[3]);
    assert t == [t[0], t[1], t[2], t[3]];
  }

  lemma GroupCanonical(t: seq<Byte>)
    requires InAlphabet(t) && |t| >= 4
    ensures Encoded(Decoded(t)) == t[..4] + Encoded(Decoded(t[4..]))
  {
    hide Enc, Dec, Encoded, Decoded;
    var x, y, z := DecodedGroup(t);
    GroupEncoded(x, y, z, t[..4], Decoded(t[4..]));
  }

  lemma DecodedGroup(t: seq<Byte>) returns (x: Byte, y: Byte, z: Byte)
    requires InAlphabet(t) && |t| >= 4
    ensures Decoded(t) == [x, y, z] + Decoded(t[4..])
    ensures x / 4 == Dec(t[0]) && x % 4 * 16 + y / 16 == Dec(t[1])
    ensures y % 16 * 4 + z / 64 == Dec(t[2]) && z % 64 == Dec(t[3])
  {
    hide Enc, Dec;
    var a, b, c, d := Dec(t[0]), Dec(t[1]), Dec(t[2]), Dec(t[3]);
    Ungroup(a, b, c, d);
    x, y, z := a * 4 + b / 16, b % 16 * 16 + c / 4, c % 4 * 64 + d;
  }

  lemma EncInjective(j: nat, k: nat)
    requires j < 64 && k < 64
    ensures Enc(j) == Enc(k) <==> j == k
  {
  }

  lemma Tail2(t: seq<Byte>)
    requires InAlphabet(t) && |t| == 2
    ensures Encoded(Decoded(t)) == t <==> Dec(t[1]) % 16 == 0
  {
    hide Enc, Dec;
    var b := Dec(t[1]);
    EncDec(t[0]);
    EncDec(t[1]);
    Ungroup(Dec(t[0]), b - b % 16, 0, 0);
    EncInjective(b, b - b % 16);
    assert Encoded(Decoded(t)) == [t[0], Enc(b - b % 16)];
  }

  lemma Tail3(t: seq<Byte>)
    requires InAlphabet(t) && |t| == 3
    ensures Encoded(Decoded(t)) == t <==> Dec(t[2]) % 4 == 0
  {
    hide Enc, Dec;
    var c := Dec(t[2]);
    EncDec(t[0]);
    EncDec(t[1]);
    EncDec(t[2]);
    Ungroup(Dec(t[0]), Dec(t[1]), c - c % 4, 0);
    EncInjective(c, c - c % 4);
    assert Encoded(Decoded(t)) == [t[0], t[1], Enc(c - c % 4)];
  }

  // ----- What base 64 means

  /** The number whose base-256 digits, most significant first, are those of `acc` and then s. */
  function BytesNumber(acc: int, s: seq<Byte>): int
    decreases |s|
  {
    if s == [] then acc else BytesNumber(acc * 256 + s[0], s[1..])
  }

  /** The same with the base-64 digits that the characters of t stand for. */
  function TextNumber(acc: int, t: seq<Byte>): int
    decreases |t|
  {
    if t == [] then acc else TextNumber(acc * 64 + Dec(t[0]), t[1..])
  }

  /** Zero bits fill up the last character: 4 after one byte, 2 after two. */
  function Padding(n: nat): nat {
    if n % 3 == 1 then 16 else if n % 3 == 2 then 4 else 1
  }

  lemma TextDigit(acc: int, a: Byte, t: seq<Byte>)
    ensures TextNumber(acc, [a] + t) == TextNumber(acc * 64 + Dec(a), t)
  {
    assert ([a] + t)[1..] == t;
  }

  lemma TextGroup(acc: int, a: Byte, b: Byte, c: Byte, d: Byte, t: seq<Byte>)
    ensures TextNumber(acc, [a, b, c, d] + t)
         == TextNumber((((acc * 64 + Dec(a)) * 64 + Dec(b)) * 64 + Dec(c)) * 64 + Dec(d), t)
  {
    hide Dec;
    TextDigit(acc, a, [b, c, d] + t);
    TextDigit(acc * 64 + Dec(a), b, [c, d] + t);
    TextDigit((acc * 64 + Dec(a)) * 64 + Dec(b), c, [d] + t);
    TextDigit(((acc * 64 + Dec(a)) * 64 + Dec(b)) * 64 + Dec(c), d, t);
    assert [a, b, c, d] + t == [a] + ([b, c, d] + t);
    assert [b, c, d] + t == [b] + ([c, d] + t);
    assert [c, d] + t == [c] + ([d] + t);
  }

  lemma BytesGroup(acc: int, s: seq<Byte>)
    requires |s| >= 3
    ensures BytesNumber(acc, s) == BytesNumber(((acc * 256 + s[0]) * 256 + s[1]) * 256 + s[2], s[3..])
  {
    assert s[1..][1..] == s[2..] && s[2..][1..] == s[3..];
    assert BytesNumber(acc, s) == BytesNumber((acc * 256 + s[0]) * 256 + s[1], s[2..]);
  }

  lemma SameNumber(acc: int, x: Byte, y: Byte, z: Byte)
    ensures (((acc * 64 + x / 4) * 64 + (x % 4 * 16 + y / 16)) * 64 + (y % 16 * 4 + z / 64)) * 64 + z % 64
         == ((acc * 256 + x) * 256 + y) * 256 + z
  {
  }

  /** The text spells the same number in base 64 as the bytes do in base 256, up to the zero
      bits that fill its last character. */
  lemma {:induction false} EncodesNumber(acc: int, s: seq<Byte>)
    ensures TextNumber(acc, Encoded(s)) == BytesNumber(acc, s) * Padding(|s|)
    decreases |s|
  {
    hide Enc, Dec, Encoded, TextNumber, BytesNumber;
    if |s| >= 3 {
      var x, y, z := s[0], s[1], s[2];
      var next := ((acc * 256 + x) * 256 + y) * 256 + z;
      EncodesNumber(next, s[3..]);
      BytesGroup(acc, s);
      assert s == [x, y, z] + s[3..];
      GroupNumber(acc, x, y, z, s[3..]);
      assert Padding(|s|) == Padding(|s[3..]|);
    } else {
      TailNumber(acc, s);
    }
  }

  lemma GroupNumber(acc: int, x: Byte, y: Byte, z: Byte, v: seq<Byte>)
    ensures TextNumber(acc, Encoded([x, y, z] + v))
         == TextNumber(((acc * 256 + x) * 256 + y) * 256 + z, Encoded(v))
  {
    hide Enc, Dec, Encoded, TextNumber;
    var a, b, c, d := x / 4, x % 4 * 16 + y / 16, y % 16 * 4 + z / 64, z % 64;
    EncodedGroup(x, y, z, v);
    DecEnc(a);
    DecEnc(b);
    DecEnc(c);
    DecEnc(d);
    TextGroup(acc, Enc(a), Enc(b), Enc(c), Enc(d), Encoded(v));
    SameNumber(acc, x, y, z);
  }

  lemma TailNumber(acc: int, s: seq<Byte>)
    requires |s| < 3
    ensures TextNumber(acc, Encoded(s)) == BytesNumber(acc, s) * Padding(|s|)
  {
    hide Enc, Dec;
    if |s| == 1 {
      var a, b := s[0] / 4, s[0] % 4 * 16;
      DecEnc(a);
      DecEnc(b);
      TextDigit(acc, Enc(a), [Enc(b)]);
      TextDigit(acc * 64 + a, Enc(b), []);
      assert [Enc(a), Enc(b)] == [Enc(a)] + [Enc(b)] && [Enc(b)] == [Enc(b)] + [];
    } else if |s| == 2 {
      var a, b, c := s[0] / 4, s[0] % 4 * 16 + s[1] / 16, s[1] % 16 * 4;
      DecEnc(a);
      DecEnc(b);
      DecEnc(c);
      TextDigit(acc, Enc(a), [Enc(b), Enc(c)]);
      TextDigit(acc * 64 + a, Enc(b), [Enc(c)]);
      TextDigit((acc * 64 + a) * 64 + b, Enc(c), []);
      assert s[1..][1..] == [];
      assert BytesNumber(acc * 256 + s[0], s[1..]) == (acc * 256 + s[0]) * 256 + s[1];
      assert [Enc(a), Enc(b), Enc(c)] == [Enc(a)] + [Enc(b), Enc(c)];
      assert [Enc(b), Enc(c)] == [Enc(b)] + [Enc(c)] && [Enc(c)] == [Enc(c)] + [];
    }
  }

  // ----- The loops work group by group

  lemma {:induction false} EncodedAppend(a: seq<Byte>, b: seq<Byte>)
    requires |a| % 3 == 0
    ensures Encoded(a + b) == Encoded(a) + Encoded(b)
  {
    hide Enc;
    if a == [] {
      assert a + b == b;
    } else {
      EncodedAppend(a[3..], b);
      assert (a + b)[3..] == a[3..] + b;
    }
  }

  lemma {:induction false} DecodedAppend(a: seq<Byte>, b: seq<Byte>)
    requires |a| % 4 == 0 && InAlphabet(a) && InAlphabet(b)
    ensures InAlphabet(a + b) && Decoded(a + b) == Decoded(a) + Decoded(b)
  {
    hide Dec, Triple;
    if a == [] {
      assert a + b == b;
    } else {
      DecodedAppend(a[4..], b);
      assert (a + b)[4..] == a[4..] + b;
    }
  }

  // ----- The encoder and the decoder

  /** The four 6-bit fields of a 24-bit word. */
  lemma Fields(x: Byte, y: Byte, z: Byte)
    ensures var v := x as int * 65536 + y as int * 256 + z;
            && v / 262144 % 64 == x / 4 && v / 4096 % 64 == x % 4 * 16 + y / 16
            && v / 64 % 64 == y % 16 * 4 + z / 64 && v % 64 == z % 64
  {
    var v := x as int * 65536 + y as int * 256 + z;
    Field(v, 262144, x / 4, x as int % 4 * 65536 + y as int * 256 + z);
    Field(v, 4096, x as int * 16 + y / 16, y as int % 16 * 256 + z);
    Field(v, 64, x as int * 1024 + y as int * 4 + z / 64, z % 64);
    Field(x as int * 16 + y / 16, 64, x / 4, x % 4 * 16 + y / 16);
    Field(x as int * 1024 + y as int * 4 + z / 64, 64, x as int * 16 + y / 16, y % 16 * 4 + z / 64);
  }

  lemma Field(v: nat, m: nat, q: nat, r: nat)
    requires m > 0 && v == m * q + r && r < m
    ensures v / m == q && v % m == r
  {
    ModUnique(v, m, q, r);
  }

  lemma ThreeTimes(k: nat)
    ensures 3 * k % 3 == 0 && 4 * k % 4 == 0
  {
    ModUnique(3 * k, 3, k, 0);
    ModUnique(4 * k, 4, k, 0);
  }

  /** The four characters of three bytes. */
  method PutGroup(out: array<Byte>, o: nat, x: Byte, y: Byte, z: Byte)
    requires o + 4 <= out.Length
    modifies out
    ensures out[..o + 4] == old(out[..o])
              + [Enc(x / 4), Enc(x % 4 * 16 + y / 16), Enc(y % 16 * 4 + z / 64), Enc(z % 64)]
    ensures forall k | o + 4 <= k < out.Length :: out[k] == old(out[k])
  {
    hide Enc;
    var v := x as int * 65536 + y as int * 256 + z;
    Fields(x, y, z);
    out[o], out[o + 1], out[o + 2], out[o + 3]
      := Enc(v / 262144 % 64), Enc(v / 4096 % 64), Enc(v / 64 % 64), Enc(v % 64);
  }

  /** The three bytes of four characters' values. */
  method PutBytes(out: array<Byte>, o: nat, a: nat, b: nat, c: nat, d: nat)
    requires o + 3 <= out.Length && a < 64 && b < 64 && c < 64 && d < 64
    modifies out
    ensures out[..o + 3] == old(out[..o]) + [a * 4 + b / 16, b % 16 * 16 + c / 4, c % 4 * 64 + d]
    ensures forall k | o + 3 <= k < out.Length :: out[k] == old(out[k])
  {
    var v := a * 262144 + b * 4096 + c * 64 + d;
    Octets(a, b, c, d);
    out[o], out[o + 1], out[o + 2] := v / 65536 % 256, v / 256 % 256, v % 256;
  }

  /** The loop over whole groups. */
  method EncodeGroups(input: seq<Byte>, out: array<Byte>) returns (i: nat, o: nat)
    requires EncodedLength(|input|) < out.Length
    modifies out
    ensures i == |input| / 3 * 3 && o == |input| / 3 * 4
    ensures out[..o] == Encoded(input[..i])
    ensures forall k | o <= k < out.Length :: out[k] == old(out[k])
  {
    hide Enc, Encoded;
    i, o := 0, 0;
    ghost var k := 0;
    EncodedSize([]);
    while i + 3 <= |input|
      invariant i == 3 * k <= |input| && o == 4 * k
      invariant out[..o] == Encoded(input[..i])
      invariant forall k | o <= k < out.Length :: out[k] == old(out[k])
    {
      PutGroup(out, o, input[i], input[i + 1], input[i + 2]);
      ThreeTimes(k);
      EncodedNext(input, i);
      i, o, k := i + 3, o + 4, k + 1;
    }
  }

  /** portico_b64url_encode: refused exactly when text and terminator do not fit. */
  method Encode(input: seq<Byte>, out: array<Byte>) returns (n: int)
    modifies out
    ensures n == -1 <==> EncodedLength(|input|) + 1 > out.Length
    ensures n == -1 ==> out[..] == old(out[..])
    ensures n != -1 ==> 0 <= n < out.Length && out[..n] == Encoded(input) && out[n] == 0
    ensures n != -1 ==> forall k | n < k < out.Length :: out[k] == old(out[k])
  {
    hide Enc, Encoded;
    var rem := |input| % 3;
    var outlen := |input| / 3 * 4 + if rem != 0 then rem + 1 else 0;
    if outlen + 1 > out.Length {
      return -1;
    }
    var i, o := EncodeGroups(input, out);
    EncodedRest(input, i);
    EncodedShort(input[i..]);
    if rem == 1 {
      var v := input[i] as int * 65536;
      Fields(input[i], 0, 0);
      out[o], out[o + 1] := Enc(v / 262144 % 64), Enc(v / 4096 % 64);
      o := o + 2;
    } else if rem == 2 {
      var v := input[i] as int * 65536 + input[i + 1] as int * 256;
      Fields(input[i], input[i + 1], 0);
      out[o], out[o + 1], out[o + 2] := Enc(v / 262144 % 64), Enc(v / 4096 % 64), Enc(v / 64 % 64);
      o := o + 3;
    }
    out[o] := 0;
    n := o;
  }

  /** One more whole group. */
  lemma EncodedNext(s: seq<Byte>, i: nat)
    requires i % 3 == 0 && i + 3 <= |s|
    ensures var x, y, z := s[i], s[i + 1], s[i + 2];
            Encoded(s[..i + 3]) == Encoded(s[..i])
              + [Enc(x / 4), Enc(x % 4 * 16 + y / 16), Enc(y % 16 * 4 + z / 64), Enc(z % 64)]
  {
    hide Enc;
    var g := [s[i], s[i + 1], s[i + 2]];
    assert s[..i + 3] == s[..i] + g;
    EncodedAppend(s[..i], g);
    EncodedSize([]);
    assert g[3..] == [];
  }

  /** The incomplete group at the end. */
  lemma EncodedRest(s: seq<Byte>, i: nat)
    requires i % 3 == 0 && i <= |s| < i + 3
    ensures Encoded(s) == Encoded(s[..i]) + Encoded(s[i..])
  {
    assert s == s[..i] + s[i..];
    EncodedAppend(s[..i], s[i..]);
  }

  lemma EncodedShort(g: seq<Byte>)
    requires |g| < 3
    ensures |g| == 0 ==> Encoded(g) == []
    ensures |g| == 1 ==> Encoded(g) == [Enc(g[0] / 4), Enc(g[0] % 4 * 16)]
    ensures |g| == 2 ==> Encoded(g) == [Enc(g[0] / 4), Enc(g[0] % 4 * 16 + g[1] / 16), Enc(g[1] % 16 * 4)]
  {
    hide Enc;
  }

  /** The reverse table that the decoder fills in before it starts. */
  method DecodeTable() returns (dec: array<int>)
    ensures fresh(dec) && dec.Length == 256
    ensures forall c: Byte :: dec[c] == Dec(c)
  {
    hide Enc, Dec;
    dec := new int[256](_ => -1);
    for k := 0 to 64
      invariant forall c: Byte :: dec[c] == if Dec(c) < k then Dec(c) else -1
    {
      DecEnc(k);
      forall c: Byte | Dec(c) == k ensures c == Enc(k) {
        EncDec(c);
      }
      dec[Enc(k)] := k;
    }
  }

  /** The three bytes of a 24-bit word. */
  lemma Octets(a: nat, b: nat, c: nat, d: nat)
    requires a < 64 && b < 64 && c < 64 && d < 64
    ensures var v := a * 262144 + b * 4096 + c * 64 + d;
            && v / 65536 % 256 == a * 4 + b / 16
            && v / 256 % 256 == b % 16 * 16 + c / 4 && v % 256 == c % 4 * 64 + d
  {
    var v := a * 262144 + b * 4096 + c * 64 + d;
    Field(v, 65536, a * 4 + b / 16, b % 16 * 4096 + c * 64 + d);
    Field(v, 256, a * 1024 + b * 16 + c / 4, c % 4 * 64 + d);
    Field(a * 1024 + b * 16 + c / 4, 256, a * 4 + b / 16, b % 16 * 16 + c / 4);
  }

  /** One more whole group. */
  lemma DecodedNext(t: seq<Byte>, i: nat)
    requires i % 4 == 0 && i + 4 <= |t| && InAlphabet(t[..i])
    requires Dec(t[i]) >= 0 && Dec(t[i + 1]) >= 0 && Dec(t[i + 2]) >= 0 && Dec(t[i + 3]) >= 0
    ensures InAlphabet(t[..i + 4])
    ensures var a, b, c, d := Dec(t[i]), Dec(t[i + 1]), Dec(t[i + 2]), Dec(t[i + 3]);
            Decoded(t[..i + 4]) == Decoded(t[..i]) + [a * 4 + b / 16, b % 16 * 16 + c / 4, c % 4 * 64 + d]
  {
    hide Dec;
    var g := [t[i], t[i + 1], t[i + 2], t[i + 3]];
    assert t[..i + 4] == t[..i] + g;
    DecodedAppend(t[..i], g);
    assert Decoded([]) == [];
    assert g[4..] == [];
  }

  /** The incomplete group at the end. */
  lemma DecodedRest(t: seq<Byte>, i: nat)
    requires i % 4 == 0 && i <= |t| < i + 4 && InAlphabet(t[..i]) && InAlphabet(t[i..])
    ensures InAlphabet(t) && Decoded(t) == Decoded(t[..i]) + Decoded(t[i..])
  {
    hide Dec, Decoded;
    assert t == t[..i] + t[i..];
    DecodedAppend(t[..i], t[i..]);
  }

  lemma DecodedShort(g: seq<Byte>)
    requires |g| < 4 && InAlphabet(g)
    ensures |g| == 0 ==> Decoded(g) == []
    ensures |g| == 2 ==> Decoded(g) == [Dec(g[0]) * 4 + Dec(g[1]) / 16]
    ensures |g| == 3 ==> Decoded(g) == [Dec(g[0]) * 4 + Dec(g[1]) / 16, Dec(g[1]) % 16 * 16 + Dec(g[2]) / 4]
  {
    hide Dec;
  }

  predicate Decodable(t: seq<Byte>, capacity: nat) {
    |t| % 4 != 1 && InAlphabet(t) && DecodedLength(|t|) <= capacity
  }

  /** The loop over whole groups; -1 when a character or the output's end stops it. */
  method DecodeGroups(dec: array<int>, input: seq<Byte>, out: array<Byte>) returns (i: nat, o: int)
    requires dec.Length == 256 && forall c: Byte :: dec[c] == Dec(c)
    requires |input| % 4 != 1
    modifies out
    ensures dec[..] == old(dec[..])
    ensures o == -1 ==> !Decodable(input, out.Length)
    ensures o != -1 ==> i == |input| / 4 * 4 && o == |input| / 4 * 3 <= out.Length && InAlphabet(input[..i])
    ensures o != -1 ==> out[..o] == Decoded(input[..i])
    ensures o != -1 ==> forall k | o <= k < out.Length :: out[k] == old(out[k])
  {
    hide Dec, Decoded;
    i, o := 0, 0;
    ghost var k := 0;
    DecodedSize([]);
    while i + 4 <= |input|
      invariant i == 4 * k <= |input| && o == 3 * k <= out.Length
      invariant InAlphabet(input[..i]) && out[..o] == Decoded(input[..i])
      invariant forall k | o <= k < out.Length :: out[k] == old(out[k])
      invariant dec[..] == old(dec[..]) && forall c: Byte :: dec[c] == Dec(c)
    {
      var a, b, c, d := dec[input[i]], dec[input[i + 1]], dec[input[i + 2]], dec[input[i + 3]];
      if a < 0 || b < 0 || c < 0 || d < 0 {
        return i, -1;
      }
      if o + 3 > out.Length {
        return i, -1;
      }
      PutBytes(out, o, a, b, c, d);
      ThreeTimes(k);
      DecodedNext(input, i);
      i, o, k := i + 4, o + 3, k + 1;
    }
  }

  /** portico_b64url_decode: succeeds exactly on texts of a possible length, over the alphabet,
      whose bytes fit. */
  method Decode(input: seq<Byte>, out: array<Byte>) returns (n: int)
    modifies out
    ensures n == -1 <==> !Decodable(input, out.Length)
    ensures n != -1 ==> n == DecodedLength(|input|) && out[..n] == Decoded(input)
    ensures n != -1 ==> forall k | n <= k < out.Length :: out[k] == old(out[k])
  {
    hide Dec, Decoded;
    var dec := DecodeTable();
    if |input| % 4 == 1 {
      return -1;
    }
    var i, o := DecodeGroups(dec, input, out);
    if o == -1 {
      return -1;
    }
    assert forall c: Byte :: dec[c] == dec[..][c];
    var tail := |input| - i;
    if tail == 2 {
      var a, b := dec[input[i]], dec[input[i + 1]];
      if a < 0 || b < 0 {
        return -1;
      }
      if o + 1 > out.Length {
        return -1;
      }
      Octets(a, b, 0, 0);
      DecodedRest(input, i);
      DecodedShort(input[i..]);
      out[o] := (a * 262144 + b * 4096) / 65536 % 256;
      o := o + 1;
    } else if tail == 3 {
      var a, b, c := dec[input[i]], dec[input[i + 1]], dec[input[i + 2]];
      if a < 0 || b < 0 || c < 0 {
        return -1;
      }
      if o + 2 > out.Length {
        return -1;
      }
      var v := a * 262144 + b * 4096 + c * 64;
      Octets(a, b, c, 0);
      DecodedRest(input, i);
      DecodedShort(input[i..]);
      out[o], out[o + 1] := v / 65536 % 256, v / 256 % 256;
      o := o + 2;
    } else {
      DecodedRest(input, i);
      DecodedShort(input[i..]);
    }
    n := o;
  }
}
