/** Bitwise operations on natural numbers, defined bit by bit, and little-endian words.
    A machine word of any width is the natural number it denotes. */
module Bits {

  type Byte = x: int | 0 <= x < 256

  function Pow2(k: nat): (r: nat)
    ensures r > 0
  {
    if k == 0 then 1 else 2 * Pow2(k - 1)
  }

  function Xor(a: nat, b: nat): nat {
    if a == 0 && b == 0 then 0
    else 2 * Xor(a / 2, b / 2) + if a % 2 == b % 2 then 0 else 1
  }

  function And(a: nat, b: nat): nat {
    if a == 0 || b == 0 then 0
    else 2 * And(a / 2, b / 2) + if a % 2 == 1 == b % 2 then 1 else 0
  }

  /** Masking with 2^k - 1 keeps the remainder modulo 2^k. */
  lemma {:induction false} AndMask(a: nat, k: nat)
    ensures And(a, Pow2(k) - 1) == a % Pow2(k)
  {
    hide And;
    if k == 0 {
      AndNone(a);
    } else {
      AndMask(a / 2, k - 1);
      AndOdd(a, Pow2(k - 1));
      HalfMod(a, Pow2(k - 1));
    }
  }

  lemma AndNone(a: nat)
    ensures And(a, 0) == 0
  {
  }

  lemma AndOdd(a: nat, m: nat)
    requires m > 0
    ensures And(a, 2 * m - 1) == 2 * And(a / 2, m - 1) + a % 2
  {
    assert (2 * m - 1) / 2 == m - 1 && (2 * m - 1) % 2 == 1;
  }

  lemma HalfMod(a: nat, m: nat)
    requires m > 0
    ensures a % (2 * m) == 2 * (a / 2 % m) + a % 2
  {
    var q, r := a / 2 / m, a / 2 % m;
    assert a / 2 == m * q + r;
    assert a == 2 * m * q + (2 * r + a % 2);
    ModUnique(a, 2 * m, q, 2 * r + a % 2);
  }

  lemma {:induction false} MulGap(m: nat, x: nat, y: nat)
    requires x < y
    ensures m * x + m <= m * y
  {
    assert m * y == m * (y - 1) + m;
    if x + 1 < y {
      MulGap(m, x, y - 1);
    }
  }

  /** Quotient and remainder are unique. */
  lemma ModUnique(a: nat, m: nat, q: nat, r: nat)
    requires m > 0 && r < m && a == m * q + r
    ensures a % m == r && a / m == q
  {
    var q', r' := a / m, a % m;
    assert a == m * q' + r';
    if q < q' {
      MulGap(m, q, q');
    } else if q' < q {
      MulGap(m, q', q);
    }
  }

  lemma {:induction false} XorZero(a: nat)
    ensures Xor(a, 0) == a
  {
    if a > 0 {
      XorZero(a / 2);
    }
  }

  lemma {:induction false} XorInvolution(a: nat, b: nat)
    ensures Xor(Xor(a, b), b) == a
  {
    if a > 0 || b > 0 {
      XorInvolution(a / 2, b / 2);
      var x := Xor(a / 2, b / 2);
      var y := if a % 2 == b % 2 then 0 else 1;
      assert Xor(a, b) == 2 * x + y;
      assert (2 * x + y) / 2 == x && (2 * x + y) % 2 == y;
    }
  }

  lemma {:induction false} XorBound(a: nat, b: nat, k: nat)
    requires a < Pow2(k) && b < Pow2(k)
    ensures Xor(a, b) < Pow2(k)
  {
    if (a > 0 || b > 0) && k > 0 {
      XorBound(a / 2, b / 2, k - 1);
    }
  }

  /** XOR works on the low k bits and on the rest separately. */
  lemma {:induction false} XorSplit(a: nat, b: nat, a': nat, b': nat, k: nat)
    requires a < Pow2(k) && b < Pow2(k)
    ensures Xor(a + Pow2(k) * a', b + Pow2(k) * b') == Xor(a, b) + Pow2(k) * Xor(a', b')
    decreases k
  {
    hide Xor;
    if k == 0 {
      XorZero(0);
    } else {
      var m := Pow2(k - 1);
      XorSplit(a / 2, b / 2, a', b', k - 1);
      XorUnfold(a + Pow2(k) * a', b + Pow2(k) * b', a, b, m * a', m * b');
      XorUnfold(a, b, a, b, 0, 0);
      Double(m, a');
      Double(m, b');
      Double(m, Xor(a', b'));
    }
  }

  lemma Double(m: nat, x: nat)
    ensures 2 * m * x == 2 * (m * x)
  {
  }

  /** One bit of XOR, with the operands given as x == a + 2 * a' and y == b + 2 * b'. */
  lemma XorUnfold(x: nat, y: nat, a: nat, b: nat, a': nat, b': nat)
    requires x == a + 2 * a' && y == b + 2 * b'
    ensures Xor(x, y) == 2 * Xor(a / 2 + a', b / 2 + b') + if a % 2 == b % 2 then 0 else 1
  {
    assert x / 2 == a / 2 + a' && x % 2 == a % 2;
    assert y / 2 == b / 2 + b' && y % 2 == b % 2;
  }

  /** XOR of two bytes. */
  function XorByte(a: Byte, b: Byte): Byte {
    XorBound(a, b, 8);
    Xor(a, b)
  }

  /** The word with these bytes, lowest first. */
  function Word(bytes: seq<Byte>): nat {
    if bytes == [] then 0 else bytes[0] + 256 * Word(bytes[1..])
  }

  /** The n lowest bytes of a word, lowest first. */
  function Bytes(w: nat, n: nat): (r: seq<Byte>)
    ensures |r| == n
  {
    if n == 0 then [] else [w % 256] + Bytes(w / 256, n - 1)
  }

  lemma {:induction false} BytesOfWord(bytes: seq<Byte>)
    ensures Bytes(Word(bytes), |bytes|) == bytes
  {
    if bytes != [] {
      BytesOfWord(bytes[1..]);
      ModUnique(256 * Word(bytes[1..]) + bytes[0], 256, Word(bytes[1..]), bytes[0]);
    }
  }

  /** XOR of two words is XOR of their bytes, at any width. */
  lemma {:induction false} XorWord(a: seq<Byte>, b: seq<Byte>)
    requires |a| == |b|
    ensures Xor(Word(a), Word(b)) == Word(seq(|a|, i requires 0 <= i < |a| => XorByte(a[i], b[i])))
  {
    if a != [] {
      XorWord(a[1..], b[1..]);
      XorSplit(a[0], b[0], Word(a[1..]), Word(b[1..]), 8);
      var x := seq(|a|, i requires 0 <= i < |a| => XorByte(a[i], b[i]));
      assert x[1..] == seq(|a| - 1, i requires 0 <= i < |a| - 1 => XorByte(a[1..][i], b[1..][i]));
    }
  }
}
