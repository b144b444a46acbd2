/** Facts about slices that the byte buffers need. */
module Seqs {

  lemma SubSlice<T>(s: seq<T>, lo: nat, hi: nat, i: nat, j: nat)
    requires lo <= hi <= |s| && i <= j <= hi - lo
    ensures s[lo..hi][i..j] == s[lo + i..lo + j]
  {
    var t := s[lo..hi];
    assert forall k | 0 <= k < hi - lo :: t[k] == s[lo + k];
    forall k | 0 <= k < j - i ensures t[i..j][k] == s[lo + i..lo + j][k] {
      assert t[i..j][k] == t[i + k];
    }
  }

  lemma Middle<T>(a: seq<T>, b: seq<T>, c: seq<T>)
    ensures (a + b + c)[|a|..|a| + |b|] == b
  {
    assert a + b + c == a + (b + c);
  }

  /** Slicing a concatenation of five parts gives the middle three back. */
  lemma Parts<T>(a: seq<T>, b: seq<T>, c: seq<T>, d: seq<T>, e: seq<T>)
    ensures var s, i := a + b + c + d + e, |a| + |b|;
            s[..|a|] == a && s[|a|..i] == b && s[i..i + |c|] == c && s[i + |c|..i + |c| + |d|] == d
  {
    var s := a + b + c + d + e;
    assert s == a + b + (c + d + e) == a + b + c + (d + e);
    Middle(a, b, c + d + e);
    Middle(a + b, c, d + e);
    Middle(a + b + c, d, e);
  }

  lemma LastApart<T>(s: seq<T>)
    requires s != []
    ensures s == s[..|s| - 1] + [s[|s| - 1]]
  {
  }
}
