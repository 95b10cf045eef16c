/** Facts about parts of sequences that are stated once and used where buffers are cut up. */
module Slices {

  lemma PartOfSlice<T>(s: seq<T>, off: nat, n: nat, i: nat, m: nat)
    requires off + n <= |s| && i + m <= n
    ensures s[off..off + n][i..i + m] == s[off + i..off + i + m]
  {
    var x, y := s[off..off + n][i..i + m], s[off + i..off + i + m];
    forall k | 0 <= k < m
      ensures x[k] == y[k]
    {
      assert s[off..off + n][i + k] == s[off + i + k];
    }
  }

  lemma LongerPrefix<T>(s: seq<T>, t: seq<T>, n: nat, m: nat)
    requires n + m <= |s| && n + m <= |t| && s[..n] == t[..n] && s[n..n + m] == t[n..n + m]
    ensures s[..n + m] == t[..n + m]
  {
    assert s[..n + m] == s[..n] + s[n..n + m];
    assert t[..n + m] == t[..n] + t[n..n + m];
  }
}
