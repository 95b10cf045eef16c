/** Padding to whole blocks with a fill character, and stripping it again. */
module Padding {

  /** Bytes of the padded buffer for a message of n bytes. */
  function PaddedLength(n: nat): (r: nat)
    ensures n <= r < n + 16 && r % 16 == 0
  {
    var extra, count := n % 16, n / 16;
    if extra != 0 then (count + 1) * 16 else count * 16
  }

  lemma WholeBlocks(k: nat)
    ensures 16 * k % 16 == 0 && PaddedLength(16 * k) == 16 * k
  {}

  function Padded(m: seq<bv8>, fill: bv8): (p: seq<bv8>)
    ensures |p| == PaddedLength(|m|) && p[..|m|] == m && forall k | |m| <= k < |p| :: p[k] == fill
  {
    m + seq(PaddedLength(|m|) - |m|, _ => fill)
  }

  /** Whether a stored byte compares equal to the fill character. The byte is unsigned; the
      character is a plain char, so where chars are signed a fill of 128 or more is negative
      and no byte equals it. */
  predicate Matches(b: bv8, fill: bv8, signedChar: bool) {
    b == fill && !(signedChar && fill >= 0x80)
  }

  function Stripped(s: seq<bv8>, fill: bv8, signedChar: bool): (r: seq<bv8>)
    ensures r <= s
  {
    if s != [] && Matches(s[|s| - 1], fill, signedChar) then Stripped(s[..|s| - 1], fill, signedChar) else s
  }

  lemma StripStep(s: seq<bv8>, n: nat, fill: bv8, signedChar: bool)
    requires 0 < n <= |s|
    ensures Stripped(s[..n], fill, signedChar)
         == if Matches(s[n - 1], fill, signedChar) then Stripped(s[..n - 1], fill, signedChar) else s[..n]
  {
    assert s[..n][..n - 1] == s[..n - 1];
  }

  lemma {:induction false} StripFill(m: seq<bv8>, fill: bv8, signedChar: bool, n: nat)
    requires Matches(fill, fill, signedChar)
    ensures Stripped(m + seq(n, _ => fill), fill, signedChar) == Stripped(m, fill, signedChar)
  {
    var s := m + seq(n, _ => fill);
    if n == 0 {
      assert s == m;
    } else {
      StripFill(m, fill, signedChar, n - 1);
      assert s[..|s| - 1] == m + seq(n - 1, _ => fill);
    }
  }

  /** The stripped text has no trailing fill, and only fill was removed. */
  lemma {:induction false} StrippedIsLongestWithoutFill(s: seq<bv8>, fill: bv8, signedChar: bool)
    ensures var r := Stripped(s, fill, signedChar);
            && (signedChar && fill >= 0x80 ==> r == s)
            && (r == [] || r[|r| - 1] != fill || (signedChar && fill >= 0x80))
            && forall k | |r| <= k < |s| :: s[k] == fill
  {
    if s != [] && Matches(s[|s| - 1], fill, signedChar) {
      StrippedIsLongestWithoutFill(s[..|s| - 1], fill, signedChar);
      var r := Stripped(s, fill, signedChar);
      forall k | |r| <= k < |s|
        ensures s[k] == fill
      {
        if k < |s| - 1 {
          assert s[k] == s[..|s| - 1][k];
        }
      }
    }
  }

  /** What stripping makes of a padded message: the message without its own trailing fill, or the
      padded message itself when the fill can never match. */
  lemma StripOfPadded(m: seq<bv8>, fill: bv8, signedChar: bool)
    ensures Stripped(Padded(m, fill), fill, signedChar)
         == if Matches(fill, fill, signedChar) then Stripped(m, fill, signedChar) else Padded(m, fill)
  {
    if Matches(fill, fill, signedChar) {
      StripFill(m, fill, signedChar, PaddedLength(|m|) - |m|);
    }
  }

  lemma StripUndoesPadExactlyIf(m: seq<bv8>, fill: bv8, signedChar: bool)
    ensures Stripped(Padded(m, fill), fill, signedChar) == m
            <==> if signedChar && fill >= 0x80 then |m| % 16 == 0 else m == [] || m[|m| - 1] != fill
  {
    StripOfPadded(m, fill, signedChar);
    if Matches(fill, fill, signedChar) {
      StrippedIsLongestWithoutFill(m, fill, signedChar);
    } else if |m| % 16 != 0 {
      assert |Padded(m, fill)| > |m|;
    }
  }
}
