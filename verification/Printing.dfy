/** What is seen of a stripped text when it is printed as a string, whose end is its first NUL. */
module Printing {
  import opened Padding

  /** The bytes up to the first NUL. */
  function CString(s: seq<bv8>): (c: seq<bv8>)
    ensures 0 !in c && |c| <= |s|
  {
    if s == [] || s[0] == 0 then [] else [s[0]] + CString(s[1..])
  }

  lemma {:induction false} WholeCString(s: seq<bv8>)
    ensures CString(s) == s <==> 0 !in s
  {
    if s != [] && s[0] != 0 {
      WholeCString(s[1..]);
      assert s == [s[0]] + s[1..];
    }
  }

  lemma {:induction false} CStringEnds(s: seq<bv8>, rest: seq<bv8>)
    ensures CString(s + [0] + rest) == CString(s)
  {
    if s == [] {
      assert (s + [0] + rest)[0] == 0;
    } else {
      CStringEnds(s[1..], rest);
      assert (s + [0] + rest)[1..] == s[1..] + [0] + rest;
    }
  }

  /** What is printed of a text s that was stripped out of so many bytes: the NUL stands one place too
      far behind, so one fill character is printed with it. */
  function Printed(s: seq<bv8>, length: nat, fill: bv8): seq<bv8> {
    CString(s + if |s| < length then [fill] else [])
  }

  /** Whether a message is printed as it was after padding and stripping: it has no NUL, and no fill
      character is left behind it, or that one takes the place of the only one it ends in. */
  predicate PrintsWell(m: seq<bv8>, fill: bv8, signedChar: bool) {
    && 0 !in m
    && if !Matches(fill, fill, signedChar) then |m| % 16 == 0
       else if fill == 0 then true
       else if m == [] || m[|m| - 1] != fill then |m| % 16 == 0
       else |m| == 1 || m[|m| - 2] != fill
  }

  lemma PrintedIsMessageExactlyIf(m: seq<bv8>, fill: bv8, signedChar: bool)
    ensures Printed(Stripped(Padded(m, fill), fill, signedChar), PaddedLength(|m|), fill) == m
            <==> && 0 !in m
                 && if signedChar && fill >= 0x80 then |m| % 16 == 0
                    else if fill == 0 then true
                    else if m == [] || m[|m| - 1] != fill then |m| % 16 == 0
                    else |m| == 1 || m[|m| - 2] != fill
  {
    hide CString, Stripped;
    StripOfPadded(m, fill, signedChar);
    if Matches(fill, fill, signedChar) {
      StrippedPrinted(m, fill, signedChar);
    } else {
      PaddedPrinted(m, fill);
    }
  }

  lemma PaddedPrinted(m: seq<bv8>, fill: bv8)
    requires fill != 0
    ensures Printed(Padded(m, fill), PaddedLength(|m|), fill) == m <==> 0 !in m && |m| % 16 == 0
  {
    hide CString;
    var s := Padded(m, fill);
    assert s + [] == s;
    WholeCString(s);
    assert forall k | 0 <= k < |s| :: s[k] == if k < |m| then m[k] else fill;
    assert forall k | 0 <= k < |m| :: m[k] == s[k];
    if |m| % 16 == 0 {
      assert s == m;
    }
  }

  lemma NothingStripped(m: seq<bv8>, fill: bv8, signedChar: bool)
    requires fill !in m
    ensures Stripped(m, fill, signedChar) == m
  {}

  /** The text without its fill, and one fill character where some is gone: is it the message? */
  lemma OneFillBack(m: seq<bv8>, fill: bv8, signedChar: bool)
    requires Matches(fill, fill, signedChar)
    ensures var s := Stripped(m, fill, signedChar);
            s + (if |s| < PaddedLength(|m|) then [fill] else []) == m
            <==> if m == [] || m[|m| - 1] != fill then |m| % 16 == 0 else |m| == 1 || m[|m| - 2] != fill
  {
    hide Stripped;
    StrippedIsLongestWithoutFill(m, fill, signedChar);
    var s := Stripped(m, fill, signedChar);
    if |s| + 1 == |m| {
      assert m == s + [m[|s|]];
    } else if |s| + 1 < |m| {
      assert m[|m| - 2] == m[|m| - 1] == fill;
    }
  }

  lemma StrippedPrinted(m: seq<bv8>, fill: bv8, signedChar: bool)
    requires Matches(fill, fill, signedChar)
    ensures Printed(Stripped(m, fill, signedChar), PaddedLength(|m|), fill) == m <==> PrintsWell(m, fill, signedChar)
  {
    hide CString, Stripped, PaddedLength;
    var s, n := Stripped(m, fill, signedChar), PaddedLength(|m|);
    var x := s + if |s| < n then [fill] else [];
    WholeCString(x);
    if 0 !in m {
      if |s| < n && fill == 0 {
        NothingStripped(m, fill, signedChar);
        assert x == m + [0] + [];
        CStringEnds(m, []);
        WholeCString(m);
      } else {
        assert forall k | 0 <= k < |s| :: s[k] == m[k];
        assert 0 !in x;
        OneFillBack(m, fill, signedChar);
      }
    }
  }

  /** In a buffer with the fill that came off, or a NUL, behind the first r bytes, and a NUL behind that. */
  lemma PrintedAt(plain: seq<bv8>, b: seq<bv8>, r: nat, length: nat, fill: bv8)
    requires r <= length && length + 2 <= |b| && plain == b[r + 1 := 0]
    requires b[r] == if r < length then fill else 0
    ensures CString(plain) == Printed(plain[..r], length, fill)
  {
    hide CString;
    if r < length {
      assert plain == (plain[..r] + [fill]) + [0] + plain[r + 2..];
      CStringEnds(plain[..r] + [fill], plain[r + 2..]);
    } else {
      assert plain == plain[..r] + [0] + plain[r + 1..];
      CStringEnds(plain[..r], plain[r + 1..]);
      assert plain[..r] + [] == plain[..r];
    }
  }
}
