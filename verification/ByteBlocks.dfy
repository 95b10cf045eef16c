/** Byte buffers of whole blocks, and the blocks they hold. */
module ByteBlocks {
  import opened AesState
  import opened CbcMode

  function BlockBytes(s: State): (b: seq<bv8>)
    ensures |b| == 16 && StateAt(b, 0) == s
  {
    [s.c0.b0, s.c0.b1, s.c0.b2, s.c0.b3, s.c1.b0, s.c1.b1, s.c1.b2, s.c1.b3,
     s.c2.b0, s.c2.b1, s.c2.b2, s.c2.b3, s.c3.b0, s.c3.b1, s.c3.b2, s.c3.b3]
  }

  function ToBytes(bs: Blocks): (s: seq<bv8>)
    ensures |s| == 16 * |bs|
  {
    if bs == [] then [] else ToBytes(bs[..|bs| - 1]) + BlockBytes(bs[|bs| - 1])
  }

  function ToBlocks(s: seq<bv8>): (bs: Blocks)
    requires |s| % 16 == 0
    ensures |bs| == |s| / 16
  {
    seq(|s| / 16, i requires 0 <= i < |s| / 16 => StateAt(s, 16 * i))
  }

  lemma BytesOfState(s: seq<bv8>, off: nat)
    requires off + 16 <= |s|
    ensures BlockBytes(StateAt(s, off)) == s[off..off + 16]
  {}

  lemma ByteOfBlock(s: State, j: nat)
    requires j < 16
    ensures BlockBytes(s)[j] == Cell(s, j % 4, j / 4)
  {
    if j < 8 {
      assert j == 0 || j == 1 || j == 2 || j == 3 || j == 4 || j == 5 || j == 6 || j == 7;
    } else {
      assert j == 8 || j == 9 || j == 10 || j == 11 || j == 12 || j == 13 || j == 14 || j == 15;
    }
  }

  lemma {:induction false} BlockInBytes(bs: Blocks, i: nat)
    requires i < |bs|
    ensures StateAt(ToBytes(bs), 16 * i) == bs[i]
  {
    var n := |bs| - 1;
    var before, last := ToBytes(bs[..n]), BlockBytes(bs[n]);
    if i < n {
      BlockInBytes(bs[..n], i);
    } else {
      assert StateAt(before + last, 16 * n) == StateAt(last, 0);
    }
  }

  lemma BlocksOfBytes(bs: Blocks)
    ensures ToBlocks(ToBytes(bs)) == bs
  {
    hide ToBytes;
    forall i | 0 <= i < |bs|
      ensures ToBlocks(ToBytes(bs))[i] == bs[i]
    {
      BlockInBytes(bs, i);
    }
  }

  lemma {:induction false} BytesOfBlocks(s: seq<bv8>)
    requires |s| % 16 == 0
    ensures ToBytes(ToBlocks(s)) == s
    decreases |s|
  {
    hide StateAt, BlockBytes;
    if s != [] {
      var n := |s| - 16;
      BytesOfBlocks(s[..n]);
      forall i | 0 <= i < n / 16
        ensures StateAt(s, 16 * i) == StateAt(s[..n], 16 * i)
      {
        SamePrefixSameState(s, s[..n], 16 * i);
      }
      assert ToBlocks(s)[..n / 16] == ToBlocks(s[..n]);
      BytesOfState(s, n);
      assert s == s[..n] + s[n..];
    }
  }

  lemma SameBytesSameState(s: seq<bv8>, off: nat, t: seq<bv8>, at: nat)
    requires off + 16 <= |s| && at + 16 <= |t|
    requires s[off..off + 16] == t[at..at + 16]
    ensures StateAt(s, off) == StateAt(t, at)
  {
    var b := s[off..off + 16];
    assert StateAt(s, off) == StateAt(b, 0);
    assert StateAt(t, at) == StateAt(b, 0);
  }

  lemma SamePrefixSameState(s: seq<bv8>, t: seq<bv8>, off: nat)
    requires off + 16 <= |t| && t <= s
    ensures StateAt(s, off) == StateAt(t, off)
  {}

  // ----- Buffers that hold a run of blocks at an offset -----

  /** The buffer s with the bytes b written at off. */
  function Splice(s: seq<bv8>, off: nat, b: seq<bv8>): (r: seq<bv8>)
    requires off + |b| <= |s|
    ensures |r| == |s|
  {
    s[..off] + b + s[off + |b|..]
  }

  lemma SpliceBlock(now: seq<bv8>, before: seq<bv8>, off: nat)
    requires |now| == |before| && off + 16 <= |now|
    requires forall p | 0 <= p < |now| && !(off <= p < off + 16) :: now[p] == before[p]
    ensures now == Splice(before, off, BlockBytes(StateAt(now, off)))
  {
    BytesOfState(now, off);
    hide BlockBytes, StateAt;
    assert now == now[..off] + now[off..off + 16] + now[off + 16..];
  }

  lemma {:induction false} BytesInTwoParts(bs: Blocks, a: nat, b: nat)
    requires a <= b <= |bs|
    ensures ToBytes(bs[..a]) + ToBytes(bs[a..b]) == ToBytes(bs[..b])
    decreases b
  {
    hide BlockBytes;
    if a < b {
      BytesInTwoParts(bs, a, b - 1);
      assert bs[..b][..b - 1] == bs[..b - 1];
      assert bs[a..b][..b - a - 1] == bs[a..b - 1];
    }
  }

  /** Writing more blocks behind the a already written. */
  lemma SpliceInTwoParts(s: seq<bv8>, off: nat, bs: Blocks, a: nat, b: nat)
    requires a <= b <= |bs| && off + 16 * b <= |s|
    ensures Splice(Splice(s, off, ToBytes(bs[..a])), off + 16 * a, ToBytes(bs[a..b]))
         == Splice(s, off, ToBytes(bs[..b]))
  {
    hide ToBytes;
    BytesInTwoParts(bs, a, b);
  }

  lemma OneBlock(bs: Blocks, k: nat)
    requires k < |bs|
    ensures ToBytes(bs[k..k + 1]) == BlockBytes(bs[k])
  {
    hide BlockBytes;
    assert bs[k..k + 1] == [bs[k]];
  }

  lemma SpliceEnds(s: seq<bv8>, off: nat, bs: Blocks)
    requires off <= |s|
    ensures Splice(s, off, ToBytes(bs[..0])) == s
    ensures bs[..|bs|] == bs
  {}

  /** What is outside the bytes written is still there. */
  lemma SpliceAside(s: seq<bv8>, off: nat, b: seq<bv8>, at: nat, n: nat)
    requires off + |b| <= |s| && at + n <= |s| && (at + n <= off || off + |b| <= at)
    ensures Splice(s, off, b)[at..at + n] == s[at..at + n]
  {}

  lemma SpliceAll(s: seq<bv8>, b: seq<bv8>)
    requires |b| == |s|
    ensures Splice(s, 0, b) == b
  {}

  lemma SpliceSame(s: seq<bv8>, off: nat, n: nat)
    requires off + n <= |s|
    ensures Splice(s, off, s[off..off + n]) == s
  {}

  lemma StateOfRegion(s: seq<bv8>, off: nat, n: nat, i: nat)
    requires off + n <= |s| && i + 16 <= n
    ensures StateAt(s[off..off + n], i) == StateAt(s, off + i)
  {}

  lemma BlockOfRegion(s: seq<bv8>, off: nat, n: nat, k: nat)
    requires off + n <= |s| && n % 16 == 0 && k < n / 16
    ensures ToBlocks(s[off..off + n])[k] == StateAt(s, off + 16 * k)
  {
    hide StateAt;
    StateOfRegion(s, off, n, 16 * k);
  }

  // ----- Two runs of blocks written to one buffer or to two -----

  /** The buffer s with x written at off and, where the two buffers are one, y before that at off2. */
  function Both(s: seq<bv8>, off: nat, x: seq<bv8>, shared: bool, off2: nat, y: seq<bv8>): (r: seq<bv8>)
    requires off + |x| <= |s| && (shared ==> off2 + |y| <= |s|)
    ensures |r| == |s|
  {
    Splice(if shared then Splice(s, off2, y) else s, off, x)
  }

  predicate Disjoint(off: nat, n: nat, off2: nat, m: nat) {
    off + n <= off2 || off2 + m <= off
  }

  lemma SplicesCommute(s: seq<bv8>, off: nat, x: seq<bv8>, off2: nat, y: seq<bv8>)
    requires off + |x| <= |s| && off2 + |y| <= |s| && Disjoint(off, |x|, off2, |y|)
    ensures Splice(Splice(s, off, x), off2, y) == Splice(Splice(s, off2, y), off, x)
  {
    var l, r := Splice(Splice(s, off, x), off2, y), Splice(Splice(s, off2, y), off, x);
    forall p | 0 <= p < |s|
      ensures l[p] == r[p]
    {}
  }

  lemma BothInTwoParts(s: seq<bv8>, off: nat, bs: Blocks, shared: bool, off2: nat, ms: Blocks, a: nat, b: nat)
    requires a <= b <= |bs| == |ms| && off + 16 * b <= |s|
    requires shared ==> off2 + 16 * b <= |s| && Disjoint(off, 16 * b, off2, 16 * b)
    ensures Both(Both(s, off, ToBytes(bs[..a]), shared, off2, ToBytes(ms[..a])),
                 off + 16 * a, ToBytes(bs[a..b]), shared, off2 + 16 * a, ToBytes(ms[a..b]))
         == Both(s, off, ToBytes(bs[..b]), shared, off2, ToBytes(ms[..b]))
  {
    hide ToBytes, Splice;
    if shared {
      SplicesCommute(Splice(s, off2, ToBytes(ms[..a])), off, ToBytes(bs[..a]), off2 + 16 * a, ToBytes(ms[a..b]));
      SpliceInTwoParts(s, off2, ms, a, b);
      SpliceInTwoParts(Splice(s, off2, ToBytes(ms[..b])), off, bs, a, b);
    } else {
      SpliceInTwoParts(s, off, bs, a, b);
    }
  }

  lemma BothEnds(s: seq<bv8>, off: nat, bs: Blocks, shared: bool, off2: nat, ms: Blocks)
    requires off <= |s| && (shared ==> off2 <= |s|)
    ensures Both(s, off, ToBytes(bs[..0]), shared, off2, ToBytes(ms[..0])) == s
    ensures bs[..|bs|] == bs && ms[..|ms|] == ms
  {}

  /** Writing over the second part what stands there changes nothing. */
  lemma JustOne(s: seq<bv8>, off: nat, x: seq<bv8>, shared: bool, off2: nat, y: seq<bv8>)
    requires off + |x| <= |s|
    requires shared ==> off2 + |y| <= |s| && s == Splice(s, off2, y)
    ensures Both(s, off, x, shared, off2, y) == Splice(s, off, x)
  {
    hide Splice;
  }

  lemma BothAside(s: seq<bv8>, off: nat, x: seq<bv8>, shared: bool, off2: nat, y: seq<bv8>, at: nat, n: nat)
    requires off + |x| <= |s| && at + n <= |s| && Disjoint(off, |x|, at, n)
    requires shared ==> off2 + |y| <= |s| && Disjoint(off2, |y|, at, n)
    ensures Both(s, off, x, shared, off2, y)[at..at + n] == s[at..at + n]
  {
    hide Splice;
    SpliceAside(if shared then Splice(s, off2, y) else s, off, x, at, n);
    if shared {
      SpliceAside(s, off2, y, at, n);
    }
  }

  // ----- The bytes copied behind the blocks -----

  /** The buffer s with the bytes t at off, where t is less than a block, and the block that
      begins with them enciphered, whatever stands behind them. */
  function WithRest(s: seq<bv8>, off: nat, t: seq<bv8>, cipher: State -> State): (r: seq<bv8>)
    requires t != [] ==> |t| < 16 && off + 16 <= |s|
    ensures |r| == |s|
  {
    if t == [] then s else SpliceCiphered(Splice(s, off, t), off, cipher)
  }

  function SpliceCiphered(s: seq<bv8>, off: nat, cipher: State -> State): (r: seq<bv8>)
    requires off + 16 <= |s|
    ensures |r| == |s|
  {
    Splice(s, off, BlockBytes(cipher(StateAt(s, off))))
  }
}
