/** What a run of cipher block chaining leaves in the buffers, byte by byte: section 6.2 of NIST SP 800-38A
    in terms of the bytes of the two texts and the vector, and what a call does behind the text. */
module CbcBytes {
  import opened AesState
  import opened ByteBlocks
  import opened CbcBuffers
  import opened CbcMode
  import opened Gf256
  import opened Padding

  lemma CellOfXor(x: State, y: State, r: nat, c: nat)
    requires r < 4 && c < 4
    ensures Cell(XorState(x, y), r, c) == Add(Cell(x, r, c), Cell(y, r, c))
  {
    hide Add;
  }

  lemma ByteOfXor(x: State, y: State, j: nat)
    requires j < 16
    ensures BlockBytes(XorState(x, y))[j] == BlockBytes(x)[j] ^ BlockBytes(y)[j]
  {
    ByteOfBlock(XorState(x, y), j);
    ByteOfBlock(x, j);
    ByteOfBlock(y, j);
    CellOfXor(x, y, j % 4, j / 4);
    hide BlockBytes, XorState, Cell;
  }

  lemma ByteOfBlocks(bs: Blocks, k: nat, j: nat)
    requires k < |bs| && j < 16
    ensures ToBytes(bs)[16 * k + j] == BlockBytes(bs[k])[j]
  {
    hide ToBytes, BlockBytes, StateAt;
    BlockInBytes(bs, k);
    BytesOfState(ToBytes(bs), 16 * k);
    assert ToBytes(bs)[16 * k..16 * k + 16][j] == ToBytes(bs)[16 * k + j];
  }

  /** The bytes chained: from the vector, and behind the first block from the ciphertext. */
  lemma ByteOfChained(v: State, cs: Blocks, k: nat, j: nat)
    requires k < |cs| && j < 16
    ensures BlockBytes(Chained(v, cs, k))[j]
         == if k == 0 then BlockBytes(v)[j] else ToBytes(cs)[16 * (k - 1) + j]
  {
    hide ToBytes, BlockBytes;
    if k > 0 {
      ByteOfBlocks(cs, k - 1, j);
    }
  }

  lemma EncryptedByte(enc: State -> State, dec: State -> State, v: State, ps: Blocks, k: nat, j: nat)
    requires k < |ps| && j < 16 && forall s :: dec(enc(s)) == s
    ensures var c := ToBytes(CbcEncrypt(enc, v, ps));
            BlockBytes(dec(StateAt(c, 16 * k)))[j]
            == ToBytes(ps)[16 * k + j] ^ (if k == 0 then BlockBytes(v)[j] else c[16 * (k - 1) + j])
  {
    hide ToBytes, BlockBytes, StateAt, XorState, CbcEncrypt;
    var cs := CbcEncrypt(enc, v, ps);
    EncryptRecurrence(enc, v, ps, k);
    BlockInBytes(cs, k);
    ByteOfXor(ps[k], Chained(v, cs, k), j);
    ByteOfBlocks(ps, k, j);
    ByteOfChained(v, cs, k, j);
  }

  lemma DecryptedByte(dec: State -> State, v: State, cs: Blocks, k: nat, j: nat)
    requires k < |cs| && j < 16
    ensures var c := ToBytes(cs);
            ToBytes(CbcDecrypt(dec, v, cs))[16 * k + j]
            == BlockBytes(dec(StateAt(c, 16 * k)))[j] ^ (if k == 0 then BlockBytes(v)[j] else c[16 * (k - 1) + j])
  {
    hide ToBytes, BlockBytes, StateAt, XorState;
    BlockInBytes(cs, k);
    ByteOfXor(dec(cs[k]), Chained(v, cs, k), j);
    ByteOfBlocks(CbcDecrypt(dec, v, cs), k, j);
    ByteOfChained(v, cs, k, j);
  }

  lemma MaskedByte(v: State, ps: Blocks, cs: Blocks, k: nat, j: nat)
    requires |ps| == |cs| && k < |ps| && j < 16
    ensures ToBytes(Masked(v, ps, cs))[16 * k + j]
         == ToBytes(ps)[16 * k + j] ^ (if k == 0 then BlockBytes(v)[j] else ToBytes(cs)[16 * (k - 1) + j])
  {
    hide ToBytes, BlockBytes, StateAt, XorState;
    ByteOfXor(ps[k], Chained(v, cs, k), j);
    ByteOfBlocks(Masked(v, ps, cs), k, j);
    ByteOfBlocks(ps, k, j);
    ByteOfChained(v, cs, k, j);
  }

  // ----- The buffers behind a call -----

  /** Deciphering the blocks of c gives the bytes of p, each with the one above it in the chain added: that
      of the vector v in the first block, then that of the ciphertext block before. */
  ghost predicate ChainedBytes(dec: State -> State, v: seq<bv8>, p: seq<bv8>, c: seq<bv8>)
    requires |v| == 16
  {
    && |c| == |p| && |p| % 16 == 0
    && forall t | 0 <= t < |p| ::
         var k := t / 16 * 16;
         && k + 16 <= |c|
         && BlockBytes(dec(StateAt(c, k)))[t - k] == p[t] ^ (if t < 16 then v[t] else c[t - 16])
  }

  lemma Place(t: nat, n: nat)
    requires t < n && n % 16 == 0
    ensures var k, j := t / 16, t % 16;
            k < n / 16 && j < 16 && t == 16 * k + j && t / 16 * 16 == 16 * k && t - t / 16 * 16 == j && 16 * k + 16 <= n
    ensures if t < 16 then t / 16 == 0 && t % 16 == t else t - 16 == 16 * (t / 16 - 1) + t % 16 && t / 16 > 0
  {}

  lemma EncryptedAt(enc: State -> State, dec: State -> State, v: State, p: seq<bv8>, c: seq<bv8>, t: nat)
    requires t < |p| && |p| % 16 == 0 && forall s :: dec(enc(s)) == s
    requires c == ToBytes(CbcEncrypt(enc, v, ToBlocks(p)))
    ensures var k := t / 16 * 16;
            && k + 16 <= |c|
            && BlockBytes(dec(StateAt(c, k)))[t - k] == p[t] ^ (if t < 16 then BlockBytes(v)[t] else c[t - 16])
  {
    hide ToBytes, BlockBytes, StateAt, CbcEncrypt, ToBlocks;
    BytesOfBlocks(p);
    Place(t, |p|);
    EncryptedByte(enc, dec, v, ToBlocks(p), t / 16, t % 16);
  }

  lemma DecryptedAt(dec: State -> State, v: State, c: seq<bv8>, p: seq<bv8>, t: nat)
    requires t < |c| && |c| % 16 == 0 && p == ToBytes(CbcDecrypt(dec, v, ToBlocks(c)))
    ensures var k := t / 16 * 16;
            && k + 16 <= |c| == |p|
            && BlockBytes(dec(StateAt(c, k)))[t - k] == p[t] ^ (if t < 16 then BlockBytes(v)[t] else c[t - 16])
  {
    hide ToBytes, BlockBytes, StateAt, CbcDecrypt, ToBlocks;
    BytesOfBlocks(c);
    Place(t, |c|);
    DecryptedByte(dec, v, ToBlocks(c), t / 16, t % 16);
    AddedTwice(p[t], BlockBytes(dec(StateAt(c, 16 * (t / 16))))[t % 16],
               if t < 16 then BlockBytes(v)[t] else c[t - 16]);
  }

  lemma MaskedAt(v: State, ps: Blocks, cs: Blocks, t: nat)
    requires |ps| == |cs| && t < 16 * |ps|
    ensures ToBytes(Masked(v, ps, cs))[t]
         == ToBytes(ps)[t] ^ (if t < 16 then BlockBytes(v)[t] else ToBytes(cs)[t - 16])
  {
    hide ToBytes, BlockBytes, Masked;
    Place(t, 16 * |ps|);
    MaskedByte(v, ps, cs, t / 16, t % 16);
  }

  lemma EncryptedBytes(enc: State -> State, dec: State -> State, v: State, p: seq<bv8>, c: seq<bv8>)
    requires |p| % 16 == 0 && c == ToBytes(CbcEncrypt(enc, v, ToBlocks(p))) && forall s :: dec(enc(s)) == s
    ensures ChainedBytes(dec, BlockBytes(v), p, c)
  {
    hide ToBytes, BlockBytes, StateAt, CbcEncrypt, ToBlocks;
    forall t | 0 <= t < |p|
      ensures var k := t / 16 * 16;
              && k + 16 <= |c|
              && BlockBytes(dec(StateAt(c, k)))[t - k] == p[t] ^ (if t < 16 then BlockBytes(v)[t] else c[t - 16])
    {
      EncryptedAt(enc, dec, v, p, c, t);
    }
  }

  lemma DecryptedBytes(dec: State -> State, v: State, c: seq<bv8>, p: seq<bv8>)
    requires |c| % 16 == 0 && p == ToBytes(CbcDecrypt(dec, v, ToBlocks(c)))
    ensures ChainedBytes(dec, BlockBytes(v), p, c)
  {
    hide ToBytes, BlockBytes, StateAt, CbcDecrypt, ToBlocks;
    forall t | 0 <= t < |c|
      ensures var k := t / 16 * 16;
              && k + 16 <= |c|
              && BlockBytes(dec(StateAt(c, k)))[t - k] == p[t] ^ (if t < 16 then BlockBytes(v)[t] else c[t - 16])
    {
      DecryptedAt(dec, v, c, p, t);
    }
  }

  lemma AddedTwice(p: bv8, x: bv8, y: bv8)
    ensures p == x ^ y <==> x == p ^ y
  {}

  lemma MaskedText(enc: State -> State, v: State, p: seq<bv8>, c: seq<bv8>, x: seq<bv8>)
    requires |p| % 16 == 0 && c == ToBytes(CbcEncrypt(enc, v, ToBlocks(p)))
    requires x == ToBytes(Masked(v, ToBlocks(p), CbcEncrypt(enc, v, ToBlocks(p))))
    ensures |x| == |c| == |p|
         && forall t | 0 <= t < |p| :: x[t] == p[t] ^ (if t < 16 then BlockBytes(v)[t] else c[t - 16])
  {
    hide ToBytes, BlockBytes, CbcEncrypt, ToBlocks, Masked;
    BytesOfBlocks(p);
    forall t | 0 <= t < |p|
      ensures x[t] == p[t] ^ (if t < 16 then BlockBytes(v)[t] else c[t - 16])
    {
      MaskedAt(v, ToBlocks(p), CbcEncrypt(enc, v, ToBlocks(p)), t);
    }
  }

  /** A separate input is left with what was chained added to the text. */
  lemma MaskedBytes(enc: State -> State, v: State, out: seq<bv8>, off: nat,
                    input: seq<bv8>, off2: nat, length: nat)
    requires RoomAt(|out|, off, |input|, off2, length)
    ensures var n, b, m := (length + 15) / 16 * 16, EncryptedBuffer(enc, v, out, off, input, off2, false, length),
                           MaskedBuffer(enc, v, input, off2, length);
            && |b| == |out| && off + n <= |b| && off2 + n <= |input| == |m|
            && (forall q | 0 <= q < |m| && !(off2 <= q < off2 + n) :: m[q] == input[q])
            && var p, c, x := input[off2..off2 + n], b[off..off + n], m[off2..off2 + n];
               forall t | 0 <= t < n :: x[t] == p[t] ^ (if t < 16 then BlockBytes(v)[t] else c[t - 16])
  {
    hide ToBytes, BlockBytes, CbcEncrypt, EncryptedBuffer, ToBlocks, Masked, Splice;
    var n := PaddedLength(length);
    assert n == (length + 15) / 16 * 16;
    var p := input[off2..off2 + n];
    EncryptedText(enc, v, out, off, input, off2, false, length, p);
    var c := ToBytes(CbcEncrypt(enc, v, ToBlocks(p)));
    var x := ToBytes(Masked(v, ToBlocks(p), CbcEncrypt(enc, v, ToBlocks(p))));
    MaskedText(enc, v, p, c, x);
    SpliceHolds(input, off2, x);
    BytesOfSplice(input, off2, x);
  }

  /** Behind the text of a call on part of a block: the bytes copied there begin a block that is enciphered
      with whatever stood behind them. The rest of the buffer is as before. */
  lemma BehindTheText(enc: State -> State, v: State, out: seq<bv8>, off: nat,
                      input: seq<bv8>, off2: nat, length: nat)
    requires RoomAt(|out|, off, |input|, off2, length)
    ensures var n, r, b := (length + 15) / 16 * 16, length % 16,
                           EncryptedBuffer(enc, v, out, off, input, off2, false, length);
            && |b| == |out| && off + n <= |b| && off2 + n + r <= |input|
            && (r > 0 ==>
                  && off + n + 16 <= |b|
                  && var rest := input[off2 + n..off2 + n + r] + out[off + n + r..off + n + 16];
                     b[off + n..off + n + 16] == BlockBytes(enc(StateAt(rest, 0))))
            && forall q | 0 <= q < |b| && !(off <= q < off + n + if r > 0 then 16 else 0) :: b[q] == out[q]
  {
    hide ToBytes, BlockBytes, StateAt, CbcEncrypt, ToBlocks, Masked, Splice, WithRest;
    var n := PaddedLength(length);
    assert n == (length + 15) / 16 * 16;
    RestBehindText(enc, out, off, ToBytes(CbcEncrypt(enc, v, ToBlocks(input[off2..off2 + n]))),
                   input[off2 + n..off2 + n + length % 16]);
  }

  lemma BehindTheDecryptedText(dec: State -> State, v: State, out: seq<bv8>, off: nat,
                               input: seq<bv8>, off2: nat, length: nat)
    requires RoomAt(|out|, off, |input|, off2, length)
    ensures var n, r, b := (length + 15) / 16 * 16, length % 16,
                           DecryptedBuffer(dec, v, out, off, input, off2, length);
            && |b| == |out| && off + n <= |b| && off2 + n + r <= |input|
            && (r > 0 ==>
                  && off + n + 16 <= |b|
                  && var rest := input[off2 + n..off2 + n + r] + out[off + n + r..off + n + 16];
                     b[off + n..off + n + 16] == BlockBytes(dec(StateAt(rest, 0))))
            && forall q | 0 <= q < |b| && !(off <= q < off + n + if r > 0 then 16 else 0) :: b[q] == out[q]
  {
    hide ToBytes, BlockBytes, StateAt, CbcDecrypt, ToBlocks, Splice, WithRest;
    var n := PaddedLength(length);
    assert n == (length + 15) / 16 * 16;
    RestBehindText(dec, out, off, ToBytes(CbcDecrypt(dec, v, ToBlocks(input[off2..off2 + n]))),
                   input[off2 + n..off2 + n + length % 16]);
  }

  lemma BytesOfSplice(s: seq<bv8>, off: nat, b: seq<bv8>)
    requires off + |b| <= |s|
    ensures forall q | 0 <= q < |s| :: Splice(s, off, b)[q] == if off <= q < off + |b| then b[q - off] else s[q]
  {}

  lemma RestBehindText(cipher: State -> State, out: seq<bv8>, off: nat, c: seq<bv8>, t: seq<bv8>)
    requires |t| < 16 && off + |c| + (if t == [] then 0 else 16) <= |out|
    ensures var at, b := off + |c|, WithRest(Splice(out, off, c), off + |c|, t, cipher);
            && |b| == |out|
            && (t != [] ==> b[at..at + 16] == BlockBytes(cipher(StateAt(t + out[at + |t|..at + 16], 0))))
            && forall q | 0 <= q < |b| && !(off <= q < at + if t == [] then 0 else 16) :: b[q] == out[q]
  {
    hide BlockBytes, StateAt, Splice;
    BytesOfSplice(out, off, c);
    if t != [] {
      hide WithRest;
      RestEnciphered(cipher, Splice(out, off, c), out, off + |c|, t);
    }
  }

  lemma RestEnciphered(cipher: State -> State, s: seq<bv8>, out: seq<bv8>, at: nat, t: seq<bv8>)
    requires 0 < |t| < 16 && at + 16 <= |s| == |out| && forall q | at <= q < |s| :: s[q] == out[q]
    ensures WithRest(s, at, t, cipher)[at..at + 16] == BlockBytes(cipher(StateAt(t + out[at + |t|..at + 16], 0)))
    ensures forall q | 0 <= q < |s| && !(at <= q < at + 16) :: WithRest(s, at, t, cipher)[q] == s[q]
  {
    hide BlockBytes, StateAt, Splice;
    var w, rest := Splice(s, at, t), t + out[at + |t|..at + 16];
    BytesOfSplice(s, at, t);
    forall i | 0 <= i < 16
      ensures w[at..at + 16][i] == rest[i]
    {
      assert w[at..at + 16][i] == w[at + i];
    }
    assert w[at..at + 16] == rest == rest[0..0 + 16];
    SameBytesSameState(w, at, rest, 0);
    var b := BlockBytes(cipher(StateAt(w, at)));
    BytesOfSplice(w, at, b);
    assert Splice(w, at, b)[at..at + 16] == b;
  }
}
