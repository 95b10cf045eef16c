/** What the two raw calls do, in terms of bytes and positions alone. */
module CbcCalls {
  import opened Aes
  import opened AesState
  import opened ByteBlocks
  import opened CbcBuffers
  import opened CbcBytes
  import opened CbcMode
  import opened KeySchedule
  import opened Padding

  /** What a call of the context demands, with v the bytes of the vector it starts from. */
  ghost predicate Callable(c: Context, output: Pointer, input: Pointer, length: nat, key: Pointer, iv: Pointer,
                           v: seq<bv8>)
    reads c, if iv.At? then {iv.buf} else if c.vector.At? then {c.vector.buf} else {}
  {
    && c.Valid() && Room(output, input, length) && output.buf != c.roundKey && input.buf != c.roundKey
    && (key.At? ==> key.Spans(4 * c.keyWords) && key.buf != c.roundKey)
    && var w := if iv.At? then iv else c.vector;
       length > 0 ==> w.Spans(16) && w.buf != c.roundKey && v == w.buf[w.off..w.off + 16]
  }

  lemma FirstBytes(c: Context, output: Pointer, input: Pointer, length: nat, key: Pointer, iv: Pointer, v: seq<bv8>)
    requires Callable(c, output, input, length, key, iv, v) && length > 0
    ensures BlockBytes(c.FirstVector(iv, length)) == v
  {
    var w := if iv.At? then iv else c.vector;
    BytesOfState(w.buf[..], w.off);
    hide StateAt, BlockBytes;
  }

  ghost predicate Chain(rk: seq<bv8>, nr: nat, v: seq<bv8>, p: seq<bv8>, text: seq<bv8>)
    requires 1 <= nr && AesCipher.RoundKeysCover(rk, nr) && |v| == 16
  {
    ChainedBytes(DecipherWith(rk, nr), v, p, text)
  }

  /** What that means: deciphering text with the round keys rk gives the bytes of p, each with the one above
      it in the chain added, that of the vector in the first block, then that of the ciphertext before. */
  lemma ChainOfBytes(rk: seq<bv8>, nr: nat, v: seq<bv8>, p: seq<bv8>, text: seq<bv8>, t: nat)
    requires 1 <= nr && 16 * (nr + 1) <= |rk| && |v| == 16 && t < |p|
    requires Chain(rk, nr, v, p, text)
    ensures |text| == |p| && t / 16 * 16 + 16 <= |text|
    ensures BlockBytes(AesCipher.InvCipher(rk, nr, StateAt(text, t / 16 * 16)))[t % 16]
         == p[t] ^ (if t < 16 then v[t] else text[t - 16])
  {
    hide BlockBytes, StateAt, AesCipher.InvCipher;
  }

  lemma ChainOfCall(rk: seq<bv8>, nr: nat, first: State, v: seq<bv8>, p: seq<bv8>)
    requires 1 <= nr && AesCipher.RoundKeysCover(rk, nr)
    requires |v| == 16 && |p| % 16 == 0 && (p != [] ==> BlockBytes(first) == v)
    ensures Chain(rk, nr, v, p, ToBytes(CbcEncrypt(EncipherWith(rk, nr), first, ToBlocks(p))))
  {
    var enc, dec := EncipherWith(rk, nr), DecipherWith(rk, nr);
    var text := ToBytes(CbcEncrypt(enc, first, ToBlocks(p)));
    if p == [] {
      assert text == [];
    } else {
      hide StateAt, BlockBytes, EncipherWith, DecipherWith, ToBytes, ToBlocks, CbcEncrypt, ChainedBytes;
      DecipherUndoesEncipher(rk, nr);
      EncryptedBytes(enc, dec, first, p, text);
    }
  }

  lemma WhereTheVectorIs(p: Pointer, length: nat, n: nat, before: Pointer)
    requires p.At? && n == (length + 15) / 16 * 16
    ensures VectorBehind(p, length, before) == if length > 0 then At(p.buf, p.off + n - 16) else before
  {}

  /** What a call is about to write. */
  lemma TextOfCall(c: Context, output: Pointer, input: Pointer, length: nat, key: Pointer, iv: Pointer,
                   v: seq<bv8>, p: seq<bv8>)
    returns (text: seq<bv8>, rk: seq<bv8>)
    requires Callable(c, output, input, length, key, iv, v)
    requires |v| == 16 && |p| % 16 == 0 && |p| == (length + 15) / 16 * 16
    requires p == input.buf[input.off..input.off + |p|]
    ensures rk == c.ScheduleUnder(key) && |text| == |p| && Chain(rk, c.rounds, v, p, text)
    ensures Holds(EncryptedBuffer(EncipherWith(rk, c.rounds), c.FirstVector(iv, length), output.buf[..], output.off,
                                  input.buf[..], input.off, input.buf == output.buf, length), output.off, text)
  {
    hide StateAt, BlockBytes, AesCipher.Cipher, AesCipher.InvCipher, ExpandKey, EncryptedBuffer, ToBytes, ToBlocks,
      CbcEncrypt, Chain;
    var first := c.FirstVector(iv, length);
    if length > 0 {
      FirstBytes(c, output, input, length, key, iv, v);
    }
    rk := c.ScheduleUnder(key);
    text := ToBytes(CbcEncrypt(EncipherWith(rk, c.rounds), first, ToBlocks(p)));
    ChainOfCall(rk, c.rounds, first, v, p);
    EncryptedText(EncipherWith(rk, c.rounds), first, output.buf[..], output.off, input.buf[..], input.off,
                  input.buf == output.buf, length, p);
  }

  /** Encryption: to every byte of the plaintext the one before it in the chain is added, and the blocks
      are enciphered; the key given is expanded; the vector pointer is left at the last block written. */
  method Encrypt(c: Context, output: Pointer, input: Pointer, length: nat, key: Pointer, iv: Pointer,
                 ghost v: seq<bv8>, ghost p: seq<bv8>)
    returns (ghost text: seq<bv8>, ghost rk: seq<bv8>)
    requires Callable(c, output, input, length, key, iv, v)
    requires length > 0 ==> Apart(if iv.At? then iv else c.vector, 16, input, 16)
    requires |v| == 16 && |p| % 16 == 0 && |p| == (length + 15) / 16 * 16 && p == input.buf[input.off..input.off + |p|]
    modifies c`keyPointer, c`vector, c`state, c.roundKey, output.buf, input.buf
    ensures c.Valid() && |text| == |p| && text == output.buf[output.off..output.off + |p|]
    ensures |rk| == 16 * (c.rounds + 1) && rk == c.roundKey[..|rk|] && c.rounds >= 10
    ensures if key.At? then
              && c.keyPointer == key
              && rk == ExpandKey(old(key.buf[key.off..key.off + 4 * c.keyWords]), c.keyWords, 4 * (c.rounds + 1))
            else c.keyPointer == old(c.keyPointer) && rk == old(c.roundKey[..16 * (c.rounds + 1)])
    ensures Chain(rk, c.rounds, v, p, text)
    ensures c.vector == if length > 0 then At(output.buf, output.off + |p| - 16)
                        else if iv.At? then iv else old(c.vector)
  {
    hide StateAt, BlockBytes, AesCipher.Cipher, AesCipher.InvCipher, ExpandKey, EncryptedBuffer, MaskedBuffer, ToBytes,
      ToBlocks, CbcEncrypt, XorState, Splice, Chain, VectorBehind, StateBehind;
    text, rk := TextOfCall(c, output, input, length, key, iv, v, p);
    hide EncipherWith;
    c.CbcEncryptBuffer(output, input, length, key, iv);
    WhereTheVectorIs(output, length, |p|, old(c.VectorOf(iv)));
  }

  lemma ChainOfDecryption(rk: seq<bv8>, nr: nat, first: State, v: seq<bv8>, text: seq<bv8>)
    requires 1 <= nr && AesCipher.RoundKeysCover(rk, nr)
    requires |v| == 16 && |text| % 16 == 0 && (text != [] ==> BlockBytes(first) == v)
    ensures Chain(rk, nr, v, ToBytes(CbcDecrypt(DecipherWith(rk, nr), first, ToBlocks(text))), text)
  {
    var p := ToBytes(CbcDecrypt(DecipherWith(rk, nr), first, ToBlocks(text)));
    if text == [] {
      assert p == [];
    } else {
      hide StateAt, BlockBytes, DecipherWith, ToBytes, ToBlocks, CbcDecrypt, ChainedBytes;
      DecryptedBytes(DecipherWith(rk, nr), first, text, p);
    }
  }

  /** Decryption, by the same equation with the input as the text; the vector pointer is left at the last
      block read. */
  method Decrypt(c: Context, output: Pointer, input: Pointer, length: nat, key: Pointer, iv: Pointer,
                 ghost v: seq<bv8>, ghost text: seq<bv8>)
    returns (ghost p: seq<bv8>, ghost rk: seq<bv8>)
    requires Callable(c, output, input, length, key, iv, v)
    requires length > 0 ==> Apart(if iv.At? then iv else c.vector, 16, output, 16)
    requires |v| == 16 && |text| % 16 == 0 && |text| == (length + 15) / 16 * 16
    requires text == input.buf[input.off..input.off + |text|]
    modifies c`keyPointer, c`vector, c`state, c.roundKey, output.buf
    ensures c.Valid() && |p| == |text| && p == output.buf[output.off..output.off + |p|]
    ensures |rk| == 16 * (c.rounds + 1) && rk == c.roundKey[..|rk|] && c.rounds >= 10
    ensures if key.At? then
              && c.keyPointer == key
              && rk == ExpandKey(old(key.buf[key.off..key.off + 4 * c.keyWords]), c.keyWords, 4 * (c.rounds + 1))
            else c.keyPointer == old(c.keyPointer) && rk == old(c.roundKey[..16 * (c.rounds + 1)])
    ensures Chain(rk, c.rounds, v, p, text)
    ensures c.vector == if length > 0 then At(input.buf, input.off + |text| - 16)
                        else if iv.At? then iv else old(c.vector)
  {
    hide StateAt, BlockBytes, AesCipher.Cipher, AesCipher.InvCipher, ExpandKey, DecryptedBuffer, ToBytes, ToBlocks,
      CbcDecrypt, XorState, Splice;
    ghost var out0, in0, first := output.buf[..], input.buf[..], c.FirstVector(iv, length);
    if length > 0 {
      FirstBytes(c, output, input, length, key, iv, v);
    }
    rk := c.ScheduleUnder(key);
    p := ToBytes(CbcDecrypt(DecipherWith(rk, c.rounds), first, ToBlocks(text)));
    ChainOfDecryption(rk, c.rounds, first, v, text);
    hide Chain;
    DecryptedBlocks(DecipherWith(rk, c.rounds), first, out0, output.off, in0, input.off, length, text);
    hide DecipherWith, VectorBehind, StateBehind;
    c.CbcDecryptBuffer(output, input, length, key, iv);
    WhereTheVectorIs(input, length, |p|, old(c.VectorOf(iv)));
  }
}
