/** The chain that the test application walks: pad and encrypt, encode, decode, decrypt and strip. */
module EndToEnd {
  import opened Aes
  import opened AesState
  import opened AesCipher
  import opened Base64
  import opened Base64Spec
  import opened ByteBlocks
  import opened CbcBuffers
  import opened CbcCalls
  import opened CbcMode
  import opened CbcStreaming
  import opened KeySchedule
  import opened Padding
  import opened Printing

  /** The text sent for a message, from the bytes of the round keys. */
  function Sealed(rk: seq<bv8>, nr: nat, iv: State, m: seq<bv8>, fill: bv8): seq<bv8>
    requires 1 <= nr && RoundKeysCover(rk, nr)
  {
    Encode(ToBytes(CbcEncrypt(EncipherWith(rk, nr), iv, ToBlocks(Padded(m, fill)))))
  }

  /** What the receiver makes of any text. Where the decoded bytes are not whole blocks, the call goes
      on into the zeros behind them in the buffer, and gives only as many bytes as were decoded. */
  function Opened(rk: seq<bv8>, nr: nat, iv: State, text: seq<bv8>, fill: bv8, signedChar: bool): seq<bv8>
    requires 1 <= nr && RoundKeysCover(rk, nr)
  {
    var body := Decode(text);
    Stripped(ToBytes(CbcDecrypt(DecipherWith(rk, nr), iv, ToBlocks(Padded(body, 0))))[..|body|], fill, signedChar)
  }

  lemma NothingToPad(s: seq<bv8>)
    requires |s| % 16 == 0
    ensures Padded(s, 0) == s && s[..|s|] == s
  {}

  /** For every message, every key of every size, every vector and every fill character: what is
      opened is the message without its trailing fill, or the padded message where no byte can
      compare equal to the fill. */
  lemma OpenedIsSealed(rk: seq<bv8>, nr: nat, iv: State, m: seq<bv8>, fill: bv8, signedChar: bool)
    requires 1 <= nr && RoundKeysCover(rk, nr)
    ensures Opened(rk, nr, iv, Sealed(rk, nr, iv, m, fill), fill, signedChar)
         == if Matches(fill, fill, signedChar) then Stripped(m, fill, signedChar) else Padded(m, fill)
  {
    hide CbcEncrypt, CbcDecrypt, ToBytes, ToBlocks, Encode, Decode, Stripped, EncipherWith, DecipherWith, Padded;
    var ps := ToBlocks(Padded(m, fill));
    var cs := CbcEncrypt(EncipherWith(rk, nr), iv, ps);
    DecodeUndoesEncode(ToBytes(cs));
    BlocksOfBytes(cs);
    DecipherUndoesEncipher(rk, nr);
    DecryptUndoesEncrypt(EncipherWith(rk, nr), DecipherWith(rk, nr), iv, ps);
    BytesOfBlocks(Padded(m, fill));
    NothingToPad(ToBytes(cs));
    NothingToPad(Padded(m, fill));
    StripOfPadded(m, fill, signedChar);
  }

  /** ... and that is the message itself exactly under the condition of the padding. */
  lemma OpenedIsMessageExactlyIf(rk: seq<bv8>, nr: nat, iv: State, m: seq<bv8>, fill: bv8, signedChar: bool)
    requires 1 <= nr && RoundKeysCover(rk, nr)
    ensures Opened(rk, nr, iv, Sealed(rk, nr, iv, m, fill), fill, signedChar) == m
            <==> if signedChar && fill >= 0x80 then |m| % 16 == 0 else m == [] || m[|m| - 1] != fill
  {
    hide Stripped, Padded, Sealed, Opened;
    OpenedIsSealed(rk, nr, iv, m, fill, signedChar);
    StripOfPadded(m, fill, signedChar);
    StripUndoesPadExactlyIf(m, fill, signedChar);
  }

  /** What is sent, decoded, is chained with the padded message. */
  lemma SealedIsChain(rk: seq<bv8>, nr: nat, iv: seq<bv8>, m: seq<bv8>, fill: bv8)
    requires 1 <= nr && RoundKeysCover(rk, nr) && |iv| == 16
    ensures var text := Sealed(rk, nr, StateAt(iv, 0), m, fill);
            Chain(rk, nr, iv, Padded(m, fill), Decode(text)) && text == Encode(Decode(text))
  {
    hide CbcEncrypt, ToBytes, ToBlocks, Encode, Decode, Padded, EncipherWith, StateAt, BlockBytes, Chain;
    BytesOfState(iv, 0);
    ChainOfCall(rk, nr, StateAt(iv, 0), iv, Padded(m, fill));
    DecodeUndoesEncode(ToBytes(CbcEncrypt(EncipherWith(rk, nr), StateAt(iv, 0), ToBlocks(Padded(m, fill)))));
  }

  /** What is opened is stripped from a text that is chained with what was decoded and the zeros behind it. */
  lemma OpenedIsChain(rk: seq<bv8>, nr: nat, iv: seq<bv8>, text: seq<bv8>, fill: bv8, signedChar: bool)
    returns (p: seq<bv8>)
    requires 1 <= nr && RoundKeysCover(rk, nr) && |iv| == 16
    ensures Chain(rk, nr, iv, p, Padded(Decode(text), 0)) && |p| >= |Decode(text)|
    ensures Opened(rk, nr, StateAt(iv, 0), text, fill, signedChar) == Stripped(p[..|Decode(text)|], fill, signedChar)
  {
    hide CbcDecrypt, ToBytes, ToBlocks, Decode, Stripped, DecipherWith, StateAt, BlockBytes, Chain;
    BytesOfState(iv, 0);
    ChainOfDecryption(rk, nr, StateAt(iv, 0), iv, Padded(Decode(text), 0));
    p := ToBytes(CbcDecrypt(DecipherWith(rk, nr), StateAt(iv, 0), ToBlocks(Padded(Decode(text), 0))));
  }

  /** The first vector does not matter to no blocks. */
  lemma SameChain(enc: State -> State, dec: State -> State, v: State, w: State, bs: Blocks)
    requires bs != [] ==> v == w
    ensures CbcEncrypt(enc, v, bs) == CbcEncrypt(enc, w, bs)
    ensures CbcDecrypt(dec, v, bs) == CbcDecrypt(dec, w, bs)
  {}

  /** The sender's half: the ciphertext and then its text, NUL-terminated. A message that the first
      call rejects goes no further. */
  method Seal(c: Context, message: array<bv8>, key: array<bv8>, iv: array<bv8>, fill: bv8, out: array<bv8>)
    returns (r: int)
    requires c.Valid()
    requires key.Length == 4 * c.keyWords && iv.Length == 16 && key != c.roundKey && iv != c.roundKey
    requires out != c.roundKey && out != message && out != key && out != iv
    modifies c`keyPointer, c`vector, c`state, c.roundKey, out
    ensures message.Length > 1008 ==> r == -1 && out[..] == old(out[..])
    ensures message.Length <= 1008 ==>
        var rk := ExpandKey(key[..], c.keyWords, 4 * (c.rounds + 1));
        var text := Sealed(rk, c.rounds, StateAt(iv[..], 0), old(message[..]), fill);
        (r == -1 <==> |text| >= out.Length) && (r != -1 ==> 0 <= r == |text| && out[..r] == text)
  {
    hide CbcEncrypt, ToBytes, ToBlocks, ExpandKey, Encode, StateAt, Padded, Splice;
    var n := message.Length;
    var cipher := new bv8[PaddedLength(n)](_ => 0);
    ghost var kept, k, v, zeros := message[..], key[..], iv[..], cipher[..];
    assert At(message, 0).Region(n) == kept && At(key, 0).Region(4 * c.keyWords) == k;
    assert At(iv, 0).buf[..] == v;
    ghost var first := c.FirstVector(At(iv, 0), n);
    var length := c.CbcEncryptBuffer2(At(cipher, 0), At(message, 0), n, At(key, 0), At(iv, 0), fill);
    if length < 0 {
      return -1;
    }
    ghost var rk := ExpandKey(k, c.keyWords, 4 * (c.rounds + 1));
    ghost var ps := ToBlocks(Padded(kept, fill));
    ghost var cs := CbcEncrypt(EncipherWith(rk, c.rounds), StateAt(v, 0), ps);
    SameChain(EncipherWith(rk, c.rounds), DecipherWith(rk, c.rounds), StateAt(v, 0), first, ps);
    SpliceAll(zeros, ToBytes(cs));
    assert cipher[..length] == ToBytes(cs);
    assert key[..] == k && iv[..] == v;
    r := B64Encode(cipher, length, out, out.Length);
  }

  /** What the decoder leaves in a buffer of zeros reads as the decoded bytes padded with zeros. */
  lemma ZerosBehind(now: seq<bv8>, n: nat, body: seq<bv8>)
    requires |body| + 16 <= n == |now| && now[..|body|] == body && forall k | |body| <= k < n :: now[k] == 0
    ensures PaddedLength(|body|) <= |now| && now[..PaddedLength(|body|)] == Padded(body, 0)
  {}

  lemma DecodedNoLonger(s: seq<bv8>)
    ensures |Decode(s)| <= |s|
  {}

  /** Only the NUL behind the text separates what is returned from what was decrypted. */
  lemma TextReturned(plain: seq<bv8>, b: seq<bv8>, text: seq<bv8>, fill: bv8, signedChar: bool)
    requires |text| + 2 <= |b| && b[..|text|] == text
    requires var r := |Stripped(text, fill, signedChar)|; plain == b[r + 1 := 0]
    ensures var s := Stripped(text, fill, signedChar); |s| <= |plain| && plain[..|s|] == s
  {
    var s := Stripped(text, fill, signedChar);
    assert plain[..|s|] == b[..|s|] == text[..|s|];
  }

  /** What is printed from a buffer that was all zeros before, if fill came off or the text is whole
      blocks: else what stands behind it is not zero. */
  lemma PrintedBuffer(dec: State -> State, first: State, plain: seq<bv8>, out: seq<bv8>, all: seq<bv8>,
                      length: nat, fill: bv8, signedChar: bool, r: nat)
    requires length + 32 <= |out| && length + 32 <= |all| && out == seq(|out|, _ => 0)
    requires r == |Stripped(ToBytes(CbcDecrypt(dec, first, ToBlocks(all[..PaddedLength(length)])))[..length],
                            fill, signedChar)|
    requires r < length || length % 16 == 0
    requires r + 1 < |out| && plain == DecryptedBuffer(dec, first, out, 0, all, 0, length)[r + 1 := 0]
    ensures r <= |plain| && CString(plain) == Printed(plain[..r], length, fill)
  {
    hide CbcDecrypt, ToBytes, ToBlocks, Stripped, DecryptedBuffer, Splice, CString, Printed,
      PaddedLength;
    var b := DecryptedBuffer(dec, first, out, 0, all, 0, length);
    assert all[0..PaddedLength(length)] == all[..PaddedLength(length)];
    DecryptedText(dec, first, out, 0, all, 0, length);
    EndsInNulExactlyIf(b, 0, length, fill, signedChar);
    if r == length {
      DecryptedWhole(dec, first, out, 0, all, 0, length);
      StillZero(out, ToBytes(CbcDecrypt(dec, first, ToBlocks(all[0..length]))));
    }
    assert b[0..length] == b[0..0 + length];
    PrintedAt(plain, b, r, length, fill);
  }

  lemma StillZero(out: seq<bv8>, b: seq<bv8>)
    requires |b| < |out| && out == seq(|out|, _ => 0)
    ensures Splice(out, 0, b)[|b|] == 0
  {}

  /** The second call of the receiver, on the decoded bytes in their buffer. */
  method OpenBytes(c: Context, cipher: array<bv8>, length: nat, key: array<bv8>, iv: array<bv8>, fill: bv8)
    returns (plain: array<bv8>, r: nat)
    requires c.Valid() && length + 32 <= cipher.Length && cipher != c.roundKey
    requires key.Length == 4 * c.keyWords && iv.Length == 16 && key != c.roundKey && iv != c.roundKey
    modifies c`keyPointer, c`vector, c`state, c.roundKey
    ensures fresh(plain) && r <= plain.Length
    ensures var rk := ExpandKey(key[..], c.keyWords, 4 * (c.rounds + 1));
            var source := ToBlocks(cipher[..PaddedLength(length)]);
            var text := ToBytes(CbcDecrypt(DecipherWith(rk, c.rounds), StateAt(iv[..], 0), source))[..length];
            plain[..r] == Stripped(text, fill, c.signedChar)
    ensures r < length || length % 16 == 0 ==> CString(plain[..]) == Printed(plain[..r], length, fill)
  {
    hide CbcDecrypt, ToBytes, ToBlocks, ExpandKey, StateAt, Stripped, DecryptedBuffer, VectorBehind, StateBehind,
      InvCipher, DecipherWith, CString, Printed;
    plain := new bv8[length + 32](_ => 0);
    ghost var k, v, all, out0 := key[..], iv[..], cipher[..], plain[..];
    ghost var dec := DecipherWith(ExpandKey(k, c.keyWords, 4 * (c.rounds + 1)), c.rounds);
    assert At(key, 0).Region(4 * c.keyWords) == k && At(iv, 0).buf[..] == v;
    ghost var first, source := c.FirstVector(At(iv, 0), length), ToBlocks(all[..PaddedLength(length)]);
    assert At(cipher, 0).Region(PaddedLength(length)) == all[..PaddedLength(length)];
    r := c.CbcDecryptBuffer2(At(plain, 0), At(cipher, 0), length, At(key, 0), At(iv, 0), fill);
    OpenedBuffer(dec, StateAt(v, 0), first, plain[..], out0, all, length, fill, c.signedChar, r);
    if r < length || length % 16 == 0 {
      assert out0 == seq(|out0|, _ => 0);
      PrintedBuffer(dec, first, plain[..], out0, all, length, fill, c.signedChar, r);
    }
  }

  lemma OpenedBuffer(dec: State -> State, v: State, first: State, plain: seq<bv8>, out: seq<bv8>, all: seq<bv8>,
                     length: nat, fill: bv8, signedChar: bool, r: nat)
    requires length + 32 <= |out| && length + 32 <= |all| && (length > 0 ==> v == first)
    requires r == |Stripped(ToBytes(CbcDecrypt(dec, first, ToBlocks(all[..PaddedLength(length)])))[..length],
                            fill, signedChar)|
    requires r + 1 < |out| && plain == DecryptedBuffer(dec, first, out, 0, all, 0, length)[r + 1 := 0]
    ensures r <= |plain|
         && plain[..r] == Stripped(ToBytes(CbcDecrypt(dec, v, ToBlocks(all[..PaddedLength(length)])))[..length],
                                   fill, signedChar)
  {
    hide CbcDecrypt, ToBytes, ToBlocks, Stripped, DecryptedBuffer;
    var source := ToBlocks(all[..PaddedLength(length)]);
    assert all[0..PaddedLength(length)] == all[..PaddedLength(length)];
    SameChain(dec, dec, v, first, source);
    DecryptedText(dec, first, out, 0, all, 0, length);
    TextReturned(plain, DecryptedBuffer(dec, first, out, 0, all, 0, length),
                 ToBytes(CbcDecrypt(dec, first, source))[..length], fill, signedChar);
  }

  /** The receiver's half, for any text. */
  method Open(c: Context, text: array<bv8>, n: nat, key: array<bv8>, iv: array<bv8>, fill: bv8)
    returns (plain: array<bv8>, r: nat)
    requires c.Valid() && n <= text.Length
    requires key.Length == 4 * c.keyWords && iv.Length == 16 && key != c.roundKey && iv != c.roundKey
    modifies c`keyPointer, c`vector, c`state, c.roundKey
    ensures fresh(plain) && r <= plain.Length
    ensures var rk := ExpandKey(key[..], c.keyWords, 4 * (c.rounds + 1));
            plain[..r] == Opened(rk, c.rounds, StateAt(iv[..], 0), old(text[..n]), fill, c.signedChar)
    ensures var length := |Decode(old(text[..n]))|;
            r < length || length % 16 == 0 ==> CString(plain[..]) == Printed(plain[..r], length, fill)
  {
    hide CbcDecrypt, ToBytes, ToBlocks, ExpandKey, Decode, StateAt, Stripped, Padded, DecipherWith, CString,
      Printed;
    ghost var received := text[..n];
    DecodedNoLonger(received);
    var cipher := new bv8[n + 32](_ => 0);
    assert cipher[..] == seq(n + 32, _ => 0);
    var length := B64Decode(text, n, cipher, n + 1);
    ZerosBehind(cipher[..], n + 32, Decode(received));
    plain, r := OpenBytes(c, cipher, length, key, iv, fill);
  }

  /** One message on its way, between two contexts of one key size (or through one context):
      whatever was padded on comes off again. The result is the message itself exactly when it is
      empty or does not end in the fill character; where plain chars are signed a fill of 128 or
      more never comes off. What is printed of it is the message under another condition, because one
      fill character may stay behind it. A message of more than 1008 bytes is rejected. */
  method SealAndOpen(sender: Context, receiver: Context, message: array<bv8>,
                     key: array<bv8>, iv: array<bv8>, fill: bv8)
    returns (plain: array<bv8>, r: int)
    requires sender.Valid() && receiver.Valid() && sender.keyWords == receiver.keyWords
    requires key.Length == 4 * sender.keyWords && iv.Length == 16
    requires {key, iv} !! {sender.roundKey, receiver.roundKey}
    modifies sender`keyPointer, sender`vector, sender`state, sender.roundKey
    modifies receiver`keyPointer, receiver`vector, receiver`state, receiver.roundKey
    ensures fresh(plain) && r <= plain.Length && (r < 0 <==> message.Length > 1008)
    ensures r >= 0 ==>
        var m := old(message[..]);
        && plain[..r] == (if Matches(fill, fill, receiver.signedChar) then Stripped(m, fill, receiver.signedChar)
                          else Padded(m, fill))
        && (plain[..r] == m
            <==> if receiver.signedChar && fill >= 0x80 then |m| % 16 == 0 else m == [] || m[|m| - 1] != fill)
        && (CString(plain[..]) == m
            <==> && 0 !in m
                 && if receiver.signedChar && fill >= 0x80 then |m| % 16 == 0
                    else if fill == 0 then true
                    else if m == [] || m[|m| - 1] != fill then |m| % 16 == 0
                    else |m| == 1 || m[|m| - 2] != fill)
  {
    hide Opened, Sealed, ExpandKey, StateAt, Stripped, Padded, CString, Printed, Decode;
    ghost var m, k, v := message[..], key[..], iv[..];
    ghost var rounds := sender.rounds;
    ghost var rk := ExpandKey(k, sender.keyWords, 4 * (rounds + 1));
    var text := new bv8[2048](_ => 0);
    var n := Seal(sender, message, key, iv, fill, text);
    if message.Length > MAX_SUPPORT - 16 {
      return new bv8[0], -1;
    }
    SealedLength(rk, rounds, StateAt(v, 0), m, fill);
    assert text[..n] == Sealed(rk, rounds, StateAt(v, 0), m, fill);
    OpenedIsSealed(rk, rounds, StateAt(v, 0), m, fill, receiver.signedChar);
    OpenedIsMessageExactlyIf(rk, rounds, StateAt(v, 0), m, fill, receiver.signedChar);
    DecodedLength(rk, rounds, StateAt(v, 0), m, fill);
    StripOfPadded(m, fill, receiver.signedChar);
    PrintedIsMessageExactlyIf(m, fill, receiver.signedChar);
    plain, r := Open(receiver, text, n, key, iv, fill);
  }

  lemma DecodedLength(rk: seq<bv8>, nr: nat, iv: State, m: seq<bv8>, fill: bv8)
    requires 1 <= nr && RoundKeysCover(rk, nr)
    ensures |Decode(Sealed(rk, nr, iv, m, fill))| == PaddedLength(|m|)
  {
    hide CbcEncrypt, ToBytes, ToBlocks, Encode, Decode, Padded;
    var cs := CbcEncrypt(EncipherWith(rk, nr), iv, ToBlocks(Padded(m, fill)));
    DecodeUndoesEncode(ToBytes(cs));
  }

  lemma SealedLength(rk: seq<bv8>, nr: nat, iv: State, m: seq<bv8>, fill: bv8)
    requires 1 <= nr && RoundKeysCover(rk, nr) && |m| <= 1008
    ensures |Sealed(rk, nr, iv, m, fill)| < 2048
  {
    hide CbcEncrypt, ToBytes, ToBlocks, Encode, Padded;
  }

  // ----- Streams -----

  /** The two raw calls undo each other for every length: the chain takes the bytes behind the text
      along, and the block behind the chain does not disturb it. */
  lemma DecryptedIsEncrypted(rk: seq<bv8>, nr: nat, v: State, input: seq<bv8>, off: nat, wire: seq<bv8>, off2: nat,
                             out: seq<bv8>, off3: nat, length: nat)
    requires 1 <= nr && RoundKeysCover(rk, nr)
    requires RoomAt(|wire|, off2, |input|, off, length) && RoomAt(|out|, off3, |wire|, off2, length)
    ensures var sent := EncryptedBuffer(EncipherWith(rk, nr), v, wire, off2, input, off, false, length);
            && |sent| == |wire|
            && var b := DecryptedBuffer(DecipherWith(rk, nr), v, out, off3, sent, off2, length);
            |b| == |out| && b[off3..off3 + length] == input[off..off + length]
  {
    hide CbcEncrypt, CbcDecrypt, ToBytes, ToBlocks, EncipherWith, DecipherWith, EncryptedBuffer, DecryptedBuffer,
      PaddedLength;
    var n, enc, dec := PaddedLength(length), EncipherWith(rk, nr), DecipherWith(rk, nr);
    var ps := ToBlocks(input[off..off + n]);
    var cs, sent := CbcEncrypt(enc, v, ps), EncryptedBuffer(enc, v, wire, off2, input, off, false, length);
    EncryptedText(enc, v, wire, off2, input, off, false, length, input[off..off + n]);
    assert sent[off2..off2 + n] == ToBytes(cs);
    BlocksOfBytes(cs);
    DecipherUndoesEncipher(rk, nr);
    DecryptUndoesEncrypt(enc, dec, v, ps);
    DecryptedText(dec, v, out, off3, sent, off2, length);
    BytesOfBlocks(input[off..off + n]);
    assert input[off..off + n][..length] == input[off..off + length];
  }

  /** What one context encrypts in chunks of whole blocks, another of the same key size decrypts in
      any other chunks: the bytes that went in come out. */
  method StreamAcross(sender: Context, receiver: Context, input: Pointer, wire: Pointer, output: Pointer,
                      sent: seq<nat>, received: seq<nat>, key: Pointer, iv: Pointer)
    requires sender.Valid() && receiver.Valid() && sender.keyWords == receiver.keyWords
    requires sent != [] && received != [] && Total(sent) == Total(received)
    requires input.Spans(16 * Total(sent)) && wire.Spans(16 * Total(sent)) && output.Spans(16 * Total(sent))
    requires wire.buf !in {input.buf, output.buf} && key.Spans(4 * sender.keyWords) && iv.Spans(16)
    requires {key.buf, iv.buf} !! {input.buf, wire.buf, output.buf}
    requires {sender.roundKey, receiver.roundKey} !! {key.buf, iv.buf, input.buf, wire.buf, output.buf}
    modifies sender`keyPointer, sender`vector, sender`state, sender.roundKey
    modifies receiver`keyPointer, receiver`vector, receiver`state, receiver.roundKey
    modifies input.buf, wire.buf, output.buf
    ensures output.Region(16 * Total(sent)) == old(input.Region(16 * Total(sent)))
  {
    hide ExpandKey, StateAt, Total, EncryptedBuffer, DecryptedBuffer, MaskedBuffer, EncipherWith, DecipherWith,
      PaddedLength;
    ghost var n, v, rk := 16 * Total(sent), iv.Block(), sender.ScheduleUnder(key);
    ghost var in0, wire0 := input.buf[..], wire.buf[..];
    WholeBlocks(Total(sent));
    EncryptStream(sender, wire, input, sent, key, iv);
    ghost var out0 := output.buf[..];
    DecryptStream(receiver, output, wire, received, key, iv);
    DecryptedIsEncrypted(rk, sender.rounds, v, in0, input.off, wire0, wire.off, out0, output.off, n);
  }
}
