/** What a run of cipher block chaining makes of the buffers it works in. */
module CbcBuffers {
  import opened AesState
  import opened ByteBlocks
  import opened CbcMode
  import opened Padding

  /** A run over whole blocks: its first vector, the blocks it reads, those it writes and those it
      leaves behind in the input, the two buffers before it with the offsets it works at, and
      whether they are one buffer. */
  datatype Run = Run(v: State, source: Blocks, result: Blocks, left: Blocks,
                     out: seq<bv8>, off: nat, input: seq<bv8>, off2: nat, shared: bool) {

    predicate Fits() {
      && |source| == |result| == |left|
      && off + 16 * |result| <= |out| && off2 + 16 * |source| <= |input|
      && source == ToBlocks(input[off2..off2 + 16 * |source|])
      && (shared ==> input == out && Disjoint(off, 16 * |result|, off2, 16 * |source|))
    }

    /** The two buffers after k blocks. */
    predicate Done(outNow: seq<bv8>, inputNow: seq<bv8>, k: nat) {
      && Fits() && k <= |result|
      && outNow == Both(out, off, ToBytes(result[..k]), shared, off2, ToBytes(left[..k]))
      && inputNow == if shared then outNow else Splice(input, off2, ToBytes(left[..k]))
    }

    lemma Begins()
      requires Fits()
      ensures Done(out, input, 0)
    {
      BothEnds(out, off, result, shared, off2, left);
      SpliceEnds(input, off2, left);
    }

    lemma Ends(outNow: seq<bv8>, inputNow: seq<bv8>)
      requires Done(outNow, inputNow, |result|)
      ensures Fits() && outNow == Both(out, off, ToBytes(result), shared, off2, ToBytes(left))
      ensures inputNow == if shared then outNow else Splice(input, off2, ToBytes(left))
    {
      BothEnds(out, off, result, shared, off2, left);
    }

    /** The n bytes of the input from the k-th block on have not been touched by the blocks before. */
    lemma StillThere(outNow: seq<bv8>, inputNow: seq<bv8>, k: nat, n: nat)
      requires Done(outNow, inputNow, k) && off2 + 16 * k + n <= |input|
      requires shared ==> Disjoint(off, 16 * k, off2 + 16 * k, n)
      ensures |inputNow| == |input|
      ensures inputNow[off2 + 16 * k..off2 + 16 * k + n] == input[off2 + 16 * k..off2 + 16 * k + n]
    {
      hide ToBytes, Splice, Both, ToBlocks;
      if shared {
        BothAside(out, off, ToBytes(result[..k]), shared, off2, ToBytes(left[..k]), off2 + 16 * k, n);
      } else {
        SpliceAside(input, off2, ToBytes(left[..k]), off2 + 16 * k, n);
      }
    }

    lemma NextBlock(outNow: seq<bv8>, inputNow: seq<bv8>, k: nat)
      requires Done(outNow, inputNow, k) && k < |source|
      ensures |inputNow| == |input| && StateAt(inputNow, off2 + 16 * k) == source[k]
    {
      hide StateAt, Splice, Both, ToBytes;
      StillThere(outNow, inputNow, k, 16);
      SourceBlock(k);
      hide Done;
      SameBytesSameState(inputNow, off2 + 16 * k, input, off2 + 16 * k);
    }

    lemma SourceBlock(k: nat)
      requires Fits() && k < |source|
      ensures StateAt(input, off2 + 16 * k) == source[k]
    {
      hide StateAt, ToBlocks;
      BlockOfRegion(input, off2, 16 * |source|, k);
    }

    /** From the a-th block to the b-th. */
    lemma More(outNow: seq<bv8>, inputNow: seq<bv8>, outNext: seq<bv8>, inputNext: seq<bv8>, a: nat, b: nat)
      requires Done(outNow, inputNow, a) && a <= b <= |result|
      requires outNext == Both(outNow, off + 16 * a, ToBytes(result[a..b]), shared, off2 + 16 * a, ToBytes(left[a..b]))
      requires inputNext == if shared then outNext else Splice(inputNow, off2 + 16 * a, ToBytes(left[a..b]))
      ensures Done(outNext, inputNext, b)
    {
      hide ToBytes, Both, Splice;
      BothInTwoParts(out, off, result, shared, off2, left, a, b);
      if !shared {
        SpliceInTwoParts(input, off2, left, a, b);
      }
    }

    lemma OneMore(outNow: seq<bv8>, inputNow: seq<bv8>, outNext: seq<bv8>, inputNext: seq<bv8>,
                  k: nat, m: State, c: State)
      requires Done(outNow, inputNow, k) && k < |result| && c == result[k] && m == left[k]
      requires outNext == Both(outNow, off + 16 * k, BlockBytes(c), shared, off2 + 16 * k, BlockBytes(m))
      requires inputNext == if shared then outNext else Splice(inputNow, off2 + 16 * k, BlockBytes(m))
      ensures Done(outNext, inputNext, k + 1)
    {
      hide ToBytes, BlockBytes, Both, Splice;
      OneBlock(result, k);
      OneBlock(left, k);
      More(outNow, inputNow, outNext, inputNext, k, k + 1);
    }

    /** A run that leaves its input as it was. */
    lemma EndsWithInput(outNow: seq<bv8>, inputNow: seq<bv8>)
      requires Done(outNow, inputNow, |result|) && left == source
      ensures Fits() && outNow == Splice(out, off, ToBytes(result)) && (!shared ==> inputNow == input)
    {
      hide ToBytes, ToBlocks, StateAt, Done;
      Ends(outNow, inputNow);
      BytesOfBlocks(input[off2..off2 + 16 * |source|]);
      SpliceSame(input, off2, 16 * |source|);
    }
  }

  // ----- The buffers behind a call -----

  /** The output buffer, and the input where the two are one, behind a call on length bytes. */
  function EncryptedBuffer(enc: State -> State, v: State, out: seq<bv8>, off: nat,
                           input: seq<bv8>, off2: nat, shared: bool, length: nat): (r: seq<bv8>)
    requires RoomAt(|out|, off, |input|, off2, length) && (shared ==> out == input)
    ensures |r| == |out|
  {
    var n := PaddedLength(length);
    var ps := ToBlocks(input[off2..off2 + n]);
    var cs := CbcEncrypt(enc, v, ps);
    WithRest(Both(out, off, ToBytes(cs), shared, off2, ToBytes(Masked(v, ps, cs))),
             off + n, input[off2 + n..off2 + n + length % 16], enc)
  }

  /** An input buffer of its own behind the call: every block with what was chained into it. */
  function MaskedBuffer(enc: State -> State, v: State, input: seq<bv8>, off2: nat, length: nat): (r: seq<bv8>)
    requires off2 + PaddedLength(length) <= |input|
  {
    var ps := ToBlocks(input[off2..off2 + PaddedLength(length)]);
    Splice(input, off2, ToBytes(Masked(v, ps, CbcEncrypt(enc, v, ps))))
  }

  function DecryptedBuffer(dec: State -> State, v: State, out: seq<bv8>, off: nat,
                           input: seq<bv8>, off2: nat, length: nat): (r: seq<bv8>)
    requires RoomAt(|out|, off, |input|, off2, length)
    ensures |r| == |out|
  {
    var n := PaddedLength(length);
    var ps := CbcDecrypt(dec, v, ToBlocks(input[off2..off2 + n]));
    WithRest(Splice(out, off, ToBytes(ps)), off + n, input[off2 + n..off2 + n + length % 16], dec)
  }

  /** What a call on length bytes works in: the loop covers the last, partial block as well, and then
      as many further bytes as that block has of the text are copied into a block of their own. */
  predicate RoomAt(outLength: nat, off: nat, inputLength: nat, off2: nat, length: nat) {
    var n, extra := PaddedLength(length), length % 16;
    && off + (if extra > 0 then n + 16 else n) <= outLength
    && off2 + n + extra <= inputLength
  }

  /** The run of a call, over all blocks it takes up. */
  function EncryptionRun(enc: State -> State, v: State, out: seq<bv8>, off: nat,
                         input: seq<bv8>, off2: nat, shared: bool, length: nat): (run: Run)
    requires RoomAt(|out|, off, |input|, off2, length)
    requires shared ==> out == input && Disjoint(off, PaddedLength(length), off2, PaddedLength(length))
    ensures run.Fits() && 16 * |run.source| == PaddedLength(length)
  {
    hide ToBlocks, CbcEncrypt, Masked, StateAt;
    var source := ToBlocks(input[off2..off2 + PaddedLength(length)]);
    assert 16 * |source| == PaddedLength(length);
    var result := CbcEncrypt(enc, v, source);
    Run(v, source, result, Masked(v, source, result), out, off, input, off2, shared)
  }

  function DecryptionRun(dec: State -> State, v: State, out: seq<bv8>, off: nat,
                         input: seq<bv8>, off2: nat, shared: bool, length: nat): (run: Run)
    requires RoomAt(|out|, off, |input|, off2, length)
    requires shared ==> out == input && Disjoint(off, PaddedLength(length), off2, PaddedLength(length))
    ensures run.Fits() && 16 * |run.source| == PaddedLength(length)
  {
    var source := ToBlocks(input[off2..off2 + PaddedLength(length)]);
    Run(v, source, CbcDecrypt(dec, v, source), source, out, off, input, off2, shared)
  }

  lemma NoBytes(cipher: State -> State, v: State, out: seq<bv8>, off: nat,
                input: seq<bv8>, off2: nat, shared: bool)
    requires RoomAt(|out|, off, |input|, off2, 0) && (shared ==> out == input)
    ensures EncryptedBuffer(cipher, v, out, off, input, off2, shared, 0) == out
    ensures MaskedBuffer(cipher, v, input, off2, 0) == input
    ensures DecryptedBuffer(cipher, v, out, off, input, off2, 0) == out
  {}

  /** For whole blocks that is the chain alone. */
  lemma EncryptedWhole(enc: State -> State, v: State, out: seq<bv8>, off: nat,
                       input: seq<bv8>, off2: nat, shared: bool, length: nat)
    requires length % 16 == 0 && off + length <= |out| && off2 + length <= |input| && (shared ==> out == input)
    ensures var ps := ToBlocks(input[off2..off2 + length]);
            var cs := CbcEncrypt(enc, v, ps);
            var ms := Masked(v, ps, cs);
            && EncryptedBuffer(enc, v, out, off, input, off2, shared, length)
               == Both(out, off, ToBytes(cs), shared, off2, ToBytes(ms))
            && MaskedBuffer(enc, v, input, off2, length) == Splice(input, off2, ToBytes(ms))
  {
    hide ToBytes, Splice, Both, CbcEncrypt, Masked, ToBlocks;
  }

  lemma DecryptedWhole(dec: State -> State, v: State, out: seq<bv8>, off: nat,
                       input: seq<bv8>, off2: nat, length: nat)
    requires length % 16 == 0 && off + length <= |out| && off2 + length <= |input|
    ensures DecryptedBuffer(dec, v, out, off, input, off2, length)
         == Splice(out, off, ToBytes(CbcDecrypt(dec, v, ToBlocks(input[off2..off2 + length]))))
  {
    hide ToBytes, Splice, CbcDecrypt, ToBlocks;
  }

  predicate Holds(b: seq<bv8>, off: nat, text: seq<bv8>) {
    off + |text| <= |b| && b[off..off + |text|] == text
  }

  /** The ciphertext of a call of any length is in front, whatever it does behind the whole blocks. */
  lemma EncryptedText(enc: State -> State, v: State, out: seq<bv8>, off: nat,
                      input: seq<bv8>, off2: nat, shared: bool, length: nat, p: seq<bv8>)
    requires RoomAt(|out|, off, |input|, off2, length) && (shared ==> out == input)
    requires |p| == PaddedLength(length) && Holds(input, off2, p)
    ensures Holds(EncryptedBuffer(enc, v, out, off, input, off2, shared, length), off,
                  ToBytes(CbcEncrypt(enc, v, ToBlocks(p))))
  {
    hide StateAt, BlockBytes, ToBytes, CbcEncrypt, Masked, ToBlocks, WithRest, Splice;
    var ps := ToBlocks(p);
    var cs := CbcEncrypt(enc, v, ps);
    var n, c, m := PaddedLength(length), ToBytes(cs), ToBytes(Masked(v, ps, cs));
    SpliceHolds(if shared then Splice(out, off2, m) else out, off, c);
    var b := Both(out, off, c, shared, off2, m);
    hide Holds, Both;
    assert input[off2..off2 + n] == p;
    RestBehind(b, off, c, off + n, input[off2 + n..off2 + n + length % 16], enc);
  }

  lemma DecryptedBlocks(dec: State -> State, v: State, out: seq<bv8>, off: nat,
                        input: seq<bv8>, off2: nat, length: nat, c: seq<bv8>)
    requires RoomAt(|out|, off, |input|, off2, length)
    requires |c| == PaddedLength(length) && Holds(input, off2, c)
    ensures Holds(DecryptedBuffer(dec, v, out, off, input, off2, length), off,
                  ToBytes(CbcDecrypt(dec, v, ToBlocks(c))))
  {
    hide StateAt, BlockBytes, ToBytes, CbcDecrypt, ToBlocks, WithRest;
    var n, p := PaddedLength(length), ToBytes(CbcDecrypt(dec, v, ToBlocks(c)));
    var b := Splice(out, off, p);
    assert Holds(b, off, p);
    RestBehind(b, off, p, off + n, input[off2 + n..off2 + n + length % 16], dec);
  }

  lemma RestBehind(b: seq<bv8>, off: nat, text: seq<bv8>, at: nat, t: seq<bv8>, cipher: State -> State)
    requires Holds(b, off, text) && off + |text| <= at && (t != [] ==> |t| < 16 && at + 16 <= |b|)
    ensures Holds(WithRest(b, at, t, cipher), off, text)
  {
    hide StateAt, BlockBytes, Splice;
    if t != [] {
      var w := Splice(b, at, t);
      SpliceAside(b, at, t, off, |text|);
      SpliceAside(w, at, BlockBytes(cipher(StateAt(w, at))), off, |text|);
    }
  }

  lemma SpliceHolds(s: seq<bv8>, off: nat, x: seq<bv8>)
    requires off + |x| <= |s|
    ensures Holds(Splice(s, off, x), off, x)
  {}

  /** Whatever a call does behind the whole blocks, the text is in front. */
  lemma DecryptedText(dec: State -> State, v: State, out: seq<bv8>, off: nat,
                      input: seq<bv8>, off2: nat, length: nat)
    requires RoomAt(|out|, off, |input|, off2, length)
    ensures var b := DecryptedBuffer(dec, v, out, off, input, off2, length);
            && |b| == |out|
            && b[off..off + length]
               == ToBytes(CbcDecrypt(dec, v, ToBlocks(input[off2..off2 + PaddedLength(length)])))[..length]
  {
    hide StateAt, BlockBytes, ToBytes, CbcDecrypt, ToBlocks;
  }

  /** The blocks of a call and then its rest, on one buffer or two. */
  lemma EncryptedInTwoSteps(enc: State -> State, run: Run, length: nat, outMid: seq<bv8>, inputMid: seq<bv8>)
    requires run.Done(outMid, inputMid, |run.source|) && 16 * |run.source| == PaddedLength(length)
    requires run.result == CbcEncrypt(enc, run.v, run.source) && run.left == Masked(run.v, run.source, run.result)
    requires RoomAt(|run.out|, run.off, |run.input|, run.off2, length)
    requires run.shared ==> Disjoint(run.off, PaddedLength(length), run.off2, PaddedLength(length) + length % 16)
    ensures var at, to := run.off2 + PaddedLength(length), run.off + PaddedLength(length);
            && run.Fits() && |outMid| == |run.out| && |inputMid| == |run.input|
            && WithRest(outMid, to, inputMid[at..at + length % 16], enc)
               == EncryptedBuffer(enc, run.v, run.out, run.off, run.input, run.off2, run.shared, length)
    ensures !run.shared ==> inputMid == MaskedBuffer(enc, run.v, run.input, run.off2, length)
  {
    hide ToBytes, Splice, Both, CbcEncrypt, ToBlocks, WithRest;
    run.StillThere(outMid, inputMid, |run.source|, length % 16);
    run.Ends(outMid, inputMid);
  }

  lemma DecryptedInTwoSteps(dec: State -> State, run: Run, length: nat, outMid: seq<bv8>, inputMid: seq<bv8>)
    requires run.Done(outMid, inputMid, |run.source|) && 16 * |run.source| == PaddedLength(length)
    requires run.result == CbcDecrypt(dec, run.v, run.source) && run.left == run.source
    requires RoomAt(|run.out|, run.off, |run.input|, run.off2, length)
    requires run.shared ==> Disjoint(run.off, PaddedLength(length), run.off2, PaddedLength(length) + length % 16)
    ensures var at, to := run.off2 + PaddedLength(length), run.off + PaddedLength(length);
            && run.Fits() && |outMid| == |run.out| && |inputMid| == |run.input|
            && WithRest(outMid, to, inputMid[at..at + length % 16], dec)
               == DecryptedBuffer(dec, run.v, run.out, run.off, run.input, run.off2, length)
  {
    hide ToBytes, Splice, CbcDecrypt, ToBlocks, WithRest, Both;
    run.StillThere(outMid, inputMid, |run.source|, length % 16);
    run.EndsWithInput(outMid, inputMid);
  }

  /** The byte at the returned length, where a reader of the text would look for its end, when the NUL
      has been written one place behind: it is NUL exactly if the fill is, or, where no fill came off,
      if the byte behind the text is. */
  lemma EndsInNulExactlyIf(b: seq<bv8>, off: nat, length: nat, fill: bv8, signedChar: bool)
    requires off + length + 2 <= |b|
    ensures var r := |Stripped(b[off..off + length], fill, signedChar)|;
            && (r < length ==> b[off + r] == fill)
            && (b[off + r + 1 := 0][off + r] == 0 <==> if r < length then fill == 0 else b[off + length] == 0)
  {
    var text := b[off..off + length];
    StrippedIsLongestWithoutFill(text, fill, signedChar);
    var r := |Stripped(text, fill, signedChar)|;
    if r < length {
      assert text[r] == fill;
    }
  }
}
