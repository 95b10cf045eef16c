/** Calls in sequence on one context: key and vector are given to the first call only, and the
    round keys and the vector pointer left behind carry the chain from call to call. */
module CbcStreaming {
  import opened Aes
  import opened AesState
  import opened AesCipher
  import opened ByteBlocks
  import opened CbcBuffers
  import opened CbcMode
  import opened KeySchedule
  import opened Padding

  /** The blocks in a sequence of chunks, each given by its number of blocks. */
  function Total(chunks: seq<nat>): nat {
    if chunks == [] then 0 else Total(chunks[..|chunks| - 1]) + chunks[|chunks| - 1]
  }

  lemma TotalUpTo(chunks: seq<nat>, j: nat)
    requires j < |chunks|
    ensures Total(chunks[..j + 1]) == Total(chunks[..j]) + chunks[j] <= Total(chunks)
  {
    assert chunks[..j + 1][..j] == chunks[..j];
    TotalGrows(chunks, j + 1);
  }

  lemma {:induction false} TotalGrows(chunks: seq<nat>, j: nat)
    requires j <= |chunks|
    ensures Total(chunks[..j]) <= Total(chunks)
    decreases |chunks|
  {
    if j < |chunks| {
      TotalGrows(chunks[..|chunks| - 1], j);
      assert chunks[..|chunks| - 1][..j] == chunks[..j];
    } else {
      assert chunks[..j] == chunks;
    }
  }

  lemma EncryptedChunk(enc: State -> State, iv: State, ps: Blocks, a: nat, b: nat)
    requires a <= b <= |ps|
    ensures var cs := CbcEncrypt(enc, iv, ps); CbcEncrypt(enc, Chained(iv, cs, a), ps[a..b]) == cs[a..b]
  {
    hide XorState, CbcEncrypt;
    var cs := CbcEncrypt(enc, iv, ps);
    forall i | 0 <= i < b - a
      ensures cs[a..b][i] == enc(XorState(ps[a..b][i], Chained(Chained(iv, cs, a), cs[a..b], i)))
    {
      EncryptRecurrence(enc, iv, ps, a + i);
    }
    RecurrenceDetermines(enc, Chained(iv, cs, a), ps[a..b], cs[a..b]);
  }

  lemma DecryptedChunk(dec: State -> State, iv: State, cs: Blocks, a: nat, b: nat)
    requires a <= b <= |cs|
    ensures CbcDecrypt(dec, Chained(iv, cs, a), cs[a..b]) == CbcDecrypt(dec, iv, cs)[a..b]
  {
    hide XorState;
  }

  lemma MaskedChunk(iv: State, ps: Blocks, cs: Blocks, a: nat, b: nat)
    requires a <= b <= |ps| == |cs|
    ensures Masked(Chained(iv, cs, a), ps[a..b], cs[a..b]) == Masked(iv, ps, cs)[a..b]
  {
    hide XorState;
  }

  lemma BlocksOfPart(s: seq<bv8>, off: nat, n: nat, a: nat, b: nat)
    requires off + 16 * n <= |s| && a <= b <= n
    ensures ToBlocks(s[off + 16 * a..off + 16 * b]) == ToBlocks(s[off..off + 16 * n])[a..b]
  {
    hide StateAt;
    forall i | 0 <= i < b - a
      ensures StateAt(s[off + 16 * a..off + 16 * b], 16 * i) == StateAt(s[off..off + 16 * n], 16 * (a + i))
    {
      StateOfRegion(s, off + 16 * a, 16 * (b - a), 16 * i);
      StateOfRegion(s, off, 16 * n, 16 * (a + i));
    }
  }

  // ----- A part of a run -----

  /** The blocks of a run from a to b, as the next call finds them. */
  lemma NextChunk(run: Run, outNow: seq<bv8>, inputNow: seq<bv8>, a: nat, b: nat)
    requires run.Done(outNow, inputNow, a) && a <= b <= |run.source|
    ensures var at, n := run.off2 + 16 * a, 16 * (b - a);
            && run.Fits() && |outNow| == |run.out| && |inputNow| == |run.input|
            && |run.result| == |run.left| == |run.source|
            && at + n <= |run.input| && run.off + 16 * b <= |run.out| && (run.shared ==> outNow == inputNow)
            && ToBlocks(inputNow[at..at + n]) == run.source[a..b]
  {
    hide Splice, Both, ToBytes, ToBlocks;
    run.StillThere(outNow, inputNow, a, 16 * (b - a));
    BlocksOfPart(run.input, run.off2, |run.source|, a, b);
  }

  /** The n bytes of the blocks from a to b have their place in both buffers. */
  predicate PartOf(run: Run, out: seq<bv8>, input: seq<bv8>, a: nat, b: nat, n: nat) {
    && |run.source| == |run.result| == |run.left| && a <= b <= |run.source|
    && n == 16 * (b - a) && n % 16 == 0 && PaddedLength(n) == n
    && |out| == |run.out| && |input| == |run.input| && (run.shared ==> out == input)
    && run.off + 16 * b <= |out| && run.off2 + 16 * b <= |input|
    && RoomAt(|out|, run.off + 16 * a, |input|, run.off2 + 16 * a, n)
  }

  ghost predicate EncryptionOf(enc: State -> State, run: Run) {
    && |run.source| == |run.result| && run.result == CbcEncrypt(enc, run.v, run.source)
    && run.left == Masked(run.v, run.source, run.result)
  }

  // What a call makes of the output and of the input, and what the run has there.

  function NextEncrypted(enc: State -> State, v: State, run: Run, out: seq<bv8>, input: seq<bv8>,
                       a: nat, b: nat, n: nat): (next: seq<bv8>)
    requires PartOf(run, out, input, a, b, n)
  {
    EncryptedBuffer(enc, v, out, run.off + 16 * a, input, run.off2 + 16 * a, run.shared, n)
  }

  function NextMasked(enc: State -> State, v: State, run: Run, out: seq<bv8>, input: seq<bv8>,
                      a: nat, b: nat, n: nat): (next: seq<bv8>)
    requires PartOf(run, out, input, a, b, n)
  {
    MaskedBuffer(enc, v, input, run.off2 + 16 * a, n)
  }

  function NextDecrypted(dec: State -> State, v: State, run: Run, out: seq<bv8>, input: seq<bv8>,
                        a: nat, b: nat, n: nat): (next: seq<bv8>)
    requires PartOf(run, out, input, a, b, n)
  {
    DecryptedBuffer(dec, v, out, run.off + 16 * a, input, run.off2 + 16 * a, n)
  }

  function PartWritten(run: Run, out: seq<bv8>, input: seq<bv8>, a: nat, b: nat, n: nat): (next: seq<bv8>)
    requires PartOf(run, out, input, a, b, n)
  {
    Both(out, run.off + 16 * a, ToBytes(run.result[a..b]), run.shared, run.off2 + 16 * a, ToBytes(run.left[a..b]))
  }

  function PartLeft(run: Run, out: seq<bv8>, input: seq<bv8>, a: nat, b: nat, n: nat): (next: seq<bv8>)
    requires PartOf(run, out, input, a, b, n)
  {
    Splice(input, run.off2 + 16 * a, ToBytes(run.left[a..b]))
  }

  /** A call on the n bytes of the blocks from a to b, chained to those before. */
  lemma EncryptedPart(enc: State -> State, run: Run, out: seq<bv8>, input: seq<bv8>, a: nat, b: nat, n: nat)
    requires PartOf(run, out, input, a, b, n) && run.Done(out, input, a) && EncryptionOf(enc, run)
    ensures var v := Chained(run.v, run.result, a);
            && NextEncrypted(enc, v, run, out, input, a, b, n) == PartWritten(run, out, input, a, b, n)
            && NextMasked(enc, v, run, out, input, a, b, n) == PartLeft(run, out, input, a, b, n)
  {
    hide ToBytes, Splice, Both, ToBlocks, CbcEncrypt, Masked, Run.Done, Run.Fits, EncryptedBuffer, MaskedBuffer,
      PaddedLength, StateAt;
    NextChunk(run, out, input, a, b);
    EncryptedChunk(enc, run.v, run.source, a, b);
    MaskedChunk(run.v, run.source, run.result, a, b);
    EncryptedWhole(enc, Chained(run.v, run.result, a), out, run.off + 16 * a, input, run.off2 + 16 * a, run.shared, n);
  }

  ghost predicate DecryptionOf(dec: State -> State, run: Run) {
    run.result == CbcDecrypt(dec, run.v, run.source) && run.left == run.source
  }

  lemma DecryptedPart(dec: State -> State, run: Run, out: seq<bv8>, input: seq<bv8>, a: nat, b: nat, n: nat)
    requires PartOf(run, out, input, a, b, n) && run.Done(out, input, a) && DecryptionOf(dec, run)
    ensures NextDecrypted(dec, Chained(run.v, run.source, a), run, out, input, a, b, n)
         == PartWritten(run, out, input, a, b, n)
    ensures PartLeft(run, out, input, a, b, n) == input
  {
    hide ToBytes, Splice, Both, ToBlocks, CbcDecrypt, Run.Done, Run.Fits, DecryptedBuffer, PaddedLength, StateAt;
    NextChunk(run, out, input, a, b);
    DecryptedChunk(dec, run.v, run.source, a, b);
    var at, at2 := run.off + 16 * a, run.off2 + 16 * a;
    BytesOfBlocks(input[at2..at2 + n]);
    SpliceSame(input, at2, n);
    DecryptedWhole(dec, Chained(run.v, run.source, a), out, at, input, at2, n);
    JustOne(out, at, ToBytes(run.result[a..b]), run.shared, at2, ToBytes(run.left[a..b]));
  }

  /** With no bytes to work on, the vector does not matter. */
  lemma AnyVector(enc: State -> State, v: State, w: State, out: seq<bv8>, off: nat,
                  input: seq<bv8>, off2: nat, shared: bool, n: nat)
    requires n % 16 == 0 && off + n <= |out| && off2 + n <= |input| && (shared ==> out == input)
    requires PaddedLength(n) == n && (n > 0 ==> v == w)
    ensures EncryptedBuffer(enc, v, out, off, input, off2, shared, n)
         == EncryptedBuffer(enc, w, out, off, input, off2, shared, n)
    ensures MaskedBuffer(enc, v, input, off2, n) == MaskedBuffer(enc, w, input, off2, n)
    ensures n == 0 ==> EncryptedBuffer(enc, v, out, off, input, off2, shared, n) == out
                       && MaskedBuffer(enc, v, input, off2, n) == input
  {
    hide EncryptedBuffer, MaskedBuffer;
    if n == 0 {
      NoBytes(enc, v, out, off, input, off2, shared);
      NoBytes(enc, w, out, off, input, off2, shared);
    }
  }

  lemma AnyVectorBack(dec: State -> State, v: State, w: State, out: seq<bv8>, off: nat,
                      input: seq<bv8>, off2: nat, n: nat)
    requires n % 16 == 0 && off + n <= |out| && off2 + n <= |input|
    requires PaddedLength(n) == n && (n > 0 ==> v == w)
    ensures DecryptedBuffer(dec, v, out, off, input, off2, n) == DecryptedBuffer(dec, w, out, off, input, off2, n)
    ensures n == 0 ==> DecryptedBuffer(dec, v, out, off, input, off2, n) == out
  {
    hide DecryptedBuffer;
    if n == 0 {
      NoBytes(dec, v, out, off, input, off2, false);
      NoBytes(dec, w, out, off, input, off2, false);
    }
  }

  /** So a call takes a run on from a to b. */
  lemma TakenOn(enc: State -> State, run: Run, out: seq<bv8>, input: seq<bv8>, a: nat, b: nat, n: nat, v: State)
    requires PartOf(run, out, input, a, b, n) && run.Done(out, input, a) && EncryptionOf(enc, run)
    requires n > 0 ==> v == Chained(run.v, run.result, a)
    ensures var next := NextEncrypted(enc, v, run, out, input, a, b, n);
            var left := NextMasked(enc, v, run, out, input, a, b, n);
            && run.Done(next, if run.shared then next else left, b)
            && (n == 0 ==> next == out && left == input)
  {
    hide ToBytes, Splice, Both, ToBlocks, EncryptedBuffer, MaskedBuffer, Masked, Run.Done, PaddedLength;
    EncryptedPart(enc, run, out, input, a, b, n);
    var at, at2 := run.off + 16 * a, run.off2 + 16 * a;
    AnyVector(enc, v, Chained(run.v, run.result, a), out, at, input, at2, run.shared, n);
    var next := EncryptedBuffer(enc, v, out, at, input, at2, run.shared, n);
    run.More(out, input, next, if run.shared then next else MaskedBuffer(enc, v, input, at2, n), a, b);
  }

  lemma TakenBack(dec: State -> State, run: Run, out: seq<bv8>, input: seq<bv8>, a: nat, b: nat, n: nat, v: State)
    requires PartOf(run, out, input, a, b, n) && run.Done(out, input, a) && DecryptionOf(dec, run)
    requires n > 0 ==> v == Chained(run.v, run.source, a)
    ensures var next := NextDecrypted(dec, v, run, out, input, a, b, n);
            && run.Done(next, if run.shared then next else input, b)
            && (n == 0 ==> next == out) && run.left == run.source
  {
    hide ToBytes, Splice, Both, ToBlocks, DecryptedBuffer, Run.Done, PaddedLength;
    DecryptedPart(dec, run, out, input, a, b, n);
    var at, at2 := run.off + 16 * a, run.off2 + 16 * a;
    AnyVectorBack(dec, v, Chained(run.v, run.source, a), out, at, input, at2, n);
    var next := DecryptedBuffer(dec, v, out, at, input, at2, n);
    run.More(out, input, next, if run.shared then next else input, a, b);
  }

  /** The last of the first k blocks written to s. */
  lemma LastSpliced(s: seq<bv8>, off: nat, bs: Blocks, k: nat)
    requires 0 < k <= |bs| && off + 16 * k <= |s|
    ensures StateAt(Splice(s, off, ToBytes(bs[..k])), off + 16 * k - 16) == bs[k - 1]
  {
    BlockInBytes(bs[..k], k - 1);
    var t := ToBytes(bs[..k]);
    hide ToBytes, StateAt;
    SameBytesSameState(Splice(s, off, t), off + 16 * k - 16, t, 16 * k - 16);
  }

  /** The block chained on, in the output of an encryption and in the input of a decryption. */
  lemma LastBlocks(run: Run, outNow: seq<bv8>, inputNow: seq<bv8>, k: nat)
    requires run.Done(outNow, inputNow, k) && k > 0
    ensures run.Fits() && |outNow| == |run.out| && |inputNow| == |run.input| && k <= |run.source|
    ensures StateAt(outNow, run.off + 16 * k - 16) == run.result[k - 1]
    ensures StateAt(inputNow, run.off2 + 16 * k - 16) == run.left[k - 1]
  {
    hide StateAt, ToBytes, ToBlocks, Splice;
    LastSpliced(run.input, run.off2, run.left, k);
    if run.shared {
      var s := Splice(run.out, run.off2, ToBytes(run.left[..k]));
      LastSpliced(s, run.off, run.result, k);
      SpliceAside(s, run.off, ToBytes(run.result[..k]), run.off2 + 16 * k - 16, 16);
      SameBytesSameState(inputNow, run.off2 + 16 * k - 16, s, run.off2 + 16 * k - 16);
    } else {
      LastSpliced(run.out, run.off, run.result, k);
    }
  }

  // ----- The calls -----

  /** The key argument of a call gives the round keys rk. */
  ghost predicate WorksWith(c: Context, key: Pointer, rk: seq<bv8>)
    reads c, c.roundKey, if key.At? then {key.buf} else {}
  {
    && c.Valid() && |rk| == 16 * (c.rounds + 1)
    && (key.At? ==> key.Spans(4 * c.keyWords) && key.buf != c.roundKey)
    && c.ScheduleUnder(key) == rk
  }

  /** The buffers at output and input are a blocks into the run. */
  ghost predicate Midway(run: Run, output: Pointer, input: Pointer, a: nat)
    reads if output.At? then {output.buf} else {}, if input.At? then {input.buf} else {}
  {
    && output.At? && input.At? && run.off == output.off && run.off2 == input.off
    && (run.shared <==> output.buf == input.buf) && run.Done(output.buf[..], input.buf[..], a)
  }

  /** Where the chain stands when a blocks are done: the vector in use is the one given, or the last
      of the blocks bs at p. */
  ghost predicate ChainAt(c: Context, w: Pointer, iv: Pointer, p: Pointer, v: State, bs: Blocks, a: nat)
    reads c, if iv.At? then {iv.buf} else {}, if p.At? then {p.buf} else {}
  {
    && iv.Spans(16) && p.Spans(16 * a) && a <= |bs|
    && c.VectorOf(w) == (if a == 0 then iv else p.Plus(16 * a - 16))
    && c.VectorOf(w).Block() == Chained(v, bs, a)
  }

  lemma VectorFound(c: Context, w: Pointer, iv: Pointer, p: Pointer, q: Pointer, v: State, bs: Blocks, a: nat)
    requires ChainAt(c, w, iv, p, v, bs, a) && q.At?
    requires if a == 0 then Apart(iv, 16, q, 16) else Apart(p, 16 * a, q, 16 * a + 16)
    ensures c.VectorOf(w).Spans(16) && Apart(c.VectorOf(w), 16, q.Plus(16 * a), 16)
    ensures c.VectorOf(w).buf in {iv.buf, p.buf} && c.VectorOf(w).Block() == Chained(v, bs, a)
  {
    hide StateAt;
  }

  /** The regions of a run and of the part of it from a to b. */
  lemma Regions(run: Run, output: Pointer, input: Pointer, a: nat, b: nat)
    requires Midway(run, output, input, a) && a <= b <= |run.source|
    ensures output.Spans(16 * b) && input.Spans(16 * b) && Apart(output, 16 * b, input, 16 * b)
    ensures PartOf(run, output.buf[..], input.buf[..], a, b, 16 * (b - a))
    ensures Apart(output.Plus(16 * a), 16 * (b - a), input.Plus(16 * a), 16 * (b - a))
  {
    hide ToBytes, ToBlocks, Both, Splice;
    WholeBlocks(b - a);
  }

  /** Behind a call the vector in use is the last block, or still the one before if there was none. */
  lemma NextChain(c: Context, u: Pointer, iv: Pointer, output: Pointer, input: Pointer, run: Run, ahead: bool,
                  a: nat, b: nat)
    requires Midway(run, output, input, b) && iv.Spans(16) && a <= b <= |run.source|
    requires u == if a == 0 then iv else (if ahead then output else input).Plus(16 * a - 16)
    requires c.vector == VectorBehind((if ahead then output else input).Plus(16 * a), 16 * (b - a), u)
    requires b == 0 ==> iv.Block() == run.v
    ensures ahead ==> ChainAt(c, Null, iv, output, run.v, run.result, b)
    ensures !ahead && run.left == run.source ==> ChainAt(c, Null, iv, input, run.v, run.source, b)
  {
    hide StateAt, ToBytes, ToBlocks, Both, Splice, Run.Done;
    WholeBlocks(b - a);
    Regions(run, output, input, b, b);
    if b > 0 {
      LastBlocks(run, output.buf[..], input.buf[..], b);
    }
  }

  /** One call in the sequence: a blocks are done, and the call takes the count to b. */
  method EncryptChunk(c: Context, output: Pointer, input: Pointer, a: nat, b: nat, key: Pointer, w: Pointer,
                      ghost iv: Pointer, ghost run: Run, ghost rk: seq<bv8>)
    requires Midway(run, output, input, a) && a <= b <= |run.source|
    requires ChainAt(c, w, iv, output, run.v, run.result, a)
    requires c.roundKey !in {output.buf, input.buf, iv.buf} && (a == 0 < b ==> Apart(iv, 16, input, 16))
    requires WorksWith(c, key, rk) && RoundKeysCover(rk, c.rounds) && EncryptionOf(EncipherWith(rk, c.rounds), run)
    modifies c`keyPointer, c`vector, c`state, c.roundKey, output.buf, input.buf
    ensures ChainAt(c, Null, iv, output, run.v, run.result, b)
    ensures c.Valid() && WorksWith(c, Null, rk) && Midway(run, output, input, b)
  {
    hide StateAt, CbcEncrypt, ToBytes, ExpandKey, ToBlocks, Masked, EncipherWith, EncryptedBuffer, MaskedBuffer,
      Both, Splice, Run.Done, Run.Fits, EncryptionOf, PaddedLength, LastBlock, VectorBehind;
    ghost var n, u := 16 * (b - a), c.VectorOf(w);
    WholeBlocks(b - a);
    Regions(run, output, input, a, b);
    if a < b {
      VectorFound(c, w, iv, output, input, run.v, run.result, a);
    }
    TakenOn(EncipherWith(rk, c.rounds), run, output.buf[..], input.buf[..], a, b, n, c.FirstVector(w, n));
    c.CbcEncryptBuffer(output.Plus(16 * a), input.Plus(16 * a), 16 * (b - a), key, w);
    NextChain(c, u, iv, output, input, run, true, a, b);
  }

  /** A run over no blocks, and the predicates of the loop at its start. */
  lemma Starts(c: Context, output: Pointer, input: Pointer, key: Pointer, iv: Pointer, p: Pointer, bs: Blocks, run: Run)
    requires RunOn(run, output, input, 16 * |run.source|) && iv.Spans(16) && p in {output, input}
    requires c.Valid() && key.Spans(4 * c.keyWords) && key.buf != c.roundKey && run.v == iv.Block()
    ensures Midway(run, output, input, 0) && ChainAt(c, iv, iv, p, run.v, bs, 0)
    ensures WorksWith(c, key, c.ScheduleUnder(key))
  {
    hide ExpandKey, StateAt, Run.Done, ToBlocks;
    run.Begins();
  }

  lemma InUse(c: Context, rk: seq<bv8>)
    requires WorksWith(c, Null, rk)
    ensures c.Valid() && c.Schedule() == rk
  {}

  lemma NoChunks()
    ensures Total([]) == 0
  {}

  lemma AllEncrypted(enc: State -> State, output: Pointer, input: Pointer, run: Run, n: nat)
    requires Midway(run, output, input, |run.source|) && EncryptionOf(enc, run) && n == 16 * |run.source|
    ensures RoomAt(|run.out|, run.off, |run.input|, run.off2, n) && (run.shared ==> run.out == run.input)
    ensures output.buf[..] == EncryptedBuffer(enc, run.v, run.out, run.off, run.input, run.off2, run.shared, n)
    ensures !run.shared ==> input.buf[..] == MaskedBuffer(enc, run.v, run.input, run.off2, n)
  {
    hide ToBytes, Splice, Both, CbcEncrypt, ToBlocks, EncryptedBuffer, MaskedBuffer, Masked, PaddedLength, Run.Done,
      StateAt;
    WholeBlocks(|run.source|);
    run.Ends(output.buf[..], input.buf[..]);
    EncryptedWhole(enc, run.v, run.out, run.off, run.input, run.off2, run.shared, n);
  }

  lemma AllDecrypted(dec: State -> State, output: Pointer, input: Pointer, run: Run, n: nat)
    requires Midway(run, output, input, |run.source|) && DecryptionOf(dec, run) && n == 16 * |run.source|
    ensures RoomAt(|run.out|, run.off, |run.input|, run.off2, n)
    ensures output.buf[..] == DecryptedBuffer(dec, run.v, run.out, run.off, run.input, run.off2, n)
  {
    hide ToBytes, Splice, Both, CbcDecrypt, ToBlocks, DecryptedBuffer, PaddedLength, Run.Done, StateAt;
    WholeBlocks(|run.source|);
    run.EndsWithInput(output.buf[..], input.buf[..]);
    DecryptedWhole(dec, run.v, run.out, run.off, run.input, run.off2, n);
  }

  /** Any division into chunks of whole blocks leaves both buffers as one call on the whole does. */
  method EncryptStream(c: Context, output: Pointer, input: Pointer, chunks: seq<nat>, key: Pointer, iv: Pointer)
    requires c.Valid() && chunks != [] && Room(output, input, 16 * Total(chunks))
    requires key.Spans(4 * c.keyWords) && iv.Spans(16)
    requires c.roundKey !in {output.buf, input.buf, key.buf, iv.buf}
    requires Total(chunks) > 0 ==> Apart(iv, 16, input, 16)
    modifies c`keyPointer, c`vector, c`state, c.roundKey, output.buf, input.buf
    ensures c.Schedule() == old(c.ScheduleUnder(key))
    ensures var enc, v, n := EncipherWith(c.Schedule(), c.rounds), old(iv.Block()), 16 * Total(chunks);
            && output.buf[..] == EncryptedBuffer(enc, v, old(output.buf[..]), output.off, old(input.buf[..]), input.off,
                                                 input.buf == output.buf, n)
            && (input.buf != output.buf ==>
                  input.buf[..] == MaskedBuffer(enc, v, old(input.buf[..]), input.off, n))
  {
    hide StateAt, CbcEncrypt, ToBytes, ExpandKey, Splice, Both, ToBlocks, Total, EncipherWith, EncryptedBuffer,
      MaskedBuffer, Masked, Run.Done, Run.Fits, WorksWith, EncryptionOf, Midway, ChainAt, PaddedLength;
    ghost var n, rk := Total(chunks), c.ScheduleUnder(key);
    ghost var enc := EncipherWith(rk, c.rounds);
    WholeBlocks(n);
    ghost var run := EncryptionRun(enc, iv.Block(), output.buf[..], output.off,
                                   input.buf[..], input.off, input.buf == output.buf, 16 * n);
    Starts(c, output, input, key, iv, output, run.result, run);
    RunEncrypts(enc, run);
    assert chunks[..|chunks|] == chunks && chunks[..0] == [];
    NoChunks();
    var j, a, k, w := 0, 0, key, iv;
    while j < |chunks|
      invariant j <= |chunks| && a == Total(chunks[..j]) <= n && c.Valid()
      invariant if j == 0 then k == key && w == iv else k == w == Null
      invariant WorksWith(c, k, rk)
      invariant Midway(run, output, input, a)
      invariant ChainAt(c, w, iv, output, run.v, run.result, a)
    {
      TotalUpTo(chunks, j);
      EncryptChunk(c, output, input, a, a + chunks[j], k, w, iv, run, rk);
      a, k, w, j := a + chunks[j], Null, Null, j + 1;
    }
    InUse(c, rk);
    AllEncrypted(enc, output, input, run, 16 * n);
  }

  lemma RunEncrypts(enc: State -> State, run: Run)
    requires |run.source| == |run.result| && run.result == CbcEncrypt(enc, run.v, run.source)
    requires run.left == Masked(run.v, run.source, run.result)
    ensures EncryptionOf(enc, run)
  {}

  lemma RunDecrypts(dec: State -> State, run: Run)
    requires run.result == CbcDecrypt(dec, run.v, run.source) && run.left == run.source
    ensures DecryptionOf(dec, run)
  {}

  /** The converse call; here the vector pointer is left inside the input. */
  method DecryptChunk(c: Context, output: Pointer, input: Pointer, a: nat, b: nat, key: Pointer, w: Pointer,
                      ghost iv: Pointer, ghost run: Run, ghost rk: seq<bv8>)
    requires Midway(run, output, input, a) && a <= b <= |run.source|
    requires ChainAt(c, w, iv, input, run.v, run.source, a)
    requires c.roundKey !in {output.buf, input.buf, iv.buf} && (a == 0 < b ==> Apart(iv, 16, output, 16))
    requires WorksWith(c, key, rk) && RoundKeysCover(rk, c.rounds) && DecryptionOf(DecipherWith(rk, c.rounds), run)
    modifies c`keyPointer, c`vector, c`state, c.roundKey, output.buf
    ensures ChainAt(c, Null, iv, input, run.v, run.source, b)
    ensures c.Valid() && WorksWith(c, Null, rk) && Midway(run, output, input, b)
  {
    hide StateAt, CbcDecrypt, ToBytes, ExpandKey, ToBlocks, DecipherWith, DecryptedBuffer,
      Both, Splice, Run.Done, Run.Fits, DecryptionOf, PaddedLength, LastBlock, VectorBehind;
    ghost var n, u := 16 * (b - a), c.VectorOf(w);
    WholeBlocks(b - a);
    Regions(run, output, input, a, b);
    if a < b {
      VectorFound(c, w, iv, input, output, run.v, run.source, a);
    }
    TakenBack(DecipherWith(rk, c.rounds), run, output.buf[..], input.buf[..], a, b, n, c.FirstVector(w, n));
    c.CbcDecryptBuffer(output.Plus(16 * a), input.Plus(16 * a), 16 * (b - a), key, w);
    NextChain(c, u, iv, output, input, run, false, a, b);
  }

  method DecryptStream(c: Context, output: Pointer, input: Pointer, chunks: seq<nat>, key: Pointer, iv: Pointer)
    requires c.Valid() && chunks != [] && Room(output, input, 16 * Total(chunks))
    requires key.Spans(4 * c.keyWords) && iv.Spans(16)
    requires c.roundKey !in {output.buf, input.buf, key.buf, iv.buf}
    requires Total(chunks) > 0 ==> Apart(iv, 16, output, 16)
    modifies c`keyPointer, c`vector, c`state, c.roundKey, output.buf
    ensures c.Schedule() == old(c.ScheduleUnder(key))
    ensures output.buf[..]
         == DecryptedBuffer(DecipherWith(c.Schedule(), c.rounds), old(iv.Block()),
                            old(output.buf[..]), output.off, old(input.buf[..]), input.off, 16 * Total(chunks))
  {
    hide StateAt, CbcDecrypt, ToBytes, ExpandKey, Splice, Both, ToBlocks, Total, DecipherWith, DecryptedBuffer,
      Run.Done, Run.Fits, WorksWith, DecryptionOf, Midway, ChainAt, PaddedLength;
    ghost var n, rk := Total(chunks), c.ScheduleUnder(key);
    ghost var dec := DecipherWith(rk, c.rounds);
    WholeBlocks(n);
    ghost var run := DecryptionRun(dec, iv.Block(), output.buf[..], output.off,
                                   input.buf[..], input.off, input.buf == output.buf, 16 * n);
    Starts(c, output, input, key, iv, input, run.source, run);
    RunDecrypts(dec, run);
    assert chunks[..|chunks|] == chunks && chunks[..0] == [];
    NoChunks();
    var j, a, k, w := 0, 0, key, iv;
    while j < |chunks|
      invariant j <= |chunks| && a == Total(chunks[..j]) <= n && c.Valid()
      invariant if j == 0 then k == key && w == iv else k == w == Null
      invariant WorksWith(c, k, rk)
      invariant Midway(run, output, input, a)
      invariant ChainAt(c, w, iv, input, run.v, run.source, a)
    {
      TotalUpTo(chunks, j);
      DecryptChunk(c, output, input, a, a + chunks[j], k, w, iv, run, rk);
      a, k, w, j := a + chunks[j], Null, Null, j + 1;
    }
    InUse(c, rk);
    AllDecrypted(dec, output, input, run, 16 * n);
  }
}
