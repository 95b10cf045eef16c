/** The cipher context and its operations on byte buffers: everything is done in place,
    through pointers that stay behind between calls. */
module Aes {
  import opened Gf256
  import opened AesTables
  import opened AesState
  import opened AesCipher
  import opened KeySchedule
  import opened CbcBuffers
  import opened CbcMode
  import opened ByteBlocks
  import opened Padding
  import opened Slices

  /** A byte pointer: null, or a position in an allocated buffer. */
  datatype Pointer = Null | At(buf: array<bv8>, off: nat) {

    predicate Spans(n: nat) {
      At? && off + n <= buf.Length
    }

    function Plus(n: nat): Pointer
      requires At?
    {
      At(buf, off + n)
    }

    function Region(n: nat): (s: seq<bv8>)
      requires Spans(n)
      reads if At? then {buf} else {}
      ensures |s| == n
    {
      buf[off..off + n]
    }

    function Block(): State
      requires Spans(16)
      reads if At? then {buf} else {}
    {
      StateAt(buf[..], off)
    }
  }

  /** The n bytes at p and the m bytes at q do not overlap. */
  predicate Apart(p: Pointer, n: nat, q: Pointer, m: nat)
    requires p.At? && q.At?
  {
    p.buf != q.buf || Disjoint(p.off, n, q.off, m)
  }

  /** Only the n bytes at off may differ. */
  predicate SameOutside(now: seq<bv8>, before: seq<bv8>, off: nat, n: nat) {
    && |now| == |before|
    && forall p | 0 <= p < |now| && !(off <= p < off + n) :: now[p] == before[p]
  }

  lemma NothingWritten(s: seq<bv8>)
    ensures SameOutside(s, s, 0, 0)
  {}

  lemma MoreWritten(now: seq<bv8>, last: seq<bv8>, before: seq<bv8>, n: nat, m: nat)
    requires SameOutside(now, last, n, m) && SameOutside(last, before, 0, n)
    ensures |now| == |last| && SameOutside(now, before, 0, n + m) && forall p | 0 <= p < n < |now| :: now[p] == last[p]
  {}

  lemma FourMoreBytes(now: seq<bv8>, last: seq<bv8>, before: seq<bv8>, t: seq<bv8>, n: nat)
    requires n + 4 <= |now| && n + 4 <= |t|
    requires SameOutside(now, last, n, 4) && now[n..n + 4] == t[n..n + 4]
    requires SameOutside(last, before, 0, n) && last[..n] == t[..n]
    ensures now[..n + 4] == t[..n + 4] && SameOutside(now, before, 0, n + 4)
  {
    assert now[..n] == last[..n];
    LongerPrefix(now, t, n, 4);
  }

  /** The block at o when sixteen bytes of k have been added to it. */
  lemma BlockAdded(now: seq<bv8>, before: seq<bv8>, o: nat, k: seq<bv8>, r: int)
    requires |now| == |before| && o + 16 <= |now| && 0 <= o + r && o + r + 16 <= |k|
    requires forall p | o <= p < o + 16 :: now[p] == Add(before[p], k[p + r])
    ensures StateAt(now, o) == XorState(StateAt(before, o), StateAt(k, o + r))
  {
    hide Add;
  }

  // The block at o when the four bytes of one row are written anew.

  lemma FirstRowWritten(s: seq<bv8>, o: nat, x0: bv8, x1: bv8, x2: bv8, x3: bv8)
    requires o + 16 <= |s|
    ensures var t, b := s[o + 1 := x0][o + 5 := x1][o + 9 := x2][o + 13 := x3], StateAt(s, o);
            && SameOutside(t, s, o, 16)
            && StateAt(t, o) == b.(c0 := b.c0.(b1 := x0), c1 := b.c1.(b1 := x1),
                                   c2 := b.c2.(b1 := x2), c3 := b.c3.(b1 := x3))
            && [b.c0.b1, b.c1.b1, b.c2.b1, b.c3.b1] == [s[o + 1], s[o + 5], s[o + 9], s[o + 13]]
  {}

  lemma SecondRowWritten(s: seq<bv8>, o: nat, x0: bv8, x1: bv8, x2: bv8, x3: bv8)
    requires o + 16 <= |s|
    ensures var t, b := s[o + 2 := x0][o + 6 := x1][o + 10 := x2][o + 14 := x3], StateAt(s, o);
            && SameOutside(t, s, o, 16)
            && StateAt(t, o) == b.(c0 := b.c0.(b2 := x0), c1 := b.c1.(b2 := x1),
                                   c2 := b.c2.(b2 := x2), c3 := b.c3.(b2 := x3))
            && [b.c0.b2, b.c1.b2, b.c2.b2, b.c3.b2] == [s[o + 2], s[o + 6], s[o + 10], s[o + 14]]
  {}

  lemma ThirdRowWritten(s: seq<bv8>, o: nat, x0: bv8, x1: bv8, x2: bv8, x3: bv8)
    requires o + 16 <= |s|
    ensures var t, b := s[o + 3 := x0][o + 7 := x1][o + 11 := x2][o + 15 := x3], StateAt(s, o);
            && SameOutside(t, s, o, 16)
            && StateAt(t, o) == b.(c0 := b.c0.(b3 := x0), c1 := b.c1.(b3 := x1),
                                   c2 := b.c2.(b3 := x2), c3 := b.c3.(b3 := x3))
            && [b.c0.b3, b.c1.b3, b.c2.b3, b.c3.b3] == [s[o + 3], s[o + 7], s[o + 11], s[o + 15]]
  {}

  // The byte substitutions go through the state row by row.

  /** Rows before i, and row i before column j, are substituted by the box. */
  predicate Substituted(now: seq<bv8>, before: seq<bv8>, o: nat, box: bv8 -> bv8, i: nat, j: nat) {
    && |now| == |before| && o + 16 <= |now| && SameOutside(now, before, o, 16)
    && forall p | o <= p < o + 16 :: now[p] == if Reached(p - o, i, j) then box(before[p]) else before[p]
  }

  predicate Reached(p: nat, i: nat, j: nat) {
    p % 4 < i || (p % 4 == i && p < 4 * j)
  }

  lemma NothingSubstituted(s: seq<bv8>, o: nat, box: bv8 -> bv8)
    requires o + 16 <= |s|
    ensures Substituted(s, s, o, box, 0, 0)
  {}

  lemma ByteSubstituted(now: seq<bv8>, before: seq<bv8>, o: nat, box: bv8 -> bv8, i: nat, j: nat)
    requires Substituted(now, before, o, box, i, j) && i < 4 && j < 4
    ensures |now| == |before| && o + 16 <= |now|
    ensures Substituted(now[o + 4 * j + i := box(now[o + 4 * j + i])], before, o, box, i, j + 1)
  {
    hide Reached;
    var q := o + 4 * j + i;
    NextReached(q - o, i, j);
    var next := now[q := box(now[q])];
    forall p | o <= p < o + 16
      ensures next[p] == if Reached(p - o, i, j + 1) then box(before[p]) else before[p]
    {
      NextReached(p - o, i, j);
    }
  }

  lemma NextReached(p: nat, i: nat, j: nat)
    requires p < 16 && i < 4
    ensures Reached(p, i, j + 1) <==> Reached(p, i, j) || p == 4 * j + i
    ensures p == 4 * j + i ==> !Reached(p, i, j)
  {}

  lemma RowSubstituted(now: seq<bv8>, before: seq<bv8>, o: nat, box: bv8 -> bv8, i: nat)
    requires Substituted(now, before, o, box, i, 4)
    ensures Substituted(now, before, o, box, i + 1, 0)
  {}

  lemma AllSubstituted(now: seq<bv8>, before: seq<bv8>, o: nat)
    requires Substituted(now, before, o, SBox, 4, 0)
    ensures |now| == |before| && o + 16 <= |now| && SameOutside(now, before, o, 16)
    ensures StateAt(now, o) == AesState.SubBytes(StateAt(before, o))
  {
    hide SBox;
  }

  lemma AllInvSubstituted(now: seq<bv8>, before: seq<bv8>, o: nat)
    requires Substituted(now, before, o, RsBox, 4, 0)
    ensures |now| == |before| && o + 16 <= |now| && SameOutside(now, before, o, 16)
    ensures StateAt(now, o) == AesState.InvSubBytes(StateAt(before, o))
  {
    hide RsBox;
  }

  /** The key pointer behind a call: the key it was given, or the one before. */
  function NewKey(key: Pointer, before: Pointer): Pointer {
    if key.At? then key else before
  }

  ghost function NoBlock(): State {
    var w := Word(0, 0, 0, 0);
    State(w, w, w, w)
  }

  /** The two regions of a call on length bytes. */
  predicate Room(output: Pointer, input: Pointer, length: nat) {
    var used := PaddedLength(length) + length % 16;
    && output.At? && input.At? && RoomAt(output.buf.Length, output.off, input.buf.Length, input.off, length)
    && Apart(output, used, input, used)
  }

  /** The last of the blocks that length bytes at p take up. */
  function LastBlock(p: Pointer, length: nat): Pointer
    requires p.At? && length > 0
  {
    p.Plus(PaddedLength(length) - 16)
  }

  /** Where the vector pointer is left: at the last block, if there was one. */
  function VectorBehind(p: Pointer, length: nat, before: Pointer): Pointer
    requires length > 0 ==> p.At?
  {
    if length == 0 then before else LastBlock(p, length)
  }

  /** Where the state pointer is left. */
  function StateBehind(output: Pointer, length: nat, before: Pointer): Pointer
    requires length > 0 ==> output.At?
  {
    if length % 16 > 0 then output.Plus(PaddedLength(length)) else VectorBehind(output, length, before)
  }

  lemma Copied(now: seq<bv8>, before: seq<bv8>, off: nat, t: seq<bv8>)
    requires off + |t| <= |now| && SameOutside(now, before, off, |t|) && now[off..off + |t|] == t
    ensures now == Splice(before, off, t)
  {
    assert now == now[..off] + now[off..off + |t|] + now[off + |t|..];
  }

  /** A run on whole and partial blocks of two buffers, as they are before it. */
  ghost predicate RunOn(run: Run, output: Pointer, input: Pointer, length: nat)
    reads if output.At? then {output.buf} else {}, if input.At? then {input.buf} else {}
  {
    && output.At? && input.At? && run.Fits() && 16 * |run.source| == PaddedLength(length)
    && run.out == output.buf[..] && run.off == output.off && run.input == input.buf[..] && run.off2 == input.off
    && (run.shared <==> input.buf == output.buf)
  }

  /** The pointers stand behind the blocks of a call on length bytes, and all of them are done. */
  ghost predicate AtRest(run: Run, to: Pointer, from: Pointer, length: nat)
    reads if to.At? then {to.buf} else {}, if from.At? then {from.buf} else {}
  {
    && to.At? && from.At? && run.Done(to.buf[..], from.buf[..], |run.source|)
    && 16 * |run.source| == PaddedLength(length) && RoomAt(|run.out|, run.off, |run.input|, run.off2, length)
    && to == At(to.buf, run.off + PaddedLength(length)) && from == At(from.buf, run.off2 + PaddedLength(length))
    && |run.out| == to.buf.Length && |run.input| == from.buf.Length && (run.shared <==> from.buf == to.buf)
    && (run.shared ==> Disjoint(run.off, PaddedLength(length) + length % 16,
                                run.off2, PaddedLength(length) + length % 16))
  }

  /** The pointers stand at the k-th block, and k blocks are done. */
  ghost predicate AtBlock(run: Run, to: Pointer, from: Pointer, k: nat)
    reads if to.At? then {to.buf} else {}, if from.At? then {from.buf} else {}
  {
    && to.At? && from.At? && run.Done(to.buf[..], from.buf[..], k) && k < |run.source|
    && to.Spans(16) && from.Spans(16) && Apart(to, 16, from, 16)
    && to.off == run.off + 16 * k && from.off == run.off2 + 16 * k
    && (run.shared <==> from.buf == to.buf)
  }

  const MAX_SUPPORT := 1024

  /** Fills the buffer with the fill character and copies the message to its front; the result is
      the length of the message in whole blocks. */
  method InputBuffInit(inBuff: Pointer, size: nat, target: Pointer, length: nat, fill: bv8) returns (r: nat)
    requires inBuff.Spans(size) && target.Spans(length) && Apart(inBuff, size, target, length) && length <= size
    modifies inBuff.buf
    ensures r == PaddedLength(length)
    ensures inBuff.Region(size) == old(target.Region(length)) + seq(size - length, _ => fill)
    ensures SameOutside(inBuff.buf[..], old(inBuff.buf[..]), inBuff.off, size)
    ensures r <= size ==> inBuff.Region(r) == Padded(old(target.Region(length)), fill)
  {
    r := PaddedLength(length);
    ghost var message := target.Region(length);
    forall i | 0 <= i < size {
      inBuff.buf[inBuff.off + i] := fill;
    }
    assert target.Region(length) == message;
    Memcpy(inBuff, target, length);
    ghost var all := inBuff.Region(size);
    assert all[..length] == inBuff.Region(length) == message;
    assert all == message + seq(size - length, _ => fill);
    if r <= size {
      FrontIsPadded(all, message, fill);
      assert inBuff.Region(r) == all[..r];
    }
  }

  lemma FrontIsPadded(all: seq<bv8>, message: seq<bv8>, fill: bv8)
    requires PaddedLength(|message|) <= |all| && all == message + seq(|all| - |message|, _ => fill)
    ensures all[..PaddedLength(|message|)] == Padded(message, fill)
  {}

  method Memcpy(dst: Pointer, src: Pointer, n: nat)
    requires dst.Spans(n) && src.Spans(n) && Apart(dst, n, src, n)
    modifies dst.buf
    ensures dst.Region(n) == old(src.Region(n))
    ensures SameOutside(dst.buf[..], old(dst.buf[..]), dst.off, n)
  {
    forall i | 0 <= i < n {
      dst.buf[dst.off + i] := src.buf[src.off + i];
    }
  }

  /** The block cipher given by a round-key buffer. */
  function EncipherWith(rk: seq<bv8>, nr: nat): State -> State
    requires 1 <= nr && RoundKeysCover(rk, nr)
  {
    (s: State) => Cipher(rk, nr, s)
  }

  function DecipherWith(rk: seq<bv8>, nr: nat): State -> State
    requires 1 <= nr && RoundKeysCover(rk, nr)
  {
    (s: State) => InvCipher(rk, nr, s)
  }

  lemma DecipherUndoesEncipher(rk: seq<bv8>, nr: nat)
    requires 1 <= nr && RoundKeysCover(rk, nr)
    ensures forall s :: DecipherWith(rk, nr)(EncipherWith(rk, nr)(s)) == s
    ensures forall s :: EncipherWith(rk, nr)(DecipherWith(rk, nr)(s)) == s
  {
    hide AesCipher.Cipher, AesCipher.InvCipher;
    forall s: State
      ensures DecipherWith(rk, nr)(EncipherWith(rk, nr)(s)) == s
      ensures EncipherWith(rk, nr)(DecipherWith(rk, nr)(s)) == s
    {
      InvCipherUndoesCipher(rk, nr, s);
      CipherUndoesInvCipher(rk, nr, s);
    }
  }

  const AES128 := 0
  const AES192 := 1
  const AES256 := 2

  class Context {
    var aesType: int
    var keyWords: nat
    var rounds: nat
    const roundKey: array<bv8>
    const signedChar: bool  // whether the platform's plain char is signed
    var state: Pointer
    var keyPointer: Pointer
    var vector: Pointer

    ghost predicate Valid()
      reads this
    {
      && roundKey.Length == 240
      && ((aesType == AES128 && keyWords == 4 && rounds == 10) ||
          (aesType == AES192 && keyWords == 6 && rounds == 12) ||
          (aesType == AES256 && keyWords == 8 && rounds == 14))
    }

    /** The bytes of the round keys in use. */
    ghost function Schedule(): (rk: seq<bv8>)
      requires Valid()
      reads this, roundKey
      ensures |rk| == 16 * (rounds + 1)
    {
      roundKey[..16 * (rounds + 1)]
    }

    ghost predicate StateReady()
      reads this
    {
      state.Spans(16) && state.buf != roundKey
    }

    constructor (signedChar: bool)
      ensures Valid() && keyWords == 4 && rounds == 10 && fresh(roundKey) && this.signedChar == signedChar
      ensures state == Null && keyPointer == Null && vector == Null
    {
      this.signedChar := signedChar;
      roundKey := new bv8[240](_ => 0);
      aesType, keyWords, rounds := AES128, 4, 10;
      state, keyPointer, vector := Null, Null, Null;
    }

    method Init(t: int)
      requires Valid()
      modifies `aesType, `keyWords, `rounds
      ensures Valid()
      ensures (aesType, keyWords, rounds) == if t == 1 then (1, 6, 12) else if t == 2 then (2, 8, 14) else (0, 4, 10)
    {
      if t == AES128 {
        aesType, keyWords, rounds := AES128, 4, 10;
      } else if t == AES192 {
        aesType, keyWords, rounds := AES192, 6, 12;
      } else if t == AES256 {
        aesType, keyWords, rounds := AES256, 8, 14;
      } else {
        aesType, keyWords, rounds := AES128, 4, 10;
      }
    }

    /** The bytes that KeyExpansion adds to the word keyWords places back (RotWord, SubWord, Rcon). */
    method TempOf(i: nat) returns (t0: bv8, t1: bv8, t2: bv8, t3: bv8)
      requires Valid() && keyWords <= i < 4 * (rounds + 1)
      ensures Word(t0, t1, t2, t3) == Temp(WordAt(roundKey[..], 4 * (i - 1)), keyWords, i)
    {
      hide SBox, Temp, Add;
      TempByBytes(WordAt(roundKey[..], 4 * (i - 1)), keyWords, i);
      t0 := roundKey[(i - 1) * 4 + 0];
      t1 := roundKey[(i - 1) * 4 + 1];
      t2 := roundKey[(i - 1) * 4 + 2];
      t3 := roundKey[(i - 1) * 4 + 3];
      if i % keyWords == 0 {
        var k := t0;
        t0 := t1;
        t1 := t2;
        t2 := t3;
        t3 := k;
        t0 := SBox(t0);
        t1 := SBox(t1);
        t2 := SBox(t2);
        t3 := SBox(t3);
        t0 := Add(t0, RCON[i / keyWords]);
      }
      if aesType == AES256 {
        if i % keyWords == 4 {
          t0 := SBox(t0);
          t1 := SBox(t1);
          t2 := SBox(t2);
          t3 := SBox(t3);
        }
      }
    }

    /** Writes one word as the sum of an earlier word and four bytes. */
    method StoreWord(to: nat, from: nat, t0: bv8, t1: bv8, t2: bv8, t3: bv8)
      requires from + 4 <= to && to + 4 <= roundKey.Length
      modifies roundKey
      ensures roundKey[to] == Add(old(roundKey[from]), t0)
      ensures roundKey[to + 1] == Add(old(roundKey[from + 1]), t1)
      ensures roundKey[to + 2] == Add(old(roundKey[from + 2]), t2)
      ensures roundKey[to + 3] == Add(old(roundKey[from + 3]), t3)
      ensures SameOutside(roundKey[..], old(roundKey[..]), to, 4)
    {
      hide Add;
      roundKey[to + 0] := Add(roundKey[from + 0], t0);
      roundKey[to + 1] := Add(roundKey[from + 1], t1);
      roundKey[to + 2] := Add(roundKey[from + 2], t2);
      roundKey[to + 3] := Add(roundKey[from + 3], t3);
    }

    method CopyWord(i: nat)
      requires keyPointer.Spans(4 * i + 4) && keyPointer.buf != roundKey && 4 * i + 4 <= roundKey.Length
      modifies roundKey
      ensures roundKey[..][4 * i..4 * i + 4] == keyPointer.buf[..][keyPointer.off + 4 * i..keyPointer.off + 4 * i + 4]
      ensures SameOutside(roundKey[..], old(roundKey[..]), 4 * i, 4)
    {
      roundKey[i * 4 + 0] := keyPointer.buf[keyPointer.off + i * 4 + 0];
      roundKey[i * 4 + 1] := keyPointer.buf[keyPointer.off + i * 4 + 1];
      roundKey[i * 4 + 2] := keyPointer.buf[keyPointer.off + i * 4 + 2];
      roundKey[i * 4 + 3] := keyPointer.buf[keyPointer.off + i * 4 + 3];
    }

    /** The body of the loop that takes over the key. */
    method CopyNext(i: nat, ghost key: seq<bv8>, ghost before: seq<bv8>)
      requires Valid() && keyPointer.Spans(|key|) && keyPointer.buf != roundKey
      requires key == keyPointer.Region(|key|) && 4 * i + 4 <= |key| <= 4 * keyWords
      requires roundKey[..][..4 * i] == key[..4 * i] && SameOutside(roundKey[..], before, 0, 4 * i)
      modifies roundKey
      ensures roundKey[..][..4 * i + 4] == key[..4 * i + 4] && SameOutside(roundKey[..], before, 0, 4 * i + 4)
    {
      hide SameOutside;
      ghost var rk := roundKey[..];
      PartOfSlice(keyPointer.buf[..], keyPointer.off, |key|, 4 * i, 4);
      CopyWord(i);
      FourMoreBytes(roundKey[..], rk, before, key, 4 * i);
    }

    /** The loop that takes over the key as the beginning of the round keys. */
    method CopyKey()
      requires Valid()
      requires keyPointer.Spans(4 * keyWords) && keyPointer.buf != roundKey
      modifies roundKey
      ensures roundKey[..4 * keyWords] == keyPointer.Region(4 * keyWords)
      ensures SameOutside(roundKey[..], old(roundKey[..]), 0, 4 * keyWords)
    {
      ghost var key, nk, before := keyPointer.Region(4 * keyWords), keyWords, roundKey[..];
      NothingWritten(before);
      hide SameOutside;
      var i := 0;
      while i < keyWords
        invariant i <= nk
        invariant roundKey[..][..4 * i] == key[..4 * i] && SameOutside(roundKey[..], before, 0, 4 * i)
      {
        CopyNext(i, key, before);
        i := i + 1;
      }
    }

    /** The body of the loop over the words behind the key. */
    method ExpandWord(i: nat, ghost key: seq<bv8>, ghost before: seq<bv8>)
      requires Valid() && |key| == 4 * keyWords && keyWords <= i < 4 * (rounds + 1)
      requires roundKey[..4 * i] == ExpandKey(key, keyWords, i) && SameOutside(roundKey[..], before, 0, 4 * i)
      modifies roundKey
      ensures roundKey[..4 * (i + 1)] == ExpandKey(key, keyWords, i + 1)
      ensures SameOutside(roundKey[..], before, 0, 4 * (i + 1))
    {
      hide Temp, ScheduleWord, ExpandKey, WordAt, Add, SameOutside;
      ghost var rk := roundKey[..];
      var t0, t1, t2, t3 := TempOf(i);
      StoreWord(i * 4, (i - keyWords) * 4, t0, t1, t2, t3);
      MoreWritten(roundKey[..], rk, before, 4 * i, 4);
      StoredWord(key, keyWords, i, rk, roundKey[..], Word(t0, t1, t2, t3));
    }

    method KeyExpansion()
      requires Valid()
      requires keyPointer.Spans(4 * keyWords) && keyPointer.buf != roundKey
      modifies roundKey
      ensures Schedule() == ExpandKey(keyPointer.Region(4 * keyWords), keyWords, 4 * (rounds + 1))
      ensures SameOutside(roundKey[..], old(roundKey[..]), 0, 16 * (rounds + 1))
    {
      hide Temp, ScheduleWord, ExpandKey, WordAt, Add, SameOutside;
      ghost var key, nk, n, before := keyPointer.Region(4 * keyWords), keyWords, 4 * (rounds + 1), roundKey[..];
      CopyKey();
      ExpandedKeyPrefix(key, nk, nk);
      var i := keyWords;
      while i < 4 * (rounds + 1)
        invariant nk <= i <= n
        invariant roundKey[..4 * i] == ExpandKey(key, nk, i)
        invariant SameOutside(roundKey[..], before, 0, 4 * i)
      {
        ExpandWord(i, key, before);
        i := i + 1;
      }
    }

    // ----- The round transformations, in place on the state -----

    method AddRoundKey(round: nat)
      requires Valid() && StateReady() && round <= rounds
      modifies state.buf
      ensures state.Block() == XorState(old(state.Block()), RoundKeyOf(Schedule(), round))
      ensures SameOutside(state.buf[..], old(state.buf[..]), state.off, 16)
    {
      hide Add, StateAt, XorState;
      var s, o := state.buf, state.off;
      ghost var r, before := 16 * round - o, s[..];
      var i := 0;
      while i < 4
        invariant i <= 4
        invariant forall p | o <= p < o + 16 ::
            s[p] == if p < o + 4 * i then Add(old(s[p]), roundKey[p + r]) else old(s[p])
        invariant SameOutside(s[..], old(s[..]), o, 16)
      {
        var j := 0;
        while j < 4
          invariant j <= 4
          invariant forall p | o <= p < o + 16 ::
              s[p] == if p < o + 4 * i + j then Add(old(s[p]), roundKey[p + r]) else old(s[p])
          invariant SameOutside(s[..], old(s[..]), o, 16)
        {
          s[o + 4 * i + j] := Add(s[o + 4 * i + j], roundKey[round * 4 * 4 + i * 4 + j]);
          j := j + 1;
        }
        i := i + 1;
      }
      BlockAdded(s[..], before, o, Schedule(), r);
    }

    method SubBytes()
      requires StateReady()
      modifies state.buf
      ensures state.Block() == AesState.SubBytes(old(state.Block()))
      ensures SameOutside(state.buf[..], old(state.buf[..]), state.off, 16)
    {
      hide SBox, Substituted;
      var s, o := state.buf, state.off;
      ghost var before := s[..];
      NothingSubstituted(before, o, SBox);
      var i := 0;
      while i < 4
        invariant 0 <= i <= 4 && Substituted(s[..], before, o, SBox, i, 0)
      {
        var j := 0;
        while j < 4
          invariant 0 <= j <= 4 && Substituted(s[..], before, o, SBox, i, j)
        {
          ByteSubstituted(s[..], before, o, SBox, i, j);
          s[o + 4 * j + i] := SBox(s[o + 4 * j + i]);
          j := j + 1;
        }
        RowSubstituted(s[..], before, o, SBox, i);
        i := i + 1;
      }
      AllSubstituted(s[..], before, o);
    }

    /** Rows 1, 2 and 3 move to the left by one, two and three columns, each in place. */
    method ShiftRows()
      requires StateReady()
      modifies state.buf
      ensures state.Block() == AesState.ShiftRows(old(state.Block()))
      ensures SameOutside(state.buf[..], old(state.buf[..]), state.off, 16)
    {
      ShiftFirstRow();
      ShiftSecondRow();
      ShiftThirdRow();
    }

    method ShiftFirstRow()
      requires StateReady()
      modifies state.buf
      ensures var s := old(state.Block());
              state.Block() == s.(c0 := s.c0.(b1 := s.c1.b1), c1 := s.c1.(b1 := s.c2.b1),
                                  c2 := s.c2.(b1 := s.c3.b1), c3 := s.c3.(b1 := s.c0.b1))
      ensures SameOutside(state.buf[..], old(state.buf[..]), state.off, 16)
    {
      hide StateAt, SameOutside;
      var s, o := state.buf, state.off;
      ghost var before := s[..];
      var temp := s[o + 1];
      s[o + 1] := s[o + 5];
      s[o + 5] := s[o + 9];
      s[o + 9] := s[o + 13];
      s[o + 13] := temp;
      assert s[..] == before[o + 1 := before[o + 5]][o + 5 := before[o + 9]]
                            [o + 9 := before[o + 13]][o + 13 := before[o + 1]];
      FirstRowWritten(before, o, before[o + 5], before[o + 9], before[o + 13], before[o + 1]);
    }

    method ShiftSecondRow()
      requires StateReady()
      modifies state.buf
      ensures var s := old(state.Block());
              state.Block() == s.(c0 := s.c0.(b2 := s.c2.b2), c1 := s.c1.(b2 := s.c3.b2),
                                  c2 := s.c2.(b2 := s.c0.b2), c3 := s.c3.(b2 := s.c1.b2))
      ensures SameOutside(state.buf[..], old(state.buf[..]), state.off, 16)
    {
      hide StateAt, SameOutside;
      var s, o := state.buf, state.off;
      ghost var before := s[..];
      var temp := s[o + 2];
      s[o + 2] := s[o + 10];
      s[o + 10] := temp;

      temp := s[o + 6];
      s[o + 6] := s[o + 14];
      s[o + 14] := temp;
      assert s[..] == before[o + 2 := before[o + 10]][o + 6 := before[o + 14]]
                            [o + 10 := before[o + 2]][o + 14 := before[o + 6]];
      SecondRowWritten(before, o, before[o + 10], before[o + 14], before[o + 2], before[o + 6]);
    }

    method ShiftThirdRow()
      requires StateReady()
      modifies state.buf
      ensures var s := old(state.Block());
              state.Block() == s.(c0 := s.c0.(b3 := s.c3.b3), c1 := s.c1.(b3 := s.c0.b3),
                                  c2 := s.c2.(b3 := s.c1.b3), c3 := s.c3.(b3 := s.c2.b3))
      ensures SameOutside(state.buf[..], old(state.buf[..]), state.off, 16)
    {
      hide StateAt, SameOutside;
      var s, o := state.buf, state.off;
      ghost var before := s[..];
      var temp := s[o + 3];
      s[o + 3] := s[o + 15];
      s[o + 15] := s[o + 11];
      s[o + 11] := s[o + 7];
      s[o + 7] := temp;
      assert s[..] == before[o + 3 := before[o + 15]][o + 7 := before[o + 3]]
                            [o + 11 := before[o + 7]][o + 15 := before[o + 11]];
      ThirdRowWritten(before, o, before[o + 15], before[o + 3], before[o + 7], before[o + 11]);
    }

    method MixColumns()
      requires StateReady()
      modifies state.buf
      ensures state.Block() == AesState.MixColumns(old(state.Block()))
      ensures SameOutside(state.buf[..], old(state.buf[..]), state.off, 16)
    {
      hide MixWord, WordAt;
      var s, o := state.buf, state.off;
      ghost var before := s[..];
      var i := 0;
      while i < 4
        invariant i <= 4
        invariant s.Length == |before|
        invariant forall p | o <= p < o + 16 && (p - o) % 4 == 0 ::
            WordAt(s[..], p) == if p < o + 4 * i then MixWord(WordAt(before, p)) else WordAt(before, p)
        invariant SameOutside(s[..], before, o, 16)
      {
        MixColumn(o + 4 * i);
        i := i + 1;
      }
    }

    /** The body of the loop over columns. */
    method MixColumn(p: nat)
      requires StateReady()
      requires state.off <= p && p + 4 <= state.off + 16
      modifies state.buf
      ensures WordAt(state.buf[..], p) == MixWord(old(WordAt(state.buf[..], p)))
      ensures forall q | 0 <= q && q + 4 <= state.buf.Length && (q + 4 <= p || p + 4 <= q) ::
          WordAt(state.buf[..], q) == old(WordAt(state.buf[..], q))
      ensures SameOutside(state.buf[..], old(state.buf[..]), p, 4)
    {
      hide MixWord, Xtime, Add, Sum4;
      var s := state.buf;
      MixedInPlace(WordAt(s[..], p));
      var t := s[p];
      var tmp := Sum4(s[p], s[p + 1], s[p + 2], s[p + 3]);
      var tm := Add(s[p], s[p + 1]);
      tm := Xtime(tm);
      s[p] := Add(s[p], Add(tm, tmp));
      tm := Add(s[p + 1], s[p + 2]);
      tm := Xtime(tm);
      s[p + 1] := Add(s[p + 1], Add(tm, tmp));
      tm := Add(s[p + 2], s[p + 3]);
      tm := Xtime(tm);
      s[p + 2] := Add(s[p + 2], Add(tm, tmp));
      tm := Add(s[p + 3], t);
      tm := Xtime(tm);
      s[p + 3] := Add(s[p + 3], Add(tm, tmp));
    }

    // ----- The inverse transformations -----

    method InvSubBytes()
      requires StateReady()
      modifies state.buf
      ensures state.Block() == AesState.InvSubBytes(old(state.Block()))
      ensures SameOutside(state.buf[..], old(state.buf[..]), state.off, 16)
    {
      hide RsBox, Substituted;
      var s, o := state.buf, state.off;
      ghost var before := s[..];
      NothingSubstituted(before, o, RsBox);
      var i := 0;
      while i < 4
        invariant 0 <= i <= 4 && Substituted(s[..], before, o, RsBox, i, 0)
      {
        var j := 0;
        while j < 4
          invariant 0 <= j <= 4 && Substituted(s[..], before, o, RsBox, i, j)
        {
          ByteSubstituted(s[..], before, o, RsBox, i, j);
          s[o + 4 * j + i] := RsBox(s[o + 4 * j + i]);
          j := j + 1;
        }
        RowSubstituted(s[..], before, o, RsBox, i);
        i := i + 1;
      }
      AllInvSubstituted(s[..], before, o);
    }

    /** Rows 1, 2 and 3 move to the right by one, two and three columns, each in place. */
    method InvShiftRows()
      requires StateReady()
      modifies state.buf
      ensures state.Block() == AesState.InvShiftRows(old(state.Block()))
      ensures SameOutside(state.buf[..], old(state.buf[..]), state.off, 16)
    {
      UnshiftFirstRow();
      ShiftSecondRow();
      UnshiftThirdRow();
    }

    method UnshiftFirstRow()
      requires StateReady()
      modifies state.buf
      ensures var s := old(state.Block());
              state.Block() == s.(c0 := s.c0.(b1 := s.c3.b1), c1 := s.c1.(b1 := s.c0.b1),
                                  c2 := s.c2.(b1 := s.c1.b1), c3 := s.c3.(b1 := s.c2.b1))
      ensures SameOutside(state.buf[..], old(state.buf[..]), state.off, 16)
    {
      hide StateAt, SameOutside;
      var s, o := state.buf, state.off;
      ghost var before := s[..];
      var temp := s[o + 13];
      s[o + 13] := s[o + 9];
      s[o + 9] := s[o + 5];
      s[o + 5] := s[o + 1];
      s[o + 1] := temp;
      assert s[..] == before[o + 1 := before[o + 13]][o + 5 := before[o + 1]]
                            [o + 9 := before[o + 5]][o + 13 := before[o + 9]];
      FirstRowWritten(before, o, before[o + 13], before[o + 1], before[o + 5], before[o + 9]);
    }

    method UnshiftThirdRow()
      requires StateReady()
      modifies state.buf
      ensures var s := old(state.Block());
              state.Block() == s.(c0 := s.c0.(b3 := s.c1.b3), c1 := s.c1.(b3 := s.c2.b3),
                                  c2 := s.c2.(b3 := s.c3.b3), c3 := s.c3.(b3 := s.c0.b3))
      ensures SameOutside(state.buf[..], old(state.buf[..]), state.off, 16)
    {
      hide StateAt, SameOutside;
      var s, o := state.buf, state.off;
      ghost var before := s[..];
      var temp := s[o + 3];
      s[o + 3] := s[o + 7];
      s[o + 7] := s[o + 11];
      s[o + 11] := s[o + 15];
      s[o + 15] := temp;
      assert s[..] == before[o + 3 := before[o + 7]][o + 7 := before[o + 11]]
                            [o + 11 := before[o + 15]][o + 15 := before[o + 3]];
      ThirdRowWritten(before, o, before[o + 7], before[o + 11], before[o + 15], before[o + 3]);
    }

    method InvMixColumns()
      requires StateReady()
      modifies state.buf
      ensures state.Block() == AesState.InvMixColumns(old(state.Block()))
      ensures SameOutside(state.buf[..], old(state.buf[..]), state.off, 16)
    {
      hide InvMixWord, WordAt;
      var s, o := state.buf, state.off;
      ghost var before := s[..];
      var i := 0;
      while i < 4
        invariant i <= 4
        invariant s.Length == |before|
        invariant forall p | o <= p < o + 16 && (p - o) % 4 == 0 ::
            WordAt(s[..], p) == if p < o + 4 * i then InvMixWord(WordAt(before, p)) else WordAt(before, p)
        invariant SameOutside(s[..], before, o, 16)
      {
        InvMixColumn(o + 4 * i);
        i := i + 1;
      }
    }

    /** The body of the loop over columns. */
    method InvMixColumn(p: nat)
      requires StateReady()
      requires state.off <= p && p + 4 <= state.off + 16
      modifies state.buf
      ensures WordAt(state.buf[..], p) == InvMixWord(old(WordAt(state.buf[..], p)))
      ensures forall q | 0 <= q && q + 4 <= state.buf.Length && (q + 4 <= p || p + 4 <= q) ::
          WordAt(state.buf[..], q) == old(WordAt(state.buf[..], q))
      ensures SameOutside(state.buf[..], old(state.buf[..]), p, 4)
    {
      hide InvMixWord, Multiply, Sum4;
      var s := state.buf;
      InvMixedByMacro(WordAt(s[..], p));
      var a, b, c, d := s[p], s[p + 1], s[p + 2], s[p + 3];
      s[p] := Sum4(Multiply(a, 0x0e), Multiply(b, 0x0b), Multiply(c, 0x0d), Multiply(d, 0x09));
      s[p + 1] := Sum4(Multiply(a, 0x09), Multiply(b, 0x0e), Multiply(c, 0x0b), Multiply(d, 0x0d));
      s[p + 2] := Sum4(Multiply(a, 0x0d), Multiply(b, 0x09), Multiply(c, 0x0e), Multiply(d, 0x0b));
      s[p + 3] := Sum4(Multiply(a, 0x0b), Multiply(b, 0x0d), Multiply(c, 0x09), Multiply(d, 0x0e));
    }

    // ----- The ciphers -----

    method Cipher()
      requires Valid() && StateReady()
      modifies state.buf
      ensures state.Block() == AesCipher.Cipher(Schedule(), rounds, old(state.Block()))
      ensures SameOutside(state.buf[..], old(state.buf[..]), state.off, 16)
    {
      hide XorState, AesState.SubBytes, AesState.ShiftRows, AesState.MixColumns, StateAt;
      ghost var rk, s0, before := Schedule(), state.Block(), state.buf[..];
      AddRoundKey(0);
      var round := 1;
      while round < rounds
        invariant 1 <= round <= rounds
        invariant Schedule() == rk
        invariant state.Block() == ForwardRounds(rk, s0, round - 1)
        invariant SameOutside(state.buf[..], before, state.off, 16)
      {
        SubBytes();
        ShiftRows();
        MixColumns();
        AddRoundKey(round);
        round := round + 1;
      }
      SubBytes();
      ShiftRows();
      AddRoundKey(rounds);
    }

    method InvCipher()
      requires Valid() && StateReady()
      modifies state.buf
      ensures state.Block() == AesCipher.InvCipher(Schedule(), rounds, old(state.Block()))
      ensures SameOutside(state.buf[..], old(state.buf[..]), state.off, 16)
    {
      hide XorState, AesState.InvSubBytes, AesState.InvShiftRows, AesState.InvMixColumns, StateAt;
      ghost var rk, s0, before := Schedule(), state.Block(), state.buf[..];
      AddRoundKey(rounds);
      var round := rounds - 1;
      while round > 0
        invariant 0 <= round < rounds
        invariant Schedule() == rk
        invariant state.Block() == BackwardRounds(rk, rounds, s0, round + 1)
        invariant SameOutside(state.buf[..], before, state.off, 16)
      {
        InvShiftRows();
        InvSubBytes();
        AddRoundKey(round);
        InvMixColumns();
        round := round - 1;
      }
      InvShiftRows();
      InvSubBytes();
      AddRoundKey(0);
    }

    // ----- Cipher block chaining -----

    /** The vector a call uses: the one it is given, or the one left by the call before. */
    ghost function VectorOf(iv: Pointer): Pointer
      reads this
    {
      if iv.At? then iv else vector
    }

    /** The first block chained, if there is one. */
    ghost function FirstVector(iv: Pointer, length: nat): State
      requires length > 0 ==> VectorOf(iv).Spans(16)
      reads this, if VectorOf(iv).At? then {VectorOf(iv).buf} else {}
    {
      if length > 0 then VectorOf(iv).Block() else NoBlock()
    }

    /** The round keys a call works with: those of the key it is given, or those in the buffer. */
    ghost function ScheduleUnder(key: Pointer): (rk: seq<bv8>)
      requires Valid() && (key.At? ==> key.Spans(4 * keyWords))
      reads this, roundKey, if key.At? then {key.buf} else {}
      ensures |rk| == 16 * (rounds + 1)
    {
      if key.At? then ExpandKey(key.Region(4 * keyWords), keyWords, 4 * (rounds + 1)) else Schedule()
    }

    method XorWithIv(buf: Pointer)
      requires buf.Spans(16) && vector.Spans(16) && Apart(buf, 16, vector, 16)
      modifies buf.buf
      ensures buf.Block() == XorState(old(buf.Block()), old(vector.Block()))
      ensures SameOutside(buf.buf[..], old(buf.buf[..]), buf.off, 16)
    {
      hide Add, StateAt, XorState;
      var s, o := buf.buf, buf.off;
      ghost var r, before, iv := vector.off - o, s[..], vector.buf[..];
      var i := 0;
      while i < 16
        invariant i <= 16
        invariant forall p | o <= p < o + 16 ::
            s[p] == if p < o + i then Add(old(s[p]), old(vector.buf[p + r])) else old(s[p])
        invariant SameOutside(s[..], old(s[..]), o, 16)
      {
        s[o + i] := Add(s[o + i], vector.buf[vector.off + i]);
        i := i + 1;
      }
      BlockAdded(s[..], before, o, iv, r);
    }

    /** The beginning of a call: it takes over the key and the vector, where it is given them. */
    method TakeOver(key: Pointer, iv: Pointer)
      requires Valid()
      requires key.At? ==> key.Spans(4 * keyWords) && key.buf != roundKey
      modifies `keyPointer, `vector, roundKey
      ensures Schedule() == old(ScheduleUnder(key))
      ensures keyPointer == NewKey(key, old(keyPointer)) && vector == old(VectorOf(iv))
    {
      hide ExpandKey;
      if key.At? {
        keyPointer := key;
        KeyExpansion();
      }
      if iv.At? {
        vector := iv;
      }
    }

    /** The body of the loop over blocks: mask, copy, encipher, and chain on the result. */
    method EncryptBlock(to: Pointer, from: Pointer)
      requires Valid()
      requires to.Spans(16) && from.Spans(16) && Apart(to, 16, from, 16)
      requires to.buf != roundKey && from.buf != roundKey
      requires vector.Spans(16) && Apart(from, 16, vector, 16)
      modifies `vector, `state, to.buf, from.buf
      ensures vector == to && state == to
      ensures var m := XorState(old(from.Block()), old(vector.Block()));
              var c := AesCipher.Cipher(Schedule(), rounds, m);
              && to.buf[..] == Both(old(to.buf[..]), to.off, BlockBytes(c), from.buf == to.buf, from.off, BlockBytes(m))
              && (from.buf != to.buf ==> from.buf[..] == Splice(old(from.buf[..]), from.off, BlockBytes(m)))
              && to.Block() == c
    {
      hide StateAt, XorState, AesCipher.Cipher, BlockBytes, Splice;
      XorWithIv(from);
      SpliceBlock(from.buf[..], old(from.buf[..]), from.off);
      ghost var masked, before := from.buf[..], to.buf[..];
      Memcpy(to, from, 16);
      SameBytesSameState(to.buf[..], to.off, masked, from.off);
      state := to;
      Cipher();
      SpliceBlock(to.buf[..], before, to.off);
      vector := to;
    }

    /** The next block of a run. */
    method EncryptNext(to: Pointer, from: Pointer, ghost run: Run, ghost k: nat)
      requires Valid() && AtBlock(run, to, from, k)
      requires to.buf != roundKey && from.buf != roundKey
      requires vector.Spans(16) && Apart(from, 16, vector, 16) && vector.Block() == Chained(run.v, run.result, k)
      requires run.result == CbcEncrypt(EncipherWith(Schedule(), rounds), run.v, run.source)
      requires run.left == Masked(run.v, run.source, run.result)
      modifies `vector, `state, to.buf, from.buf
      ensures vector == to && state == to && to.Block() == run.result[k]
      ensures run.Done(to.buf[..], from.buf[..], k + 1)
    {
      hide StateAt, XorState, AesCipher.Cipher, CbcEncrypt, ToBytes, BlockBytes, Splice, Both, ToBlocks;
      ghost var out, input := to.buf[..], from.buf[..];
      run.NextBlock(out, input, k);
      EncryptRecurrence(EncipherWith(Schedule(), rounds), run.v, run.source, k);
      hide Run.Done;
      EncryptBlock(to, from);
      run.OneMore(out, input, to.buf[..], from.buf[..], k, run.left[k], run.result[k]);
    }

    method EncryptBlocks(output: Pointer, input: Pointer, length: nat, ghost run: Run)
      returns (to: Pointer, from: Pointer)
      requires Valid() && RunOn(run, output, input, length) && Room(output, input, length)
      requires output.buf != roundKey && input.buf != roundKey
      requires length > 0 ==> vector.Spans(16) && Apart(vector, 16, input, 16) && vector.Block() == run.v
      requires run.result == CbcEncrypt(EncipherWith(Schedule(), rounds), run.v, run.source)
      requires run.left == Masked(run.v, run.source, run.result)
      modifies `vector, `state, output.buf, input.buf
      ensures to == output.Plus(PaddedLength(length)) && from == input.Plus(PaddedLength(length))
      ensures run.Done(output.buf[..], input.buf[..], |run.result|)
      ensures vector == VectorBehind(output, length, old(vector))
      ensures state == VectorBehind(output, length, old(state))
    {
      hide StateAt, XorState, AesCipher.Cipher, CbcEncrypt, Run.Done, ToBlocks;
      ghost var n, rk := PaddedLength(length), Schedule();
      run.Begins();
      to, from := output, input;
      var i := 0;
      while i < length
        invariant i <= n && i % 16 == 0
        invariant to == output.Plus(i) && from == input.Plus(i)
        invariant Schedule() == rk
        invariant run.Done(output.buf[..], input.buf[..], i / 16)
        invariant vector == if i == 0 then old(vector) else output.Plus(i - 16)
        invariant state == if i == 0 then old(state) else output.Plus(i - 16)
        invariant i < length ==> vector.Block() == Chained(run.v, run.result, i / 16)
      {
        EncryptNext(to, from, run, i / 16);
        from := from.Plus(16);
        to := to.Plus(16);
        i := i + 16;
      }
    }

    /** After a length that is not a number of whole blocks, the next bytes of the input are copied,
        and the block that begins with them is enciphered; nothing is chained. */
    method EncryptRest(to: Pointer, from: Pointer, extra: nat, ghost run: Run, ghost length: nat)
      requires Valid() && AtRest(run, to, from, length) && to.buf != roundKey && extra == length % 16
      requires run.result == CbcEncrypt(EncipherWith(Schedule(), rounds), run.v, run.source)
      requires run.left == Masked(run.v, run.source, run.result)
      modifies `state, to.buf
      ensures Valid() && Schedule() == old(Schedule()) && run.Fits()
      ensures to.buf[..] == EncryptedBuffer(EncipherWith(Schedule(), rounds), run.v, run.out, run.off,
                                            run.input, run.off2, run.shared, length)
      ensures from.buf != to.buf ==>
          from.buf[..] == MaskedBuffer(EncipherWith(Schedule(), rounds), run.v, run.input, run.off2, length)
      ensures state == if extra > 0 then to else old(state)
    {
      hide StateAt, AesCipher.Cipher, BlockBytes, Splice, Run.Done, Masked, CbcEncrypt, EncryptedBuffer, MaskedBuffer;
      EncryptedInTwoSteps(EncipherWith(Schedule(), rounds), run, length, to.buf[..], from.buf[..]);
      if extra > 0 {
        ghost var t := from.Region(extra);
        Memcpy(to, from, extra);
        Copied(to.buf[..], old(to.buf[..]), to.off, t);
        ghost var copied := to.buf[..];
        state := to;
        Cipher();
        SpliceBlock(to.buf[..], copied, to.off);
      }
    }

    method CbcEncryptBuffer(output: Pointer, input: Pointer, length: nat, key: Pointer, iv: Pointer)
      requires Valid() && Room(output, input, length)
      requires output.buf != roundKey && input.buf != roundKey
      requires key.At? ==> key.Spans(4 * keyWords) && key.buf != roundKey
      requires length > 0 ==> VectorOf(iv).Spans(16) && VectorOf(iv).buf != roundKey
      requires length > 0 ==> Apart(VectorOf(iv), 16, input, 16)
      modifies `keyPointer, `vector, `state, roundKey, output.buf, input.buf
      ensures Schedule() == old(ScheduleUnder(key)) && keyPointer == NewKey(key, old(keyPointer))
      ensures var enc, v := EncipherWith(Schedule(), rounds), old(FirstVector(iv, length));
              && output.buf[..] == EncryptedBuffer(enc, v, old(output.buf[..]), output.off,
                                                   old(input.buf[..]), input.off, input.buf == output.buf, length)
              && (input.buf != output.buf ==>
                    input.buf[..] == MaskedBuffer(enc, v, old(input.buf[..]), input.off, length))
      ensures vector == VectorBehind(output, length, old(VectorOf(iv)))
      ensures state == StateBehind(output, length, old(state))
    {
      hide StateAt, AesCipher.Cipher, CbcEncrypt, ToBytes, ExpandKey, Splice, Both, ToBlocks, Run.Done, Run.Fits,
        EncryptedBuffer, MaskedBuffer, Masked, VectorBehind, LastBlock;
      TakeOver(key, iv);
      ghost var v := FirstVector(Null, length);
      ghost var run := EncryptionRun(EncipherWith(Schedule(), rounds), v, output.buf[..], output.off,
                                     input.buf[..], input.off, input.buf == output.buf, length);
      var to, from := EncryptBlocks(output, input, length, run);
      EncryptRest(to, from, length % 16, run, length);
    }

    /** The body of the loop over blocks: copy, decipher, unmask, and chain on the ciphertext. */
    method DecryptBlock(to: Pointer, from: Pointer)
      requires Valid()
      requires to.Spans(16) && from.Spans(16) && Apart(to, 16, from, 16) && to.buf != roundKey
      requires vector.Spans(16) && Apart(to, 16, vector, 16)
      modifies `vector, `state, to.buf
      ensures vector == from && state == to && from.Block() == old(from.Block())
      ensures var p := XorState(AesCipher.InvCipher(Schedule(), rounds, from.Block()), old(vector.Block()));
              to.buf[..] == Splice(old(to.buf[..]), to.off, BlockBytes(p))
    {
      hide StateAt, XorState, AesCipher.InvCipher, BlockBytes;
      Memcpy(to, from, 16);
      SameBytesSameState(to.buf[..], to.off, old(from.buf[..]), from.off);
      state := to;
      InvCipher();
      assert vector.buf[vector.off..vector.off + 16] == old(vector.buf[vector.off..vector.off + 16]);
      SameBytesSameState(vector.buf[..], vector.off, old(vector.buf[..]), vector.off);
      XorWithIv(to);
      SpliceBlock(to.buf[..], old(to.buf[..]), to.off);
      assert from.buf[from.off..from.off + 16] == old(from.buf[from.off..from.off + 16]);
      SameBytesSameState(from.buf[..], from.off, old(from.buf[..]), from.off);
      vector := from;
    }

    method DecryptNext(to: Pointer, from: Pointer, ghost run: Run, ghost k: nat)
      requires Valid() && AtBlock(run, to, from, k)
      requires to.buf != roundKey
      requires vector.Spans(16) && Apart(to, 16, vector, 16) && vector.Block() == Chained(run.v, run.source, k)
      requires run.result == CbcDecrypt(DecipherWith(Schedule(), rounds), run.v, run.source)
      requires run.left == run.source
      modifies `vector, `state, to.buf
      ensures vector == from && state == to && from.Block() == run.source[k]
      ensures run.Done(to.buf[..], from.buf[..], k + 1)
    {
      hide StateAt, XorState, AesCipher.InvCipher, CbcDecrypt, ToBytes, BlockBytes, Splice, Both, ToBlocks;
      ghost var out, input := to.buf[..], from.buf[..];
      run.NextBlock(out, input, k);
      DecryptRecurrence(DecipherWith(Schedule(), rounds), run.v, run.source, k);
      hide Run.Done;
      SpliceBlock(input, input, from.off);
      DecryptBlock(to, from);
      JustOne(out, to.off, BlockBytes(run.result[k]), run.shared, from.off, BlockBytes(run.left[k]));
      run.OneMore(out, input, to.buf[..], from.buf[..], k, run.left[k], run.result[k]);
    }

    method DecryptBlocks(output: Pointer, input: Pointer, length: nat, ghost run: Run)
      returns (to: Pointer, from: Pointer)
      requires Valid() && RunOn(run, output, input, length) && Room(output, input, length) && output.buf != roundKey
      requires length > 0 ==> vector.Spans(16) && Apart(vector, 16, output, 16) && vector.Block() == run.v
      requires run.result == CbcDecrypt(DecipherWith(Schedule(), rounds), run.v, run.source)
      requires run.left == run.source
      modifies `vector, `state, output.buf
      ensures to == output.Plus(PaddedLength(length)) && from == input.Plus(PaddedLength(length))
      ensures run.Done(output.buf[..], input.buf[..], |run.result|)
      ensures vector == VectorBehind(input, length, old(vector))
      ensures state == VectorBehind(output, length, old(state))
    {
      hide StateAt, XorState, AesCipher.InvCipher, CbcDecrypt, Run.Done, ToBlocks;
      ghost var n, rk := PaddedLength(length), Schedule();
      run.Begins();
      to, from := output, input;
      var i := 0;
      while i < length
        invariant i <= n && i % 16 == 0
        invariant to == output.Plus(i) && from == input.Plus(i)
        invariant Schedule() == rk
        invariant run.Done(output.buf[..], input.buf[..], i / 16)
        invariant vector == if i == 0 then old(vector) else input.Plus(i - 16)
        invariant state == if i == 0 then old(state) else output.Plus(i - 16)
        invariant i < length ==> vector.Block() == Chained(run.v, run.source, i / 16)
      {
        DecryptNext(to, from, run, i / 16);
        from := from.Plus(16);
        to := to.Plus(16);
        i := i + 16;
      }
    }

    method DecryptRest(to: Pointer, from: Pointer, extra: nat, ghost run: Run, ghost length: nat)
      requires Valid() && AtRest(run, to, from, length) && to.buf != roundKey && extra == length % 16
      requires run.result == CbcDecrypt(DecipherWith(Schedule(), rounds), run.v, run.source)
      requires run.left == run.source
      modifies `state, to.buf
      ensures Valid() && Schedule() == old(Schedule()) && run.Fits()
      ensures to.buf[..] == DecryptedBuffer(DecipherWith(Schedule(), rounds), run.v, run.out, run.off,
                                            run.input, run.off2, length)
      ensures state == if extra > 0 then to else old(state)
    {
      hide StateAt, AesCipher.InvCipher, BlockBytes, Splice, Run.Done, Masked, CbcDecrypt, DecryptedBuffer;
      DecryptedInTwoSteps(DecipherWith(Schedule(), rounds), run, length, to.buf[..], from.buf[..]);
      if extra > 0 {
        ghost var t := from.Region(extra);
        Memcpy(to, from, extra);
        Copied(to.buf[..], old(to.buf[..]), to.off, t);
        ghost var copied := to.buf[..];
        state := to;
        InvCipher();
        SpliceBlock(to.buf[..], copied, to.off);
      }
    }

    method CbcDecryptBuffer(output: Pointer, input: Pointer, length: nat, key: Pointer, iv: Pointer)
      requires Valid() && Room(output, input, length)
      requires output.buf != roundKey && input.buf != roundKey
      requires key.At? ==> key.Spans(4 * keyWords) && key.buf != roundKey
      requires length > 0 ==> VectorOf(iv).Spans(16) && VectorOf(iv).buf != roundKey
      requires length > 0 ==> Apart(VectorOf(iv), 16, output, 16)
      modifies `keyPointer, `vector, `state, roundKey, output.buf
      ensures Schedule() == old(ScheduleUnder(key)) && keyPointer == NewKey(key, old(keyPointer))
      ensures output.buf[..]
           == DecryptedBuffer(DecipherWith(Schedule(), rounds), old(FirstVector(iv, length)),
                              old(output.buf[..]), output.off, old(input.buf[..]), input.off, length)
      ensures vector == VectorBehind(input, length, old(VectorOf(iv)))
      ensures state == StateBehind(output, length, old(state))
    {
      hide StateAt, AesCipher.InvCipher, CbcDecrypt, ToBytes, ExpandKey, Splice, Both, ToBlocks, Run.Done, Run.Fits,
        DecryptedBuffer, VectorBehind, LastBlock;
      TakeOver(key, iv);
      ghost var v := FirstVector(Null, length);
      ghost var run := DecryptionRun(DecipherWith(Schedule(), rounds), v, output.buf[..], output.off,
                                     input.buf[..], input.off, input.buf == output.buf, length);
      var to, from := DecryptBlocks(output, input, length, run);
      DecryptRest(to, from, length % 16, run, length);
    }

    // ----- Padding and stripping wrappers -----

    method CbcEncryptBuffer2(output: Pointer, input: Pointer, length: nat, key: Pointer, iv: Pointer, fill: bv8)
      returns (r: int)
      requires Valid() && input.Spans(length)
      requires length <= 1008 ==> output.Spans(PaddedLength(length)) && output.buf != roundKey
      requires output.At?
      requires key.At? ==> key.Spans(4 * keyWords) && key.buf != roundKey
      requires length > 0 ==> VectorOf(iv).Spans(16) && VectorOf(iv).buf != roundKey
      modifies `keyPointer, `vector, `state, roundKey, output.buf
      ensures length > 1008 ==>
          && r == -1 && Schedule() == old(Schedule()) && output.buf[..] == old(output.buf[..])
          && vector == old(vector) && state == old(state) && keyPointer == old(keyPointer)
      ensures length <= 1008 ==>
          && r == PaddedLength(length)
          && Schedule() == old(ScheduleUnder(key)) && keyPointer == NewKey(key, old(keyPointer))
      ensures length <= 1008 ==>
          var ps := ToBlocks(Padded(old(input.Region(length)), fill));
          var cs := CbcEncrypt(EncipherWith(Schedule(), rounds), old(FirstVector(iv, length)), ps);
          output.buf[..] == Splice(old(output.buf[..]), output.off, ToBytes(cs))
      ensures length <= 1008 ==>
          && vector == VectorBehind(output, r, old(VectorOf(iv)))
          && state == VectorBehind(output, r, old(state))
    {
      hide StateAt, AesCipher.Cipher, CbcEncrypt, ToBytes, ToBlocks, ExpandKey, Splice, EncryptedBuffer, MaskedBuffer,
        VectorBehind, LastBlock;
      var inputDataBuff := new bv8[MAX_SUPPORT](_ => 0);
      if length > MAX_SUPPORT - 16 {
        return -1;
      }
      ghost var v, out0 := FirstVector(iv, length), output.buf[..];
      var encryptTargetLen := InputBuffInit(At(inputDataBuff, 0), MAX_SUPPORT, input, length, fill);
      ghost var padded := inputDataBuff[..];
      CbcEncryptBuffer(output, At(inputDataBuff, 0), encryptTargetLen, key, iv);
      EncryptedWhole(EncipherWith(Schedule(), rounds), v, out0, output.off, padded, 0, false, encryptTargetLen);
      return encryptTargetLen;
    }

    /** The same for any length, into a buffer allocated for it. */
    method CbcEncryptBuffer2Malloc(input: Pointer, length: nat, key: Pointer, iv: Pointer, fill: bv8)
      returns (output: array<bv8>, r: nat)
      requires Valid() && input.Spans(length)
      requires key.At? ==> key.Spans(4 * keyWords) && key.buf != roundKey
      requires length > 0 ==> VectorOf(iv).Spans(16) && VectorOf(iv).buf != roundKey
      modifies `keyPointer, `vector, `state, roundKey
      ensures fresh(output) && r == PaddedLength(length) == output.Length
      ensures Schedule() == old(ScheduleUnder(key)) && keyPointer == NewKey(key, old(keyPointer))
      ensures var ps := ToBlocks(Padded(old(input.Region(length)), fill));
              var cs := CbcEncrypt(EncipherWith(Schedule(), rounds), old(FirstVector(iv, length)), ps);
              output[..] == ToBytes(cs)
      ensures vector == VectorBehind(At(output, 0), r, old(VectorOf(iv)))
      ensures state == VectorBehind(At(output, 0), r, old(state))
    {
      hide StateAt, AesCipher.Cipher, CbcEncrypt, ToBytes, ToBlocks, ExpandKey, EncryptedBuffer, MaskedBuffer,
        VectorBehind, LastBlock, Splice;
      ghost var v := FirstVector(iv, length);
      var inputDataBuff := new bv8[PaddedLength(length)](_ => 0);
      r := InputBuffInit(At(inputDataBuff, 0), PaddedLength(length), input, length, fill);
      output := new bv8[r](_ => 0);
      ghost var padded, out0 := inputDataBuff[..], output[..];
      CbcEncryptBuffer(At(output, 0), At(inputDataBuff, 0), r, key, iv);
      EncryptedWhole(EncipherWith(Schedule(), rounds), v, out0, 0, padded, 0, false, r);
      SpliceAll(out0, ToBytes(CbcEncrypt(EncipherWith(Schedule(), rounds), v, ToBlocks(padded[0..r]))));
    }

    method CbcDecryptBuffer2(output: Pointer, input: Pointer, length: nat, key: Pointer, iv: Pointer, fill: bv8)
      returns (r: nat)
      requires Valid() && Room(output, input, length) && output.Spans(length + 2)
      requires output.buf != roundKey && input.buf != roundKey
      requires key.At? ==> key.Spans(4 * keyWords) && key.buf != roundKey
      requires length > 0 ==> VectorOf(iv).Spans(16) && VectorOf(iv).buf != roundKey
      requires length > 0 ==> Apart(VectorOf(iv), 16, output, 16)
      modifies `keyPointer, `vector, `state, roundKey, output.buf
      ensures Schedule() == old(ScheduleUnder(key)) && keyPointer == NewKey(key, old(keyPointer))
      ensures var dec, v, all := DecipherWith(Schedule(), rounds), old(FirstVector(iv, length)), old(input.buf[..]);
              var text := ToBytes(CbcDecrypt(dec, v, ToBlocks(old(input.Region(PaddedLength(length))))))[..length];
              var b := DecryptedBuffer(dec, v, old(output.buf[..]), output.off, all, input.off, length);
              && r == |Stripped(text, fill, signedChar)| && output.buf[..] == b[output.off + r + 1 := 0]
              && (output.buf[output.off + r] == 0 <==> if r < length then fill == 0 else b[output.off + length] == 0)
      ensures vector == VectorBehind(input, length, old(VectorOf(iv)))
      ensures state == StateBehind(output, length, old(state))
    {
      hide StateAt, AesCipher.InvCipher, CbcDecrypt, ToBytes, ExpandKey, ToBlocks, Stripped, DecryptedBuffer;
      ghost var out0, all := output.buf[..], input.buf[..];
      ghost var v := FirstVector(iv, length);
      CbcDecryptBuffer(output, input, length, key, iv);
      DecryptedText(DecipherWith(Schedule(), rounds), v, out0, output.off, all, input.off, length);
      EndsInNulExactlyIf(output.buf[..], output.off, length, fill, signedChar);
      var i := TrailingFill(output, length, fill);
      output.buf[output.off + length - i + 1] := 0;
      return length - i;
    }

    /** The backwards scan over the decrypted bytes. */
    method TrailingFill(output: Pointer, length: nat, fill: bv8) returns (i: nat)
      requires output.Spans(length)
      ensures i <= length && length - i == |Stripped(output.Region(length), fill, signedChar)|
    {
      hide Stripped, Matches;
      ghost var text := output.Region(length);
      assert text[..length] == text && text[..0] == [];
      i := 0;
      while i < length
        invariant i <= length
        invariant Stripped(text, fill, signedChar) == Stripped(text[..length - i], fill, signedChar)
      {
        StripStep(text, length - i, fill, signedChar);
        if !Matches(output.buf[output.off + length - i - 1], fill, signedChar) {
          break;
        }
        i := i + 1;
      }
    }
  }
}
