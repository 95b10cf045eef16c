/** The 4x4 state of the cipher and the transformations of one round, sections 5.1
    and 5.3 of FIPS 197. A state is four columns; byte i of a 16-byte block is row
    i % 4 of column i / 4. */
module AesState {
  import opened Gf256
  import opened AesTables

  datatype Word = Word(b0: bv8, b1: bv8, b2: bv8, b3: bv8)

  datatype State = State(c0: Word, c1: Word, c2: Word, c3: Word)

  /** The word or state stored at an offset of a byte buffer. */
  function WordAt(s: seq<bv8>, off: nat): Word
    requires off + 4 <= |s|
  {
    Word(s[off], s[off + 1], s[off + 2], s[off + 3])
  }

  function StateAt(s: seq<bv8>, off: nat): State
    requires off + 16 <= |s|
  {
    State(WordAt(s, off), WordAt(s, off + 4), WordAt(s, off + 8), WordAt(s, off + 12))
  }

  function XorWord(v: Word, w: Word): Word {
    Word(Add(v.b0, w.b0), Add(v.b1, w.b1), Add(v.b2, w.b2), Add(v.b3, w.b3))
  }

  /** AddRoundKey, and the XOR of two blocks in cipher block chaining. */
  function XorState(s: State, t: State): State {
    State(XorWord(s.c0, t.c0), XorWord(s.c1, t.c1), XorWord(s.c2, t.c2), XorWord(s.c3, t.c3))
  }

  function SubWord(w: Word): Word {
    Word(SBox(w.b0), SBox(w.b1), SBox(w.b2), SBox(w.b3))
  }

  function InvSubWord(w: Word): Word {
    Word(RsBox(w.b0), RsBox(w.b1), RsBox(w.b2), RsBox(w.b3))
  }

  function SubBytes(s: State): State {
    State(SubWord(s.c0), SubWord(s.c1), SubWord(s.c2), SubWord(s.c3))
  }

  function InvSubBytes(s: State): State {
    State(InvSubWord(s.c0), InvSubWord(s.c1), InvSubWord(s.c2), InvSubWord(s.c3))
  }

  /** Row r moves r columns to the left, cyclically. */
  function ShiftRows(s: State): State {
    State(Word(s.c0.b0, s.c1.b1, s.c2.b2, s.c3.b3),
          Word(s.c1.b0, s.c2.b1, s.c3.b2, s.c0.b3),
          Word(s.c2.b0, s.c3.b1, s.c0.b2, s.c1.b3),
          Word(s.c3.b0, s.c0.b1, s.c1.b2, s.c2.b3))
  }

  /** Row r moves r columns to the right, cyclically. */
  function InvShiftRows(s: State): State {
    State(Word(s.c0.b0, s.c3.b1, s.c2.b2, s.c1.b3),
          Word(s.c1.b0, s.c0.b1, s.c3.b2, s.c2.b3),
          Word(s.c2.b0, s.c1.b1, s.c0.b2, s.c3.b3),
          Word(s.c3.b0, s.c2.b1, s.c1.b2, s.c0.b3))
  }

  /** First row of the matrix of section 5.1.3; the other rows are its rotations. */
  function MixRow(a: bv8, b: bv8, c: bv8, d: bv8): bv8 {
    Sum4(FieldMul(a, 0x02), FieldMul(b, 0x03), c, d)
  }

  /** First row of the matrix of section 5.3.3. */
  function InvMixRow(a: bv8, b: bv8, c: bv8, d: bv8): bv8 {
    Sum4(FieldMul(a, 0x0e), FieldMul(b, 0x0b), FieldMul(c, 0x0d), FieldMul(d, 0x09))
  }

  function MixWord(w: Word): Word {
    Word(MixRow(w.b0, w.b1, w.b2, w.b3), MixRow(w.b1, w.b2, w.b3, w.b0),
         MixRow(w.b2, w.b3, w.b0, w.b1), MixRow(w.b3, w.b0, w.b1, w.b2))
  }

  function InvMixWord(w: Word): Word {
    Word(InvMixRow(w.b0, w.b1, w.b2, w.b3), InvMixRow(w.b1, w.b2, w.b3, w.b0),
         InvMixRow(w.b2, w.b3, w.b0, w.b1), InvMixRow(w.b3, w.b0, w.b1, w.b2))
  }

  function MixColumns(s: State): State {
    State(MixWord(s.c0), MixWord(s.c1), MixWord(s.c2), MixWord(s.c3))
  }

  function InvMixColumns(s: State): State {
    State(InvMixWord(s.c0), InvMixWord(s.c1), InvMixWord(s.c2), InvMixWord(s.c3))
  }

  // ----- The two column mixes are inverse to each other -----
  // Both rows are sums of powers of Xtime of their inputs. Below, a0, a1, a2, ...
  // stand for a, Xtime(a), Xtime(Xtime(a)), ... and the same for b, c and d.

  function MixSum(a1: bv8, b1: bv8, b0: bv8, c0: bv8, d0: bv8): bv8 {
    a1 ^ (b1 ^ b0) ^ c0 ^ d0
  }

  function InvMixSum(a1: bv8, a2: bv8, a3: bv8, b0: bv8, b1: bv8, b3: bv8,
                     c0: bv8, c2: bv8, c3: bv8, d0: bv8, d3: bv8): bv8 {
    Sum4(a3 ^ a2 ^ a1, b3 ^ b1 ^ b0, c3 ^ c2 ^ c0, d3 ^ d0)
  }

  lemma MixSumForm(a1: bv8, b1: bv8, b0: bv8, c0: bv8, d0: bv8)
    ensures MixSum(a1, b1, b0, c0, d0) == Sum4(a1, Add(b1, b0), c0, d0)
  {}

  lemma InvMixSumForm(a1: bv8, a2: bv8, a3: bv8, b0: bv8, b1: bv8, b3: bv8,
                      c0: bv8, c2: bv8, c3: bv8, d0: bv8, d3: bv8)
    ensures InvMixSum(a1, a2, a3, b0, b1, b3, c0, c2, c3, d0, d3)
         == Sum4(Sum3(a3, a2, a1), Sum3(b3, b1, b0), Sum3(c3, c2, c0), Add(d3, d0))
  {
    hide Sum4;
  }

  lemma MixRowForm(a: bv8, b: bv8, c: bv8, d: bv8)
    ensures MixRow(a, b, c, d) == MixSum(Xtime(a), Xtime(b), b, c, d)
  {
    hide FieldMul, Xtime, Add, Sum4, MixSum;
    FieldMul2(a);
    FieldMul3(b);
    MixSumForm(Xtime(a), Xtime(b), b, c, d);
  }

  lemma InvMixRowForm(a: bv8, b: bv8, c: bv8, d: bv8)
    ensures var a1, b1, c1, d1 := Xtime(a), Xtime(b), Xtime(c), Xtime(d);
            var a2, c2 := Xtime(a1), Xtime(c1);
            InvMixRow(a, b, c, d) == InvMixSum(a1, a2, Xtime(a2), b, b1, Xtime(Xtime(b1)),
                                               c, c2, Xtime(c2), d, Xtime(Xtime(d1)))
  {
    hide FieldMul, Xtime, Add, Sum3, Sum4, InvMixSum;
    FieldMulE(a);
    FieldMulB(b);
    FieldMulD(c);
    FieldMul9(d);
    var a1, b1, c1, d1 := Xtime(a), Xtime(b), Xtime(c), Xtime(d);
    var a2, c2 := Xtime(a1), Xtime(c1);
    InvMixSumForm(a1, a2, Xtime(a2), b, b1, Xtime(Xtime(b1)), c, c2, Xtime(c2), d, Xtime(Xtime(d1)));
  }

  lemma XtimeOfMixSum(a1: bv8, b1: bv8, b0: bv8, c0: bv8, d0: bv8)
    ensures Xtime(MixSum(a1, b1, b0, c0, d0)) == MixSum(Xtime(a1), Xtime(b1), Xtime(b0), Xtime(c0), Xtime(d0))
  {
    hide Xtime, Add, Sum4, MixSum;
    MixSumForm(a1, b1, b0, c0, d0);
    MixSumForm(Xtime(a1), Xtime(b1), Xtime(b0), Xtime(c0), Xtime(d0));
    XtimeLinear(b1, b0);
    XtimeOfSums(a1, Add(b1, b0), c0, d0);
  }

  lemma XtimeOfInvMixSum(a1: bv8, a2: bv8, a3: bv8, b0: bv8, b1: bv8, b3: bv8,
                         c0: bv8, c2: bv8, c3: bv8, d0: bv8, d3: bv8)
    ensures Xtime(InvMixSum(a1, a2, a3, b0, b1, b3, c0, c2, c3, d0, d3))
         == InvMixSum(Xtime(a1), Xtime(a2), Xtime(a3), Xtime(b0), Xtime(b1), Xtime(b3),
                      Xtime(c0), Xtime(c2), Xtime(c3), Xtime(d0), Xtime(d3))
  {
    hide Xtime, Add, Sum3, Sum4, InvMixSum;
    InvMixSumForm(a1, a2, a3, b0, b1, b3, c0, c2, c3, d0, d3);
    InvMixSumForm(Xtime(a1), Xtime(a2), Xtime(a3), Xtime(b0), Xtime(b1), Xtime(b3),
                  Xtime(c0), Xtime(c2), Xtime(c3), Xtime(d0), Xtime(d3));
    XtimeOfSums(a3, a2, a1, a1);
    XtimeOfSums(b3, b1, b0, b0);
    XtimeOfSums(c3, c2, c0, c0);
    XtimeLinear(d3, d0);
    XtimeOfSums(Sum3(a3, a2, a1), Sum3(b3, b1, b0), Sum3(c3, c2, c0), Add(d3, d0));
  }

  lemma UnmixExpanded(a0: bv8, a1: bv8, a2: bv8, a3: bv8, a4: bv8, b0: bv8, b1: bv8, b2: bv8, b3: bv8, b4: bv8,
                      c0: bv8, c1: bv8, c2: bv8, c3: bv8, c4: bv8, d0: bv8, d1: bv8, d2: bv8, d3: bv8, d4: bv8)
    ensures
      InvMixSum(a2 ^ (b2 ^ b1) ^ c1 ^ d1, a3 ^ (b3 ^ b2) ^ c2 ^ d2, a4 ^ (b4 ^ b3) ^ c3 ^ d3,
                b1 ^ (c1 ^ c0) ^ d0 ^ a0, b2 ^ (c2 ^ c1) ^ d1 ^ a1, b4 ^ (c4 ^ c3) ^ d3 ^ a3,
                c1 ^ (d1 ^ d0) ^ a0 ^ b0, c3 ^ (d3 ^ d2) ^ a2 ^ b2, c4 ^ (d4 ^ d3) ^ a3 ^ b3,
                d1 ^ (a1 ^ a0) ^ b0 ^ c0, d4 ^ (a4 ^ a3) ^ b3 ^ c3) == a0
  {}

  lemma UnmixSums(a0: bv8, a1: bv8, a2: bv8, a3: bv8, a4: bv8, b0: bv8, b1: bv8, b2: bv8, b3: bv8, b4: bv8,
                  c0: bv8, c1: bv8, c2: bv8, c3: bv8, c4: bv8, d0: bv8, d1: bv8, d2: bv8, d3: bv8, d4: bv8)
    ensures
      InvMixSum(MixSum(a2, b2, b1, c1, d1), MixSum(a3, b3, b2, c2, d2), MixSum(a4, b4, b3, c3, d3),
                MixSum(b1, c1, c0, d0, a0), MixSum(b2, c2, c1, d1, a1), MixSum(b4, c4, c3, d3, a3),
                MixSum(c1, d1, d0, a0, b0), MixSum(c3, d3, d2, a2, b2), MixSum(c4, d4, d3, a3, b3),
                MixSum(d1, a1, a0, b0, c0), MixSum(d4, a4, a3, b3, c3)) == a0
  {
    hide InvMixSum;
    UnmixExpanded(a0, a1, a2, a3, a4, b0, b1, b2, b3, b4, c0, c1, c2, c3, c4, d0, d1, d2, d3, d4);
  }

  lemma RemixExpanded(a0: bv8, a1: bv8, a2: bv8, a3: bv8, a4: bv8, b0: bv8, b1: bv8, b2: bv8, b3: bv8, b4: bv8,
                      c0: bv8, c1: bv8, c2: bv8, c3: bv8, c4: bv8, d0: bv8, d1: bv8, d2: bv8, d3: bv8, d4: bv8)
    ensures
      MixSum((a4 ^ a3 ^ a2) ^ (b4 ^ b2 ^ b1) ^ (c4 ^ c3 ^ c1) ^ (d4 ^ d1),
             (b4 ^ b3 ^ b2) ^ (c4 ^ c2 ^ c1) ^ (d4 ^ d3 ^ d1) ^ (a4 ^ a1),
             (b3 ^ b2 ^ b1) ^ (c3 ^ c1 ^ c0) ^ (d3 ^ d2 ^ d0) ^ (a3 ^ a0),
             (c3 ^ c2 ^ c1) ^ (d3 ^ d1 ^ d0) ^ (a3 ^ a2 ^ a0) ^ (b3 ^ b0),
             (d3 ^ d2 ^ d1) ^ (a3 ^ a1 ^ a0) ^ (b3 ^ b2 ^ b0) ^ (c3 ^ c0)) == a0
  {}

  lemma RemixSums(a0: bv8, a1: bv8, a2: bv8, a3: bv8, a4: bv8, b0: bv8, b1: bv8, b2: bv8, b3: bv8, b4: bv8,
                  c0: bv8, c1: bv8, c2: bv8, c3: bv8, c4: bv8, d0: bv8, d1: bv8, d2: bv8, d3: bv8, d4: bv8)
    ensures
      MixSum(InvMixSum(a2, a3, a4, b1, b2, b4, c1, c3, c4, d1, d4),
             InvMixSum(b2, b3, b4, c1, c2, c4, d1, d3, d4, a1, a4),
             InvMixSum(b1, b2, b3, c0, c1, c3, d0, d2, d3, a0, a3),
             InvMixSum(c1, c2, c3, d0, d1, d3, a0, a2, a3, b0, b3),
             InvMixSum(d1, d2, d3, a0, a1, a3, b0, b2, b3, c0, c3)) == a0
  {
    hide MixSum;
    RemixExpanded(a0, a1, a2, a3, a4, b0, b1, b2, b3, b4, c0, c1, c2, c3, c4, d0, d1, d2, d3, d4);
  }

  lemma UnmixRow(a: bv8, b: bv8, c: bv8, d: bv8)
    ensures InvMixRow(MixRow(a, b, c, d), MixRow(b, c, d, a), MixRow(c, d, a, b), MixRow(d, a, b, c)) == a
  {
    var a1, b1, c1, d1 := Xtime(a), Xtime(b), Xtime(c), Xtime(d);
    var a2, b2, c2, d2 := Xtime(a1), Xtime(b1), Xtime(c1), Xtime(d1);
    var a3, b3, c3, d3 := Xtime(a2), Xtime(b2), Xtime(c2), Xtime(d2);
    var a4, b4, c4, d4 := Xtime(a3), Xtime(b3), Xtime(c3), Xtime(d3);
    hide MixRow, InvMixRow, Xtime, MixSum, InvMixSum;
    MixRowForm(a, b, c, d);
    MixRowForm(b, c, d, a);
    MixRowForm(c, d, a, b);
    MixRowForm(d, a, b, c);
    InvMixRowForm(MixRow(a, b, c, d), MixRow(b, c, d, a), MixRow(c, d, a, b), MixRow(d, a, b, c));
    XtimeOfMixSum(a1, b1, b, c, d); XtimeOfMixSum(a2, b2, b1, c1, d1); XtimeOfMixSum(a3, b3, b2, c2, d2);
    XtimeOfMixSum(b1, c1, c, d, a); XtimeOfMixSum(b2, c2, c1, d1, a1); XtimeOfMixSum(b3, c3, c2, d2, a2);
    XtimeOfMixSum(c1, d1, d, a, b); XtimeOfMixSum(c2, d2, d1, a1, b1); XtimeOfMixSum(c3, d3, d2, a2, b2);
    XtimeOfMixSum(d1, a1, a, b, c); XtimeOfMixSum(d2, a2, a1, b1, c1); XtimeOfMixSum(d3, a3, a2, b2, c2);
    UnmixSums(a, a1, a2, a3, a4, b, b1, b2, b3, b4, c, c1, c2, c3, c4, d, d1, d2, d3, d4);
  }

  lemma RemixRow(a: bv8, b: bv8, c: bv8, d: bv8)
    ensures MixRow(InvMixRow(a, b, c, d), InvMixRow(b, c, d, a), InvMixRow(c, d, a, b), InvMixRow(d, a, b, c)) == a
  {
    var a1, b1, c1, d1 := Xtime(a), Xtime(b), Xtime(c), Xtime(d);
    var a2, b2, c2, d2 := Xtime(a1), Xtime(b1), Xtime(c1), Xtime(d1);
    var a3, b3, c3, d3 := Xtime(a2), Xtime(b2), Xtime(c2), Xtime(d2);
    var a4, b4, c4, d4 := Xtime(a3), Xtime(b3), Xtime(c3), Xtime(d3);
    hide MixRow, InvMixRow, Xtime, MixSum, InvMixSum;
    InvMixRowForm(a, b, c, d);
    InvMixRowForm(b, c, d, a);
    InvMixRowForm(c, d, a, b);
    InvMixRowForm(d, a, b, c);
    MixRowForm(InvMixRow(a, b, c, d), InvMixRow(b, c, d, a), InvMixRow(c, d, a, b), InvMixRow(d, a, b, c));
    XtimeOfInvMixSum(a1, a2, a3, b, b1, b3, c, c2, c3, d, d3);
    XtimeOfInvMixSum(b1, b2, b3, c, c1, c3, d, d2, d3, a, a3);
    RemixSums(a, a1, a2, a3, a4, b, b1, b2, b3, b4, c, c1, c2, c3, c4, d, d1, d2, d3, d4);
  }

  lemma MixWordsInverse(w: Word)
    ensures InvMixWord(MixWord(w)) == w && MixWord(InvMixWord(w)) == w
  {
    hide MixRow, InvMixRow;
    UnmixRow(w.b0, w.b1, w.b2, w.b3);
    UnmixRow(w.b1, w.b2, w.b3, w.b0);
    UnmixRow(w.b2, w.b3, w.b0, w.b1);
    UnmixRow(w.b3, w.b0, w.b1, w.b2);
    RemixRow(w.b0, w.b1, w.b2, w.b3);
    RemixRow(w.b1, w.b2, w.b3, w.b0);
    RemixRow(w.b2, w.b3, w.b0, w.b1);
    RemixRow(w.b3, w.b0, w.b1, w.b2);
  }

  // ----- The column mix as it is computed in place -----

  lemma MixRowFromSum(a: bv8, b: bv8, c: bv8, d: bv8)
    ensures MixRow(a, b, c, d) == Add(a, Add(Xtime(Add(a, b)), Sum4(a, b, c, d)))
  {
    MixRowForm(a, b, c, d);
    XtimeLinear(a, b);
    hide MixRow, Xtime;
    MixSumFromSum(Xtime(a), Xtime(b), a, b, c, d);
  }

  lemma MixSumFromSum(a1: bv8, b1: bv8, a: bv8, b: bv8, c: bv8, d: bv8)
    ensures MixSum(a1, b1, b, c, d) == Add(a, Add(Add(a1, b1), Sum4(a, b, c, d)))
  {}

  lemma Sum4Rotates(a: bv8, b: bv8, c: bv8, d: bv8)
    ensures Sum4(b, c, d, a) == Sum4(a, b, c, d)
  {}

  /** Adding the column sum and a doubled neighbour sum to each byte is the matrix product. */
  lemma MixedInPlace(w: Word)
    ensures var t := Sum4(w.b0, w.b1, w.b2, w.b3);
            MixWord(w) == Word(Add(w.b0, Add(Xtime(Add(w.b0, w.b1)), t)),
                               Add(w.b1, Add(Xtime(Add(w.b1, w.b2)), t)),
                               Add(w.b2, Add(Xtime(Add(w.b2, w.b3)), t)),
                               Add(w.b3, Add(Xtime(Add(w.b3, w.b0)), t)))
  {
    hide MixRow, Xtime, Add, Sum4;
    MixRowFromSum(w.b0, w.b1, w.b2, w.b3);
    MixRowFromSum(w.b1, w.b2, w.b3, w.b0);
    MixRowFromSum(w.b2, w.b3, w.b0, w.b1);
    MixRowFromSum(w.b3, w.b0, w.b1, w.b2);
    Sum4Rotates(w.b0, w.b1, w.b2, w.b3);
    Sum4Rotates(w.b1, w.b2, w.b3, w.b0);
    Sum4Rotates(w.b2, w.b3, w.b0, w.b1);
  }

  /** The inverse mix as the macro computes it, with a, b, c, d in column order in every row. */
  lemma InvMixedByMacro(w: Word)
    ensures InvMixWord(w)
         == Word(Sum4(Multiply(w.b0, 0x0e), Multiply(w.b1, 0x0b), Multiply(w.b2, 0x0d), Multiply(w.b3, 0x09)),
                 Sum4(Multiply(w.b0, 0x09), Multiply(w.b1, 0x0e), Multiply(w.b2, 0x0b), Multiply(w.b3, 0x0d)),
                 Sum4(Multiply(w.b0, 0x0d), Multiply(w.b1, 0x09), Multiply(w.b2, 0x0e), Multiply(w.b3, 0x0b)),
                 Sum4(Multiply(w.b0, 0x0b), Multiply(w.b1, 0x0d), Multiply(w.b2, 0x09), Multiply(w.b3, 0x0e)))
  {
    hide Multiply, FieldMul, Sum4;
    MacroConstants(w.b0);
    MacroConstants(w.b1);
    MacroConstants(w.b2);
    MacroConstants(w.b3);
    Sum4Rotates(Multiply(w.b0, 0x09), Multiply(w.b1, 0x0e), Multiply(w.b2, 0x0b), Multiply(w.b3, 0x0d));
    Sum4Rotates(Multiply(w.b0, 0x0d), Multiply(w.b1, 0x09), Multiply(w.b2, 0x0e), Multiply(w.b3, 0x0b));
    Sum4Rotates(Multiply(w.b1, 0x09), Multiply(w.b2, 0x0e), Multiply(w.b3, 0x0b), Multiply(w.b0, 0x0d));
    Sum4Rotates(Multiply(w.b3, 0x0e), Multiply(w.b0, 0x0b), Multiply(w.b1, 0x0d), Multiply(w.b2, 0x09));
  }

  lemma MacroConstants(x: bv8)
    ensures Multiply(x, 0x09) == FieldMul(x, 0x09) && Multiply(x, 0x0b) == FieldMul(x, 0x0b)
    ensures Multiply(x, 0x0d) == FieldMul(x, 0x0d) && Multiply(x, 0x0e) == FieldMul(x, 0x0e)
  {
    MultiplyIsFieldProduct(x, 0x09);
    MultiplyIsFieldProduct(x, 0x0b);
    MultiplyIsFieldProduct(x, 0x0d);
    MultiplyIsFieldProduct(x, 0x0e);
    hide Multiply, FieldMul;
  }

  /** The matrices of sections 5.1.3 and 5.3.3 are inverse to each other on every state. */
  lemma MixColumnsInverse(s: State)
    ensures InvMixColumns(MixColumns(s)) == s && MixColumns(InvMixColumns(s)) == s
  {
    hide MixWord, InvMixWord;
    MixWordsInverse(s.c0);
    MixWordsInverse(s.c1);
    MixWordsInverse(s.c2);
    MixWordsInverse(s.c3);
  }

  // ----- The other transformations -----

  lemma SubWordsInverse(w: Word)
    ensures InvSubWord(SubWord(w)) == w && SubWord(InvSubWord(w)) == w
  {
    hide SBox, RsBox;
    RsBoxUndoesSBox(w.b0); RsBoxUndoesSBox(w.b1); RsBoxUndoesSBox(w.b2); RsBoxUndoesSBox(w.b3);
    SBoxUndoesRsBox(w.b0); SBoxUndoesRsBox(w.b1); SBoxUndoesRsBox(w.b2); SBoxUndoesRsBox(w.b3);
  }

  lemma SubBytesInverse(s: State)
    ensures InvSubBytes(SubBytes(s)) == s && SubBytes(InvSubBytes(s)) == s
  {
    hide SubWord, InvSubWord;
    SubWordsInverse(s.c0);
    SubWordsInverse(s.c1);
    SubWordsInverse(s.c2);
    SubWordsInverse(s.c3);
  }

  lemma ShiftRowsInverse(s: State)
    ensures InvShiftRows(ShiftRows(s)) == s && ShiftRows(InvShiftRows(s)) == s
  {}

  lemma XorWordTwice(v: Word, k: Word)
    ensures XorWord(XorWord(v, k), k) == v
  {}

  lemma XorStateTwice(s: State, k: State)
    ensures XorState(XorState(s, k), k) == s
  {
    hide XorWord;
    XorWordTwice(s.c0, k.c0);
    XorWordTwice(s.c1, k.c1);
    XorWordTwice(s.c2, k.c2);
    XorWordTwice(s.c3, k.c3);
  }

  /** The byte in row r and column c. */
  function Cell(s: State, r: nat, c: nat): bv8
    requires r < 4 && c < 4
  {
    var w := if c == 0 then s.c0 else if c == 1 then s.c1 else if c == 2 then s.c2 else s.c3;
    if r == 0 then w.b0 else if r == 1 then w.b1 else if r == 2 then w.b2 else w.b3
  }

  /** Section 5.1.2: after ShiftRows, row r is read r columns further on. */
  lemma ShiftRowsMovesRows(s: State, r: nat, c: nat)
    requires r < 4 && c < 4
    ensures Cell(ShiftRows(s), r, c) == Cell(s, r, (c + r) % 4)
    ensures Cell(InvShiftRows(s), r, (c + r) % 4) == Cell(s, r, c)
  {
    assert r == 0 || r == 1 || r == 2 || r == 3;
    assert c == 0 || c == 1 || c == 2 || c == 3;
  }
}
