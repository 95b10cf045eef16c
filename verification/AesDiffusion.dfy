/** What the ciphertext depends on: every round key, and every byte of the block. */
module AesDiffusion {
  import opened AesCipher
  import opened AesState
  import opened AesTables
  import opened ByteBlocks
  import opened Gf256

  // ----- Every round key -----

  lemma XorStateInjective(a: State, b: State, k: State)
    requires XorState(a, k) == XorState(b, k)
    ensures a == b
  {
    hide XorState;
    XorStateTwice(a, k);
    XorStateTwice(b, k);
  }

  lemma XorStateCommutes(a: State, b: State)
    ensures XorState(a, b) == XorState(b, a)
  {}

  lemma ShiftedInjective(a: State, b: State)
    requires Shifted(a) == Shifted(b)
    ensures a == b
  {
    hide Shifted, InvSubBytes, InvShiftRows;
    UnshiftShifted(a);
    UnshiftShifted(b);
  }

  /** Neither a round nor the last round hides a difference, in the state or in the key. */
  lemma RoundsInjective(a: State, b: State, k: State, l: State)
    requires (a == b) != (k == l)
    ensures FullRound(a, k) != FullRound(b, l) && LastRound(a, k) != LastRound(b, l)
  {
    hide XorState, MixColumns, InvMixColumns, SubBytes, ShiftRows;
    var x, y := Shifted(a), Shifted(b);
    MixColumnsInverse(x);
    MixColumnsInverse(y);
    if a == b {
      XorStateCommutes(MixColumns(x), k);
      XorStateCommutes(MixColumns(x), l);
      XorStateCommutes(x, k);
      XorStateCommutes(x, l);
      if FullRound(a, k) == FullRound(b, l) {
        XorStateInjective(k, l, MixColumns(x));
      }
      if LastRound(a, k) == LastRound(b, l) {
        XorStateInjective(k, l, x);
      }
    } else {
      if x == y {
        ShiftedInjective(a, b);
      }
      if FullRound(a, k) == FullRound(b, l) {
        XorStateInjective(MixColumns(x), MixColumns(y), k);
      }
      if LastRound(a, k) == LastRound(b, l) {
        XorStateInjective(x, y, k);
      }
    }
  }

  /** Two buffers of round keys that differ in the one for round n, and there only. */
  predicate DifferAt(rk: seq<bv8>, other: seq<bv8>, n: nat) {
    && 16 * n + 16 <= |rk| == |other|
    && rk[16 * n..16 * n + 16] != other[16 * n..16 * n + 16]
    && forall p | 0 <= p < |rk| && !(16 * n <= p < 16 * n + 16) :: rk[p] == other[p]
  }

  lemma RoundKeysDiffer(rk: seq<bv8>, other: seq<bv8>, n: nat, m: nat)
    requires DifferAt(rk, other, n) && 16 * m + 16 <= |rk|
    ensures RoundKeyOf(rk, m) == RoundKeyOf(other, m) <==> m != n
  {
    if m == n {
      BytesOfState(rk, 16 * n);
      BytesOfState(other, 16 * n);
      hide StateAt, BlockBytes;
    }
  }

  lemma {:induction false} ForwardDiffers(rk: seq<bv8>, other: seq<bv8>, n: nat, s: State, m: nat)
    requires DifferAt(rk, other, n) && RoundKeysCover(rk, m)
    ensures ForwardRounds(rk, s, m) == ForwardRounds(other, s, m) <==> m < n
  {
    hide FullRound, LastRound, XorState, RoundKeyOf;
    RoundKeysDiffer(rk, other, n, m);
    if m == 0 {
      if XorState(s, RoundKeyOf(rk, 0)) == XorState(s, RoundKeyOf(other, 0)) {
        XorStateCommutes(s, RoundKeyOf(rk, 0));
        XorStateCommutes(s, RoundKeyOf(other, 0));
        XorStateInjective(RoundKeyOf(rk, 0), RoundKeyOf(other, 0), s);
      }
    } else {
      ForwardDiffers(rk, other, n, s, m - 1);
      if m >= n {
        RoundsInjective(ForwardRounds(rk, s, m - 1), ForwardRounds(other, s, m - 1),
                        RoundKeyOf(rk, m), RoundKeyOf(other, m));
      }
    }
  }

  /** Whichever one of the nr + 1 round keys is changed, in whatever way, every block is enciphered and
      deciphered differently. */
  lemma EveryRoundKeyMatters(rk: seq<bv8>, other: seq<bv8>, nr: nat, n: nat, s: State)
    requires 1 <= nr && n <= nr && 16 * (nr + 1) <= |rk| == |other|
    requires rk[16 * n..16 * n + 16] != other[16 * n..16 * n + 16]
    requires forall p | 0 <= p < |rk| && !(16 * n <= p < 16 * n + 16) :: rk[p] == other[p]
    ensures Cipher(rk, nr, s) != Cipher(other, nr, s)
    ensures InvCipher(rk, nr, s) != InvCipher(other, nr, s)
  {
    CipherDiffers(rk, other, nr, n, s);
    hide Cipher, InvCipher, DifferAt;
    if InvCipher(rk, nr, s) == InvCipher(other, nr, s) {
      CipherUndoesInvCipher(rk, nr, s);
      CipherUndoesInvCipher(other, nr, s);
      CipherDiffers(rk, other, nr, n, InvCipher(rk, nr, s));
    }
  }

  lemma CipherDiffers(rk: seq<bv8>, other: seq<bv8>, nr: nat, n: nat, s: State)
    requires 1 <= nr && n <= nr && DifferAt(rk, other, n) && RoundKeysCover(rk, nr)
    ensures RoundKeysCover(other, nr) && Cipher(rk, nr, s) != Cipher(other, nr, s)
  {
    hide FullRound, LastRound, RoundKeyOf;
    ForwardDiffers(rk, other, n, s, nr - 1);
    RoundKeysDiffer(rk, other, n, nr);
    RoundsInjective(ForwardRounds(rk, s, nr - 1), ForwardRounds(other, s, nr - 1),
                    RoundKeyOf(rk, nr), RoundKeyOf(other, nr));
  }

  // ----- Every byte of the block -----

  predicate AllDiffer(v: Word, w: Word) {
    v.b0 != w.b0 && v.b1 != w.b1 && v.b2 != w.b2 && v.b3 != w.b3
  }

  /** The two words differ in byte r, and there only; with r == 4 they are equal. */
  predicate OneDiffers(v: Word, w: Word, r: nat) {
    && (v.b0 != w.b0 <==> r == 0) && (v.b1 != w.b1 <==> r == 1)
    && (v.b2 != w.b2 <==> r == 2) && (v.b3 != w.b3 <==> r == 3)
  }

  /** Column j of the two states differs in row rows[j] only. */
  predicate OneInColumns(s: State, t: State, rows: (nat, nat, nat, nat)) {
    && OneDiffers(s.c0, t.c0, rows.0) && OneDiffers(s.c1, t.c1, rows.1)
    && OneDiffers(s.c2, t.c2, rows.2) && OneDiffers(s.c3, t.c3, rows.3)
  }

  /** The whole of column c differs, or all four columns do, and nothing else. */
  predicate ColumnDiffers(s: State, t: State, c: nat) {
    && (if c == 0 || c == 4 then AllDiffer(s.c0, t.c0) else s.c0 == t.c0)
    && (if c == 1 || c == 4 then AllDiffer(s.c1, t.c1) else s.c1 == t.c1)
    && (if c == 2 || c == 4 then AllDiffer(s.c2, t.c2) else s.c2 == t.c2)
    && (if c == 3 || c == 4 then AllDiffer(s.c3, t.c3) else s.c3 == t.c3)
  }

  /** The row of the one difference in column c, for a difference in row r of column j. */
  function RowIn(r: nat, j: nat, c: nat): nat {
    if c == j then r else 4
  }

  function RowsFor(r: nat, j: nat): (nat, nat, nat, nat) {
    (RowIn(r, j, 0), RowIn(r, j, 1), RowIn(r, j, 2), RowIn(r, j, 3))
  }

  lemma DoubleInjective(x: bv8, y: bv8)
    requires x != y
    ensures Xtime(x) != Xtime(y) && Add(Xtime(x), x) != Add(Xtime(y), y)
  {}

  lemma AddInjective(a: bv8, x: bv8, r: bv8)
    requires x != a
    ensures Add(x, r) != Add(a, r)
  {}

  lemma FirstOfSum(a: bv8, b: bv8, c: bv8, d: bv8)
    ensures Sum4(a, b, c, d) == Add(a, Sum3(b, c, d))
  {}

  lemma SumChanges(a: bv8, b: bv8, c: bv8, d: bv8, x: bv8)
    requires x != a
    ensures Sum4(x, b, c, d) != Sum4(a, b, c, d) && Sum4(d, x, b, c) != Sum4(d, a, b, c)
    ensures Sum4(c, d, x, b) != Sum4(c, d, a, b) && Sum4(b, c, d, x) != Sum4(b, c, d, a)
  {
    hide Sum4, Sum3, Add;
    FirstOfSum(a, b, c, d);
    FirstOfSum(x, b, c, d);
    AddInjective(a, x, Sum3(b, c, d));
    SumRotates(a, b, c, d);
    SumRotates(x, b, c, d);
  }

  lemma SumRotates(a: bv8, b: bv8, c: bv8, d: bv8)
    ensures Sum4(a, b, c, d) == Sum4(d, a, b, c) == Sum4(c, d, a, b) == Sum4(b, c, d, a)
  {
    hide Sum4;
    Sum4Rotates(d, a, b, c);
    Sum4Rotates(c, d, a, b);
    Sum4Rotates(b, c, d, a);
  }

  lemma ProductsInjective(x: bv8, y: bv8)
    requires x != y
    ensures FieldMul(x, 0x02) != FieldMul(y, 0x02) && FieldMul(x, 0x03) != FieldMul(y, 0x03)
  {
    FieldMul2(x);
    FieldMul2(y);
    FieldMul3(x);
    FieldMul3(y);
    hide FieldMul, Xtime, Add;
    DoubleInjective(x, y);
  }

  /** No coefficient of the matrix is zero. */
  lemma MixRowChanges(a: bv8, b: bv8, c: bv8, d: bv8, x: bv8)
    ensures x != a ==> MixRow(x, b, c, d) != MixRow(a, b, c, d)
    ensures x != b ==> MixRow(a, x, c, d) != MixRow(a, b, c, d)
    ensures x != c ==> MixRow(a, b, x, d) != MixRow(a, b, c, d)
    ensures x != d ==> MixRow(a, b, c, x) != MixRow(a, b, c, d)
  {
    hide FieldMul, Sum4;
    if x != a {
      ProductsInjective(x, a);
      SumChanges(FieldMul(a, 0x02), FieldMul(b, 0x03), c, d, FieldMul(x, 0x02));
    }
    if x != b {
      ProductsInjective(x, b);
      SumChanges(FieldMul(b, 0x03), c, d, FieldMul(a, 0x02), FieldMul(x, 0x03));
    }
    if x != c {
      SumChanges(c, d, FieldMul(a, 0x02), FieldMul(b, 0x03), x);
    }
    if x != d {
      SumChanges(d, FieldMul(a, 0x02), FieldMul(b, 0x03), c, x);
    }
  }

  lemma MixSpreads(v: Word, w: Word, r: nat)
    requires OneDiffers(v, w, r) && r < 4
    ensures AllDiffer(MixWord(v), MixWord(w))
  {
    hide MixRow;
    var x := if r == 0 then w.b0 else if r == 1 then w.b1 else if r == 2 then w.b2 else w.b3;
    MixRowChanges(v.b0, v.b1, v.b2, v.b3, x);
    MixRowChanges(v.b1, v.b2, v.b3, v.b0, x);
    MixRowChanges(v.b2, v.b3, v.b0, v.b1, x);
    MixRowChanges(v.b3, v.b0, v.b1, v.b2, x);
  }

  // Substitution and the key addition act byte by byte, so they keep every difference where it is.

  lemma SubByteKeeps(x: bv8, y: bv8)
    ensures SBox(x) == SBox(y) <==> x == y
  {
    hide SBox, RsBox;
    RsBoxUndoesSBox(x);
    RsBoxUndoesSBox(y);
  }

  lemma SubWordKeeps(v: Word, w: Word, r: nat)
    ensures AllDiffer(v, w) <==> AllDiffer(SubWord(v), SubWord(w))
    ensures OneDiffers(v, w, r) <==> OneDiffers(SubWord(v), SubWord(w), r)
  {
    hide SBox;
    SubByteKeeps(v.b0, w.b0);
    SubByteKeeps(v.b1, w.b1);
    SubByteKeeps(v.b2, w.b2);
    SubByteKeeps(v.b3, w.b3);
  }

  lemma AddByteKeeps(x: bv8, y: bv8, k: bv8)
    ensures Add(x, k) == Add(y, k) <==> x == y
  {}

  lemma AddKeyKeeps(v: Word, w: Word, k: Word, r: nat)
    ensures AllDiffer(v, w) <==> AllDiffer(XorWord(v, k), XorWord(w, k))
    ensures OneDiffers(v, w, r) <==> OneDiffers(XorWord(v, k), XorWord(w, k), r)
  {
    hide Add;
    AddByteKeeps(v.b0, w.b0, k.b0);
    AddByteKeeps(v.b1, w.b1, k.b1);
    AddByteKeeps(v.b2, w.b2, k.b2);
    AddByteKeeps(v.b3, w.b3, k.b3);
  }

  lemma SubBytesKeeps(s: State, t: State, rows: (nat, nat, nat, nat), c: nat)
    ensures OneInColumns(s, t, rows) ==> OneInColumns(SubBytes(s), SubBytes(t), rows)
    ensures ColumnDiffers(s, t, c) ==> ColumnDiffers(SubBytes(s), SubBytes(t), c)
  {
    hide SubWord, AllDiffer, OneDiffers;
    SubWordKeeps(s.c0, t.c0, rows.0);
    SubWordKeeps(s.c1, t.c1, rows.1);
    SubWordKeeps(s.c2, t.c2, rows.2);
    SubWordKeeps(s.c3, t.c3, rows.3);
  }

  lemma KeyKeeps(s: State, t: State, k: State, rows: (nat, nat, nat, nat), c: nat)
    ensures OneInColumns(s, t, rows) ==> OneInColumns(XorState(s, k), XorState(t, k), rows)
    ensures ColumnDiffers(s, t, c) ==> ColumnDiffers(XorState(s, k), XorState(t, k), c)
  {
    hide XorWord, AllDiffer, OneDiffers;
    AddKeyKeeps(s.c0, t.c0, k.c0, rows.0);
    AddKeyKeeps(s.c1, t.c1, k.c1, rows.1);
    AddKeyKeeps(s.c2, t.c2, k.c2, rows.2);
    AddKeyKeeps(s.c3, t.c3, k.c3, rows.3);
  }

  // ShiftRows moves one byte to another column, and spreads a column over all of them.

  lemma ShiftMovesByte(s: State, t: State, r: nat, c: nat)
    requires r < 4 && c < 4 && OneInColumns(s, t, RowsFor(r, c))
    ensures OneInColumns(ShiftRows(s), ShiftRows(t), RowsFor(r, (c + 4 - r) % 4))
  {}

  lemma ShiftSpreadsColumn(s: State, t: State, c: nat)
    requires c < 4 && ColumnDiffers(s, t, c)
    ensures OneInColumns(ShiftRows(s), ShiftRows(t), (c, (c + 3) % 4, (c + 2) % 4, (c + 1) % 4))
  {}

  lemma ShiftKeepsAll(s: State, t: State)
    requires ColumnDiffers(s, t, 4)
    ensures ColumnDiffers(ShiftRows(s), ShiftRows(t), 4)
  {}

  // MixColumns makes one different byte a different column.

  lemma MixSpreadsOne(s: State, t: State, r: nat, c: nat)
    requires r < 4 && c < 4 && OneInColumns(s, t, RowsFor(r, c))
    ensures ColumnDiffers(MixColumns(s), MixColumns(t), c)
  {
    hide MixWord, AllDiffer;
    var v := if c == 0 then s.c0 else if c == 1 then s.c1 else if c == 2 then s.c2 else s.c3;
    var w := if c == 0 then t.c0 else if c == 1 then t.c1 else if c == 2 then t.c2 else t.c3;
    MixSpreads(v, w, r);
  }

  lemma MixSpreadsFour(s: State, t: State, rows: (nat, nat, nat, nat))
    requires rows.0 < 4 && rows.1 < 4 && rows.2 < 4 && rows.3 < 4 && OneInColumns(s, t, rows)
    ensures ColumnDiffers(MixColumns(s), MixColumns(t), 4)
  {
    hide MixWord, AllDiffer, OneDiffers;
    MixSpreads(s.c0, t.c0, rows.0);
    MixSpreads(s.c1, t.c1, rows.1);
    MixSpreads(s.c2, t.c2, rows.2);
    MixSpreads(s.c3, t.c3, rows.3);
  }

  lemma FirstRoundSpreads(s: State, t: State, k: State, r: nat, c: nat)
    requires r < 4 && c < 4 && OneInColumns(s, t, RowsFor(r, c))
    ensures ColumnDiffers(FullRound(s, k), FullRound(t, k), (c + 4 - r) % 4)
  {
    var rows, q := RowsFor(r, c), (c + 4 - r) % 4;
    hide SubBytes, ShiftRows, MixColumns, XorState, OneInColumns, ColumnDiffers, RowsFor;
    var x, y := SubBytes(s), SubBytes(t);
    SubBytesKeeps(s, t, rows, 0);
    ShiftMovesByte(x, y, r, c);
    MixSpreadsOne(ShiftRows(x), ShiftRows(y), r, q);
    KeyKeeps(MixColumns(ShiftRows(x)), MixColumns(ShiftRows(y)), k, rows, q);
  }

  lemma SecondRoundSpreads(s: State, t: State, k: State, c: nat)
    requires c < 4 && ColumnDiffers(s, t, c)
    ensures ColumnDiffers(FullRound(s, k), FullRound(t, k), 4)
  {
    hide SubBytes, ShiftRows, MixColumns, XorState, OneInColumns, ColumnDiffers;
    var rows := (c, (c + 3) % 4, (c + 2) % 4, (c + 1) % 4);
    var x, y := SubBytes(s), SubBytes(t);
    SubBytesKeeps(s, t, rows, c);
    ShiftSpreadsColumn(x, y, c);
    MixSpreadsFour(ShiftRows(x), ShiftRows(y), rows);
    KeyKeeps(MixColumns(ShiftRows(x)), MixColumns(ShiftRows(y)), k, rows, 4);
  }

  lemma LastRoundKeepsAll(s: State, t: State, k: State)
    requires ColumnDiffers(s, t, 4)
    ensures ColumnDiffers(LastRound(s, k), LastRound(t, k), 4)
  {
    hide SubBytes, ShiftRows, XorState, OneInColumns, ColumnDiffers;
    var x, y := SubBytes(s), SubBytes(t);
    SubBytesKeeps(s, t, RowsFor(0, 0), 4);
    ShiftKeepsAll(x, y);
    KeyKeeps(ShiftRows(x), ShiftRows(y), k, RowsFor(0, 0), 4);
  }

  lemma TwoRounds(rk: seq<bv8>, s: State, t: State, r: nat, c: nat)
    requires RoundKeysCover(rk, 2) && r < 4 && c < 4 && OneInColumns(s, t, RowsFor(r, c))
    ensures ColumnDiffers(ForwardRounds(rk, s, 2), ForwardRounds(rk, t, 2), 4)
  {
    var q := (c + 4 - r) % 4;
    hide FullRound, XorState, OneInColumns, ColumnDiffers, RowsFor, RoundKeyOf;
    KeyKeeps(s, t, RoundKeyOf(rk, 0), RowsFor(r, c), 0);
    FirstRoundSpreads(ForwardRounds(rk, s, 0), ForwardRounds(rk, t, 0), RoundKeyOf(rk, 1), r, c);
    SecondRoundSpreads(ForwardRounds(rk, s, 1), ForwardRounds(rk, t, 1), RoundKeyOf(rk, 2), q);
  }

  lemma ThreeRounds(rk: seq<bv8>, s: State, t: State, r: nat, c: nat)
    requires RoundKeysCover(rk, 3) && r < 4 && c < 4 && OneInColumns(s, t, RowsFor(r, c))
    ensures ColumnDiffers(Cipher(rk, 3, s), Cipher(rk, 3, t), 4)
  {
    hide ForwardRounds, LastRound, OneInColumns, ColumnDiffers, RowsFor, RoundKeyOf;
    TwoRounds(rk, s, t, r, c);
    LastRoundKeepsAll(ForwardRounds(rk, s, 2), ForwardRounds(rk, t, 2), RoundKeyOf(rk, 3));
  }

  lemma OneByteInColumn(p: seq<bv8>, q: seq<bv8>, k: nat, c: nat)
    requires |p| == |q| == 16 && k < 16 && c < 4 && p[k] != q[k]
    requires forall j | 0 <= j < 16 && j != k :: p[j] == q[j]
    ensures OneDiffers(WordAt(p, 4 * c), WordAt(q, 4 * c), RowIn(k % 4, k / 4, c))
  {
    assert k == 4 * (k / 4) + k % 4;
  }

  lemma OneByteInColumns(p: seq<bv8>, q: seq<bv8>, k: nat)
    requires |p| == |q| == 16 && k < 16 && p[k] != q[k]
    requires forall j | 0 <= j < 16 && j != k :: p[j] == q[j]
    ensures OneInColumns(StateAt(p, 0), StateAt(q, 0), RowsFor(k % 4, k / 4))
  {
    hide OneDiffers, WordAt, RowIn;
    OneByteInColumn(p, q, k, 0);
    OneByteInColumn(p, q, k, 1);
    OneByteInColumn(p, q, k, 2);
    OneByteInColumn(p, q, k, 3);
  }

  lemma AllCellsDiffer(s: State, t: State, r: nat, c: nat)
    requires ColumnDiffers(s, t, 4) && r < 4 && c < 4
    ensures Cell(s, r, c) != Cell(t, r, c)
  {}

  lemma AllBytesDiffer(s: State, t: State)
    requires ColumnDiffers(s, t, 4)
    ensures forall j | 0 <= j < 16 :: BlockBytes(s)[j] != BlockBytes(t)[j]
  {
    hide BlockBytes, Cell, ColumnDiffers;
    forall j | 0 <= j < 16
      ensures BlockBytes(s)[j] != BlockBytes(t)[j]
    {
      ByteOfBlock(s, j);
      ByteOfBlock(t, j);
      AllCellsDiffer(s, t, j % 4, j / 4);
    }
  }

  /** Three rounds spread a change of one byte over the whole block: whatever the round keys, two
      blocks that differ in exactly one byte have ciphertexts that differ in all sixteen. */
  lemma OneByteChangesAll(rk: seq<bv8>, p: seq<bv8>, q: seq<bv8>, k: nat)
    requires 16 * 4 <= |rk| && |p| == |q| == 16 && k < 16 && p[k] != q[k]
    requires forall j | 0 <= j < 16 && j != k :: p[j] == q[j]
    ensures forall j | 0 <= j < 16 ::
              BlockBytes(Cipher(rk, 3, StateAt(p, 0)))[j] != BlockBytes(Cipher(rk, 3, StateAt(q, 0)))[j]
  {
    var s, t := StateAt(p, 0), StateAt(q, 0);
    OneByteInColumns(p, q, k);
    hide Cipher, StateAt, OneInColumns, ColumnDiffers, RowsFor, BlockBytes;
    ThreeRounds(rk, s, t, k % 4, k / 4);
    AllBytesDiffer(Cipher(rk, 3, s), Cipher(rk, 3, t));
  }
}
