/** The cipher and the straight inverse cipher, for any contents of the round-key buffer. */
module AesCipher {
  import opened AesState

  predicate RoundKeysCover(rk: seq<bv8>, nr: nat) {
    16 * (nr + 1) <= |rk|
  }

  function RoundKeyOf(rk: seq<bv8>, round: nat): State
    requires RoundKeysCover(rk, round)
  {
    StateAt(rk, 16 * round)
  }

  /** One full round of encryption, and the rounds 1..n after the first key addition. */
  function FullRound(s: State, k: State): State {
    XorState(MixColumns(ShiftRows(SubBytes(s))), k)
  }

  function ForwardRounds(rk: seq<bv8>, s: State, n: nat): State
    requires RoundKeysCover(rk, n)
  {
    if n == 0 then XorState(s, RoundKeyOf(rk, 0))
    else FullRound(ForwardRounds(rk, s, n - 1), RoundKeyOf(rk, n))
  }

  function LastRound(s: State, k: State): State {
    XorState(ShiftRows(SubBytes(s)), k)
  }

  function Cipher(rk: seq<bv8>, nr: nat, s: State): State
    requires 1 <= nr && RoundKeysCover(rk, nr)
  {
    LastRound(ForwardRounds(rk, s, nr - 1), RoundKeyOf(rk, nr))
  }

  /** One full round of decryption, and the rounds nr-1 down to n after the first key addition. */
  function InvFullRound(s: State, k: State): State {
    InvMixColumns(XorState(InvSubBytes(InvShiftRows(s)), k))
  }

  function BackwardRounds(rk: seq<bv8>, nr: nat, s: State, n: nat): State
    requires n <= nr && RoundKeysCover(rk, nr)
    decreases nr - n
  {
    if n == nr then XorState(s, RoundKeyOf(rk, nr))
    else InvFullRound(BackwardRounds(rk, nr, s, n + 1), RoundKeyOf(rk, n))
  }

  function InvLastRound(s: State, k: State): State {
    XorState(InvSubBytes(InvShiftRows(s)), k)
  }

  function InvCipher(rk: seq<bv8>, nr: nat, s: State): State
    requires 1 <= nr && RoundKeysCover(rk, nr)
  {
    InvLastRound(BackwardRounds(rk, nr, s, 1), RoundKeyOf(rk, 0))
  }

  // ----- Undoing one round -----

  /** The state inside a round, between the row shift and the column mix. */
  function Shifted(s: State): State {
    ShiftRows(SubBytes(s))
  }

  lemma UnshiftShifted(s: State)
    ensures InvSubBytes(InvShiftRows(Shifted(s))) == s
    ensures Shifted(InvSubBytes(InvShiftRows(s))) == s
  {
    hide SubBytes, InvSubBytes, ShiftRows, InvShiftRows;
    SubBytesInverse(s);
    SubBytesInverse(InvShiftRows(s));
    ShiftRowsInverse(s);
    ShiftRowsInverse(SubBytes(s));
  }

  /** An inverse round takes the inside of round n+1 back to the inside of round n ... */
  lemma InverseRoundStepsBack(s: State, k: State)
    ensures InvFullRound(Shifted(FullRound(s, k)), k) == Shifted(s)
  {
    UnshiftShifted(FullRound(s, k));
    hide SubBytes, InvSubBytes, ShiftRows, InvShiftRows, MixColumns, InvMixColumns, XorState;
    XorStateTwice(MixColumns(Shifted(s)), k);
    MixColumnsInverse(Shifted(s));
  }

  /** ... and a forward round does the converse. */
  lemma ForwardRoundStepsForward(s: State, k: State)
    ensures FullRound(InvSubBytes(InvShiftRows(InvFullRound(s, k))), k) == InvSubBytes(InvShiftRows(s))
  {
    UnshiftShifted(InvFullRound(s, k));
    hide SubBytes, InvSubBytes, ShiftRows, InvShiftRows, MixColumns, InvMixColumns, XorState;
    var t := XorState(InvSubBytes(InvShiftRows(s)), k);
    MixColumnsInverse(t);
    XorStateTwice(InvSubBytes(InvShiftRows(s)), k);
  }

  // ----- The many-round inverse -----

  /** Invariant of the inverse cipher run on a ciphertext: before inverse round n - 1 the state is
      the inside of forward round n. */
  lemma {:induction false} BackwardMeetsForward(rk: seq<bv8>, nr: nat, s: State, n: nat)
    requires 1 <= n <= nr && RoundKeysCover(rk, nr)
    ensures BackwardRounds(rk, nr, Cipher(rk, nr, s), n) == Shifted(ForwardRounds(rk, s, n - 1))
    decreases nr - n
  {
    hide SubBytes, ShiftRows, XorState, FullRound, InvFullRound, StateAt;
    if n == nr {
      XorStateTwice(Shifted(ForwardRounds(rk, s, nr - 1)), RoundKeyOf(rk, nr));
    } else {
      BackwardMeetsForward(rk, nr, s, n + 1);
      InverseRoundStepsBack(ForwardRounds(rk, s, n - 1), RoundKeyOf(rk, n));
    }
  }

  /** Invariant of the cipher run on a decrypted block. */
  lemma {:induction false} ForwardMeetsBackward(rk: seq<bv8>, nr: nat, s: State, n: nat)
    requires n < nr && RoundKeysCover(rk, nr)
    ensures ForwardRounds(rk, InvCipher(rk, nr, s), n) == InvSubBytes(InvShiftRows(BackwardRounds(rk, nr, s, n + 1)))
  {
    hide InvSubBytes, InvShiftRows, XorState, FullRound, InvFullRound, StateAt;
    if n == 0 {
      XorStateTwice(InvSubBytes(InvShiftRows(BackwardRounds(rk, nr, s, 1))), RoundKeyOf(rk, 0));
    } else {
      ForwardMeetsBackward(rk, nr, s, n - 1);
      ForwardRoundStepsForward(BackwardRounds(rk, nr, s, n + 1), RoundKeyOf(rk, n));
    }
  }

  /** Decryption undoes encryption: every block, every round-key contents, every number of rounds. */
  lemma InvCipherUndoesCipher(rk: seq<bv8>, nr: nat, s: State)
    requires 1 <= nr && RoundKeysCover(rk, nr)
    ensures InvCipher(rk, nr, Cipher(rk, nr, s)) == s
  {
    hide SubBytes, InvSubBytes, ShiftRows, InvShiftRows, XorState, StateAt, BackwardRounds, Cipher;
    BackwardMeetsForward(rk, nr, s, 1);
    UnshiftShifted(ForwardRounds(rk, s, 0));
    XorStateTwice(s, RoundKeyOf(rk, 0));
  }

  /** Encryption undoes decryption. */
  lemma CipherUndoesInvCipher(rk: seq<bv8>, nr: nat, s: State)
    requires 1 <= nr && RoundKeysCover(rk, nr)
    ensures Cipher(rk, nr, InvCipher(rk, nr, s)) == s
  {
    hide SubBytes, InvSubBytes, ShiftRows, InvShiftRows, XorState, StateAt, ForwardRounds, InvCipher;
    ForwardMeetsBackward(rk, nr, s, nr - 1);
    UnshiftShifted(BackwardRounds(rk, nr, s, nr));
    XorStateTwice(s, RoundKeyOf(rk, nr));
  }
}
