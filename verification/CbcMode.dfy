/** Cipher block chaining, section 6.2 of NIST SP 800-38A, over any block cipher. */
module CbcMode {
  import opened AesState

  type Blocks = seq<State>

  /** The block chained into block i: the initialisation vector, then the previous ciphertext. */
  function Chained(iv: State, cs: Blocks, i: nat): State
    requires i <= |cs|
  {
    if i == 0 then iv else cs[i - 1]
  }

  function CbcEncrypt(enc: State -> State, iv: State, ps: Blocks): (cs: Blocks)
    ensures |cs| == |ps|
  {
    if ps == [] then []
    else
      var before := CbcEncrypt(enc, iv, ps[..|ps| - 1]);
      before + [enc(XorState(ps[|ps| - 1], Chained(iv, before, |before|)))]
  }

  function CbcDecrypt(dec: State -> State, iv: State, cs: Blocks): (ps: Blocks)
    ensures |ps| == |cs|
  {
    seq(|cs|, i requires 0 <= i < |cs| => XorState(dec(cs[i]), Chained(iv, cs, i)))
  }

  /** What encryption leaves in the input buffer. */
  function Masked(iv: State, ps: Blocks, cs: Blocks): (ms: Blocks)
    requires |ps| == |cs|
    ensures |ms| == |ps|
  {
    seq(|ps|, i requires 0 <= i < |ps| => XorState(ps[i], Chained(iv, cs, i)))
  }

  /** C_i = E(P_i xor C_{i-1}), and the chain is determined by this recurrence. */
  lemma {:induction false} EncryptRecurrence(enc: State -> State, iv: State, ps: Blocks, i: nat)
    requires i < |ps|
    ensures var cs := CbcEncrypt(enc, iv, ps); cs[i] == enc(XorState(ps[i], Chained(iv, cs, i)))
  {
    hide XorState;
    if i < |ps| - 1 {
      EncryptRecurrence(enc, iv, ps[..|ps| - 1], i);
    }
  }

  /** The decryption counterpart, P_i = D(C_i) xor C_{i-1}. */
  lemma DecryptRecurrence(dec: State -> State, iv: State, cs: Blocks, i: nat)
    requires i < |cs|
    ensures CbcDecrypt(dec, iv, cs)[i] == XorState(dec(cs[i]), Chained(iv, cs, i))
  {}

  lemma {:induction false} RecurrenceDeterminesBlock(enc: State -> State, iv: State, ps: Blocks, cs: Blocks, i: nat)
    requires |cs| == |ps| && i < |ps|
    requires forall j | 0 <= j < |ps| :: cs[j] == enc(XorState(ps[j], Chained(iv, cs, j)))
    ensures cs[i] == CbcEncrypt(enc, iv, ps)[i]
  {
    hide XorState, CbcEncrypt;
    EncryptRecurrence(enc, iv, ps, i);
    if i > 0 {
      RecurrenceDeterminesBlock(enc, iv, ps, cs, i - 1);
    }
  }

  lemma RecurrenceDetermines(enc: State -> State, iv: State, ps: Blocks, cs: Blocks)
    requires |cs| == |ps|
    requires forall i | 0 <= i < |ps| :: cs[i] == enc(XorState(ps[i], Chained(iv, cs, i)))
    ensures cs == CbcEncrypt(enc, iv, ps)
  {
    hide XorState, CbcEncrypt;
    forall i | 0 <= i < |ps|
      ensures cs[i] == CbcEncrypt(enc, iv, ps)[i]
    {
      RecurrenceDeterminesBlock(enc, iv, ps, cs, i);
    }
  }

  /** Decryption with the same key and vector recovers every plaintext block. */
  lemma DecryptUndoesEncrypt(enc: State -> State, dec: State -> State, iv: State, ps: Blocks)
    requires forall s :: dec(enc(s)) == s
    ensures CbcDecrypt(dec, iv, CbcEncrypt(enc, iv, ps)) == ps
  {
    hide XorState, CbcEncrypt;
    var cs := CbcEncrypt(enc, iv, ps);
    forall i | 0 <= i < |ps|
      ensures CbcDecrypt(dec, iv, cs)[i] == ps[i]
    {
      EncryptRecurrence(enc, iv, ps, i);
      XorStateTwice(ps[i], Chained(iv, cs, i));
    }
  }

  /** ... and encryption recovers every ciphertext block. */
  lemma EncryptUndoesDecrypt(enc: State -> State, dec: State -> State, iv: State, cs: Blocks)
    requires forall s :: enc(dec(s)) == s
    ensures CbcEncrypt(enc, iv, CbcDecrypt(dec, iv, cs)) == cs
  {
    hide XorState, CbcEncrypt;
    var ps := CbcDecrypt(dec, iv, cs);
    forall i | 0 <= i < |cs|
      ensures cs[i] == enc(XorState(ps[i], Chained(iv, cs, i)))
    {
      XorStateTwice(dec(cs[i]), Chained(iv, cs, i));
    }
    RecurrenceDetermines(enc, iv, ps, cs);
  }
}
