/** The key expansion of section 5.2 of FIPS 197, as a recursive definition. */
module KeySchedule {
  import opened Gf256
  import opened AesState
  import opened AesTables

  predicate KeyLengthAllowed(nk: nat) {
    nk == 4 || nk == 6 || nk == 8
  }

  function RotWord(w: Word): Word {
    Word(w.b1, w.b2, w.b3, w.b0)
  }

  function Rcon(j: nat): Word
    requires 1 <= j
  {
    Word(PowerOfX(j - 1), 0, 0, 0)
  }

  /** The word that is added to the word nk places back. */
  function Temp(prev: Word, nk: nat, i: nat): Word
    requires KeyLengthAllowed(nk) && nk <= i
  {
    if i % nk == 0 then XorWord(SubWord(RotWord(prev)), Rcon(i / nk))
    else if nk > 6 && i % nk == 4 then SubWord(prev)
    else prev
  }

  /** Word i of the expanded key. */
  function ScheduleWord(key: seq<bv8>, nk: nat, i: nat): Word
    requires KeyLengthAllowed(nk) && |key| == 4 * nk
  {
    if i < nk then WordAt(key, 4 * i)
    else XorWord(ScheduleWord(key, nk, i - nk), Temp(ScheduleWord(key, nk, i - 1), nk, i))
  }

  function WordBytes(w: Word): seq<bv8> {
    [w.b0, w.b1, w.b2, w.b3]
  }

  /** The bytes of the first n words of the expanded key. */
  function ExpandKey(key: seq<bv8>, nk: nat, n: nat): (rk: seq<bv8>)
    requires KeyLengthAllowed(nk) && |key| == 4 * nk
    ensures |rk| == 4 * n
  {
    if n == 0 then [] else ExpandKey(key, nk, n - 1) + WordBytes(ScheduleWord(key, nk, n - 1))
  }

  lemma {:induction false} ExpandedWords(key: seq<bv8>, nk: nat, n: nat, i: nat)
    requires KeyLengthAllowed(nk) && |key| == 4 * nk && i < n
    ensures WordAt(ExpandKey(key, nk, n), 4 * i) == ScheduleWord(key, nk, i)
  {
    hide Temp;
    if i < n - 1 {
      ExpandedWords(key, nk, n - 1, i);
    }
  }

  lemma XorFirstByte(w: Word, r: bv8)
    ensures XorWord(w, Word(r, 0, 0, 0)) == Word(Add(w.b0, r), w.b1, w.b2, w.b3)
  {}

  lemma RconInRange(nk: nat, i: nat)
    requires KeyLengthAllowed(nk) && nk <= i < 4 * (nk + 7)
    ensures 1 <= i / nk < |RCON|
  {
    assert nk == 4 || nk == 6 || nk == 8;
  }

  /** The code's way of computing the word that is added, byte by byte. */
  lemma TempByBytes(prev: Word, nk: nat, i: nat)
    requires KeyLengthAllowed(nk) && nk <= i < 4 * (nk + 7)
    ensures 1 <= i / nk < |RCON|
    ensures Temp(prev, nk, i)
         == if i % nk == 0 then Word(Add(SBox(prev.b1), RCON[i / nk]), SBox(prev.b2), SBox(prev.b3), SBox(prev.b0))
            else if nk == 8 && i % nk == 4 then Word(SBox(prev.b0), SBox(prev.b1), SBox(prev.b2), SBox(prev.b3))
            else prev
  {
    hide SBox, XorWord, PowerOfX, Add;
    RconInRange(nk, i);
    RconIsPowerOfX(i / nk);
    XorFirstByte(SubWord(RotWord(prev)), RCON[i / nk]);
  }

  /** The first nk words are the key itself. */
  lemma {:induction false} ExpandedKeyPrefix(key: seq<bv8>, nk: nat, n: nat)
    requires KeyLengthAllowed(nk) && |key| == 4 * nk && n <= nk
    ensures ExpandKey(key, nk, n) == key[..4 * n]
  {
    hide Temp;
    if n > 0 {
      ExpandedKeyPrefix(key, nk, n - 1);
      var m := 4 * (n - 1);
      assert WordBytes(WordAt(key, m)) == key[m..m + 4];
      assert key[..m] + key[m..m + 4] == key[..4 * n];
    }
  }

  lemma NextWord(key: seq<bv8>, nk: nat, i: nat, rk: seq<bv8>)
    requires KeyLengthAllowed(nk) && |key| == 4 * nk && nk <= i
    requires rk == ExpandKey(key, nk, i)
    ensures ScheduleWord(key, nk, i)
         == XorWord(WordAt(rk, 4 * (i - nk)), Temp(WordAt(rk, 4 * (i - 1)), nk, i))
  {
    hide Temp, XorWord, ExpandKey, WordAt;
    ExpandedWords(key, nk, i, i - 1);
    ExpandedWords(key, nk, i, i - nk);
  }

  lemma AppendWord(rk: seq<bv8>, n: nat)
    requires n + 4 <= |rk|
    ensures rk[..n + 4] == rk[..n] + WordBytes(WordAt(rk, n))
  {}

  lemma WordInPrefix(rk: seq<bv8>, n: nat, off: nat)
    requires off + 4 <= n <= |rk|
    ensures WordAt(rk[..n], off) == WordAt(rk, off)
  {}

  /** A buffer that holds the first i words, and then is given word i, holds the first i + 1. */
  lemma StoredWord(key: seq<bv8>, nk: nat, i: nat, before: seq<bv8>, rk: seq<bv8>, temp: Word)
    requires KeyLengthAllowed(nk) && |key| == 4 * nk && nk <= i
    requires 4 * i + 4 <= |rk| == |before|
    requires before[..4 * i] == ExpandKey(key, nk, i)
    requires temp == Temp(WordAt(before, 4 * (i - 1)), nk, i)
    requires forall p | 0 <= p < 4 * i :: rk[p] == before[p]
    requires rk[4 * i] == Add(before[4 * (i - nk)], temp.b0)
    requires rk[4 * i + 1] == Add(before[4 * (i - nk) + 1], temp.b1)
    requires rk[4 * i + 2] == Add(before[4 * (i - nk) + 2], temp.b2)
    requires rk[4 * i + 3] == Add(before[4 * (i - nk) + 3], temp.b3)
    ensures rk[..4 * (i + 1)] == ExpandKey(key, nk, i + 1)
  {
    hide Add;
    assert WordAt(rk, 4 * i) == XorWord(WordAt(before, 4 * (i - nk)), temp);
    hide Temp, XorWord, WordAt, ScheduleWord, WordBytes;
    assert rk[..4 * i] == before[..4 * i];
    NextWord(key, nk, i, before[..4 * i]);
    WordInPrefix(before, 4 * i, 4 * (i - nk));
    WordInPrefix(before, 4 * i, 4 * (i - 1));
    AppendWord(rk, 4 * i);
  }

  /** The schedule runs backwards as well: any nk consecutive words determine the word before them,
      so no two keys of one length have the same expansion from any point on. */
  lemma {:induction false} ScheduleIsReversible(key: seq<bv8>, other: seq<bv8>, nk: nat, i: nat)
    requires KeyLengthAllowed(nk) && |key| == |other| == 4 * nk
    requires forall j | i <= j < i + nk :: ScheduleWord(key, nk, j) == ScheduleWord(other, nk, j)
    ensures key == other
    decreases i
  {
    hide Temp, XorWord;
    if i == 0 {
      forall b | 0 <= b < 4 * nk
        ensures key[b] == other[b]
      {
        assert ScheduleWord(key, nk, b / 4) == ScheduleWord(other, nk, b / 4);
        assert b == 4 * (b / 4) + b % 4;
      }
    } else {
      var j := i - 1 + nk;
      var t := Temp(ScheduleWord(key, nk, j - 1), nk, j);
      assert ScheduleWord(key, nk, j) == ScheduleWord(other, nk, j);
      assert ScheduleWord(key, nk, j - 1) == ScheduleWord(other, nk, j - 1);
      XorWordTwice(ScheduleWord(key, nk, i - 1), t);
      XorWordTwice(ScheduleWord(other, nk, i - 1), t);
      assert ScheduleWord(key, nk, i - 1) == ScheduleWord(other, nk, i - 1);
      ScheduleIsReversible(key, other, nk, i - 1);
    }
  }
}
