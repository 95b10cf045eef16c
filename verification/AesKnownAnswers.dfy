/** The example vectors of appendix C of FIPS 197: what the cipher makes of one block under one key of
    each size, worked out round by round. */
module AesKnownAnswers {
  import opened AesCipher
  import opened AesState
  import opened AesTables
  import opened ByteBlocks
  import opened Gf256
  import opened KeySchedule

  /** Words and blocks as they are printed in the standard. */
  function W(x: bv32): Word {
    Word(((x >> 24) & 0xff) as bv8, ((x >> 16) & 0xff) as bv8, ((x >> 8) & 0xff) as bv8, (x & 0xff) as bv8)
  }

  function B(x0: bv32, x1: bv32, x2: bv32, x3: bv32): State {
    State(W(x0), W(x1), W(x2), W(x3))
  }


  lemma FirstWord(key: seq<bv8>, nk: nat, i: nat)
    requires KeyLengthAllowed(nk) && |key| == 4 * nk && i < nk
    ensures ScheduleWord(key, nk, i) == WordAt(key, 4 * i)
  {}

  /** A round by doublings, which are quicker to work out than products. */
  function Doubled(w: Word): Word {
    var t := Sum4(w.b0, w.b1, w.b2, w.b3);
    Word(Add(w.b0, Add(Xtime(Add(w.b0, w.b1)), t)), Add(w.b1, Add(Xtime(Add(w.b1, w.b2)), t)),
         Add(w.b2, Add(Xtime(Add(w.b2, w.b3)), t)), Add(w.b3, Add(Xtime(Add(w.b3, w.b0)), t)))
  }

  function RoundByDoubling(s: State, k: State): State {
    var x := ShiftRows(SubBytes(s));
    XorState(State(Doubled(x.c0), Doubled(x.c1), Doubled(x.c2), Doubled(x.c3)), k)
  }

  lemma SameRound(s: State, k: State)
    ensures FullRound(s, k) == RoundByDoubling(s, k)
  {
    hide MixWord, Xtime, Add, Sum4, SBox;
    var x := ShiftRows(SubBytes(s));
    MixedInPlace(x.c0);
    MixedInPlace(x.c1);
    MixedInPlace(x.c2);
    MixedInPlace(x.c3);
  }

  /** One word of a schedule from the word before it and the word nk places back. */
  lemma OneWord(key: seq<bv8>, nk: nat, i: nat, v: Word, prev: Word)
    requires KeyLengthAllowed(nk) && |key| == 4 * nk && nk <= i < 4 * (nk + 7)
    requires ScheduleWord(key, nk, i - nk) == v && ScheduleWord(key, nk, i - 1) == prev
    ensures 1 <= i / nk < |RCON|
    ensures ScheduleWord(key, nk, i)
         == XorWord(v, if i % nk == 0 then
                         Word(Add(SBox(prev.b1), RCON[i / nk]), SBox(prev.b2), SBox(prev.b3), SBox(prev.b0))
                       else if nk == 8 && i % nk == 4 then
                         Word(SBox(prev.b0), SBox(prev.b1), SBox(prev.b2), SBox(prev.b3))
                       else prev)
  {
    hide SBox, XorWord, Temp;
    TempByBytes(prev, nk, i);
  }

  /** The round keys of a schedule. */
  lemma KeyOfRound(key: seq<bv8>, nk: nat, round: nat)
    requires KeyLengthAllowed(nk) && |key| == 4 * nk && round <= nk + 6
    ensures RoundKeyOf(ExpandKey(key, nk, 4 * (nk + 7)), round)
         == State(ScheduleWord(key, nk, 4 * round), ScheduleWord(key, nk, 4 * round + 1),
                  ScheduleWord(key, nk, 4 * round + 2), ScheduleWord(key, nk, 4 * round + 3))
  {
    hide ExpandKey, ScheduleWord, WordAt;
    var n := 4 * (nk + 7);
    ExpandedWords(key, nk, n, 4 * round);
    ExpandedWords(key, nk, n, 4 * round + 1);
    ExpandedWords(key, nk, n, 4 * round + 2);
    ExpandedWords(key, nk, n, 4 * round + 3);
  }

  // ----- Keys of 128 bits -----

  predicate IsKey128(key: seq<bv8>) {
    key == [0x00, 0x01, 0x02, 0x03, 0x04, 0x05, 0x06, 0x07, 0x08, 0x09, 0x0a, 0x0b, 0x0c, 0x0d, 0x0e, 0x0f]
  }

  lemma KeyWords128_0(key: seq<bv8>)
    requires IsKey128(key)
    ensures
         && ScheduleWord(key, 4, 0) == W(0x00010203) && ScheduleWord(key, 4, 1) == W(0x04050607)
         && ScheduleWord(key, 4, 2) == W(0x08090a0b) && ScheduleWord(key, 4, 3) == W(0x0c0d0e0f)
  {
    hide ScheduleWord;
    FirstWord(key, 4, 0);
    FirstWord(key, 4, 1);
    FirstWord(key, 4, 2);
    FirstWord(key, 4, 3);
  }

  lemma Words128_1(key: seq<bv8>)
    requires IsKey128(key)
    ensures
         && ScheduleWord(key, 4, 4) == W(0xd6aa74fd) && ScheduleWord(key, 4, 5) == W(0xd2af72fa)
         && ScheduleWord(key, 4, 6) == W(0xdaa678f1) && ScheduleWord(key, 4, 7) == W(0xd6ab76fe)
  {
    hide ScheduleWord;
    KeyWords128_0(key);
    OneWord(key, 4, 4, W(0x00010203), W(0x0c0d0e0f));
    OneWord(key, 4, 5, W(0x04050607), W(0xd6aa74fd));
    OneWord(key, 4, 6, W(0x08090a0b), W(0xd2af72fa));
    OneWord(key, 4, 7, W(0x0c0d0e0f), W(0xdaa678f1));
  }

  lemma Words128_2(key: seq<bv8>)
    requires IsKey128(key)
    ensures
         && ScheduleWord(key, 4, 8) == W(0xb692cf0b) && ScheduleWord(key, 4, 9) == W(0x643dbdf1)
         && ScheduleWord(key, 4, 10) == W(0xbe9bc500) && ScheduleWord(key, 4, 11) == W(0x6830b3fe)
  {
    hide ScheduleWord;
    Words128_1(key);
    OneWord(key, 4, 8, W(0xd6aa74fd), W(0xd6ab76fe));
    OneWord(key, 4, 9, W(0xd2af72fa), W(0xb692cf0b));
    OneWord(key, 4, 10, W(0xdaa678f1), W(0x643dbdf1));
    OneWord(key, 4, 11, W(0xd6ab76fe), W(0xbe9bc500));
  }

  lemma Words128_3(key: seq<bv8>)
    requires IsKey128(key)
    ensures
         && ScheduleWord(key, 4, 12) == W(0xb6ff744e) && ScheduleWord(key, 4, 13) == W(0xd2c2c9bf)
         && ScheduleWord(key, 4, 14) == W(0x6c590cbf) && ScheduleWord(key, 4, 15) == W(0x0469bf41)
  {
    hide ScheduleWord;
    Words128_2(key);
    OneWord(key, 4, 12, W(0xb692cf0b), W(0x6830b3fe));
    OneWord(key, 4, 13, W(0x643dbdf1), W(0xb6ff744e));
    OneWord(key, 4, 14, W(0xbe9bc500), W(0xd2c2c9bf));
    OneWord(key, 4, 15, W(0x6830b3fe), W(0x6c590cbf));
  }

  lemma Words128_4(key: seq<bv8>)
    requires IsKey128(key)
    ensures
         && ScheduleWord(key, 4, 16) == W(0x47f7f7bc) && ScheduleWord(key, 4, 17) == W(0x95353e03)
         && ScheduleWord(key, 4, 18) == W(0xf96c32bc) && ScheduleWord(key, 4, 19) == W(0xfd058dfd)
  {
    hide ScheduleWord;
    Words128_3(key);
    OneWord(key, 4, 16, W(0xb6ff744e), W(0x0469bf41));
    OneWord(key, 4, 17, W(0xd2c2c9bf), W(0x47f7f7bc));
    OneWord(key, 4, 18, W(0x6c590cbf), W(0x95353e03));
    OneWord(key, 4, 19, W(0x0469bf41), W(0xf96c32bc));
  }

  lemma Words128_5(key: seq<bv8>)
    requires IsKey128(key)
    ensures
         && ScheduleWord(key, 4, 20) == W(0x3caaa3e8) && ScheduleWord(key, 4, 21) == W(0xa99f9deb)
         && ScheduleWord(key, 4, 22) == W(0x50f3af57) && ScheduleWord(key, 4, 23) == W(0xadf622aa)
  {
    hide ScheduleWord;
    Words128_4(key);
    OneWord(key, 4, 20, W(0x47f7f7bc), W(0xfd058dfd));
    OneWord(key, 4, 21, W(0x95353e03), W(0x3caaa3e8));
    OneWord(key, 4, 22, W(0xf96c32bc), W(0xa99f9deb));
    OneWord(key, 4, 23, W(0xfd058dfd), W(0x50f3af57));
  }

  lemma Words128_6(key: seq<bv8>)
    requires IsKey128(key)
    ensures
         && ScheduleWord(key, 4, 24) == W(0x5e390f7d) && ScheduleWord(key, 4, 25) == W(0xf7a69296)
         && ScheduleWord(key, 4, 26) == W(0xa7553dc1) && ScheduleWord(key, 4, 27) == W(0x0aa31f6b)
  {
    hide ScheduleWord;
    Words128_5(key);
    OneWord(key, 4, 24, W(0x3caaa3e8), W(0xadf622aa));
    OneWord(key, 4, 25, W(0xa99f9deb), W(0x5e390f7d));
    OneWord(key, 4, 26, W(0x50f3af57), W(0xf7a69296));
    OneWord(key, 4, 27, W(0xadf622aa), W(0xa7553dc1));
  }

  lemma Words128_7(key: seq<bv8>)
    requires IsKey128(key)
    ensures
         && ScheduleWord(key, 4, 28) == W(0x14f9701a) && ScheduleWord(key, 4, 29) == W(0xe35fe28c)
         && ScheduleWord(key, 4, 30) == W(0x440adf4d) && ScheduleWord(key, 4, 31) == W(0x4ea9c026)
  {
    hide ScheduleWord;
    Words128_6(key);
    OneWord(key, 4, 28, W(0x5e390f7d), W(0x0aa31f6b));
    OneWord(key, 4, 29, W(0xf7a69296), W(0x14f9701a));
    OneWord(key, 4, 30, W(0xa7553dc1), W(0xe35fe28c));
    OneWord(key, 4, 31, W(0x0aa31f6b), W(0x440adf4d));
  }

  lemma Words128_8(key: seq<bv8>)
    requires IsKey128(key)
    ensures
         && ScheduleWord(key, 4, 32) == W(0x47438735) && ScheduleWord(key, 4, 33) == W(0xa41c65b9)
         && ScheduleWord(key, 4, 34) == W(0xe016baf4) && ScheduleWord(key, 4, 35) == W(0xaebf7ad2)
  {
    hide ScheduleWord;
    Words128_7(key);
    OneWord(key, 4, 32, W(0x14f9701a), W(0x4ea9c026));
    OneWord(key, 4, 33, W(0xe35fe28c), W(0x47438735));
    OneWord(key, 4, 34, W(0x440adf4d), W(0xa41c65b9));
    OneWord(key, 4, 35, W(0x4ea9c026), W(0xe016baf4));
  }

  lemma Words128_9(key: seq<bv8>)
    requires IsKey128(key)
    ensures
         && ScheduleWord(key, 4, 36) == W(0x549932d1) && ScheduleWord(key, 4, 37) == W(0xf0855768)
         && ScheduleWord(key, 4, 38) == W(0x1093ed9c) && ScheduleWord(key, 4, 39) == W(0xbe2c974e)
  {
    hide ScheduleWord;
    Words128_8(key);
    OneWord(key, 4, 36, W(0x47438735), W(0xaebf7ad2));
    OneWord(key, 4, 37, W(0xa41c65b9), W(0x549932d1));
    OneWord(key, 4, 38, W(0xe016baf4), W(0xf0855768));
    OneWord(key, 4, 39, W(0xaebf7ad2), W(0x1093ed9c));
  }

  lemma Words128_10(key: seq<bv8>)
    requires IsKey128(key)
    ensures
         && ScheduleWord(key, 4, 40) == W(0x13111d7f) && ScheduleWord(key, 4, 41) == W(0xe3944a17)
         && ScheduleWord(key, 4, 42) == W(0xf307a78b) && ScheduleWord(key, 4, 43) == W(0x4d2b30c5)
  {
    hide ScheduleWord;
    Words128_9(key);
    OneWord(key, 4, 40, W(0x549932d1), W(0xbe2c974e));
    OneWord(key, 4, 41, W(0xf0855768), W(0x13111d7f));
    OneWord(key, 4, 42, W(0x1093ed9c), W(0xe3944a17));
    OneWord(key, 4, 43, W(0xbe2c974e), W(0xf307a78b));
  }

  lemma Rounds128_0()
    ensures FullRound(B(0x00102030, 0x40506070, 0x8090a0b0, 0xc0d0e0f0),
                      B(0xd6aa74fd, 0xd2af72fa, 0xdaa678f1, 0xd6ab76fe))
         == B(0x89d810e8, 0x855ace68, 0x2d1843d8, 0xcb128fe4)
    ensures FullRound(B(0x89d810e8, 0x855ace68, 0x2d1843d8, 0xcb128fe4),
                      B(0xb692cf0b, 0x643dbdf1, 0xbe9bc500, 0x6830b3fe))
         == B(0x4915598f, 0x55e5d7a0, 0xdaca94fa, 0x1f0a63f7)
    ensures FullRound(B(0x4915598f, 0x55e5d7a0, 0xdaca94fa, 0x1f0a63f7),
                      B(0xb6ff744e, 0xd2c2c9bf, 0x6c590cbf, 0x0469bf41))
         == B(0xfa636a28, 0x25b339c9, 0x40668a31, 0x57244d17)
  {
    hide FullRound;
    SameRound(B(0x00102030, 0x40506070, 0x8090a0b0, 0xc0d0e0f0),
              B(0xd6aa74fd, 0xd2af72fa, 0xdaa678f1, 0xd6ab76fe));
    SameRound(B(0x89d810e8, 0x855ace68, 0x2d1843d8, 0xcb128fe4),
              B(0xb692cf0b, 0x643dbdf1, 0xbe9bc500, 0x6830b3fe));
    SameRound(B(0x4915598f, 0x55e5d7a0, 0xdaca94fa, 0x1f0a63f7),
              B(0xb6ff744e, 0xd2c2c9bf, 0x6c590cbf, 0x0469bf41));
  }

  lemma Rounds128_1()
    ensures FullRound(B(0xfa636a28, 0x25b339c9, 0x40668a31, 0x57244d17),
                      B(0x47f7f7bc, 0x95353e03, 0xf96c32bc, 0xfd058dfd))
         == B(0x24724023, 0x6966b3fa, 0x6ed27532, 0x88425b6c)
    ensures FullRound(B(0x24724023, 0x6966b3fa, 0x6ed27532, 0x88425b6c),
                      B(0x3caaa3e8, 0xa99f9deb, 0x50f3af57, 0xadf622aa))
         == B(0xc81677bc, 0x9b7ac93b, 0x25027992, 0xb0261996)
    ensures FullRound(B(0xc81677bc, 0x9b7ac93b, 0x25027992, 0xb0261996),
                      B(0x5e390f7d, 0xf7a69296, 0xa7553dc1, 0x0aa31f6b))
         == B(0xc62fe109, 0xf75eedc3, 0xcc79395d, 0x84f9cf5d)
  {
    hide FullRound;
    SameRound(B(0xfa636a28, 0x25b339c9, 0x40668a31, 0x57244d17),
              B(0x47f7f7bc, 0x95353e03, 0xf96c32bc, 0xfd058dfd));
    SameRound(B(0x24724023, 0x6966b3fa, 0x6ed27532, 0x88425b6c),
              B(0x3caaa3e8, 0xa99f9deb, 0x50f3af57, 0xadf622aa));
    SameRound(B(0xc81677bc, 0x9b7ac93b, 0x25027992, 0xb0261996),
              B(0x5e390f7d, 0xf7a69296, 0xa7553dc1, 0x0aa31f6b));
  }

  lemma Rounds128_2()
    ensures FullRound(B(0xc62fe109, 0xf75eedc3, 0xcc79395d, 0x84f9cf5d),
                      B(0x14f9701a, 0xe35fe28c, 0x440adf4d, 0x4ea9c026))
         == B(0xd1876c0f, 0x79c4300a, 0xb45594ad, 0xd66ff41f)
    ensures FullRound(B(0xd1876c0f, 0x79c4300a, 0xb45594ad, 0xd66ff41f),
                      B(0x47438735, 0xa41c65b9, 0xe016baf4, 0xaebf7ad2))
         == B(0xfde3bad2, 0x05e5d0d7, 0x3547964e, 0xf1fe37f1)
    ensures FullRound(B(0xfde3bad2, 0x05e5d0d7, 0x3547964e, 0xf1fe37f1),
                      B(0x549932d1, 0xf0855768, 0x1093ed9c, 0xbe2c974e))
         == B(0xbd6e7c3d, 0xf2b5779e, 0x0b61216e, 0x8b10b689)
  {
    hide FullRound;
    SameRound(B(0xc62fe109, 0xf75eedc3, 0xcc79395d, 0x84f9cf5d),
              B(0x14f9701a, 0xe35fe28c, 0x440adf4d, 0x4ea9c026));
    SameRound(B(0xd1876c0f, 0x79c4300a, 0xb45594ad, 0xd66ff41f),
              B(0x47438735, 0xa41c65b9, 0xe016baf4, 0xaebf7ad2));
    SameRound(B(0xfde3bad2, 0x05e5d0d7, 0x3547964e, 0xf1fe37f1),
              B(0x549932d1, 0xf0855768, 0x1093ed9c, 0xbe2c974e));
  }

  lemma LastRound128()
    ensures LastRound(B(0xbd6e7c3d, 0xf2b5779e, 0x0b61216e, 0x8b10b689),
                      B(0x13111d7f, 0xe3944a17, 0xf307a78b, 0x4d2b30c5))
         == B(0x69c4e0d8, 0x6a7b0430, 0xd8cdb780, 0x70b4c55a)
  {}

  lemma RoundKeys128(key: seq<bv8>)
    requires IsKey128(key)
    ensures var rk := ExpandKey(key, 4, 44);
         && RoundKeyOf(rk, 0) == B(0x00010203, 0x04050607, 0x08090a0b, 0x0c0d0e0f)
         && RoundKeyOf(rk, 1) == B(0xd6aa74fd, 0xd2af72fa, 0xdaa678f1, 0xd6ab76fe)
         && RoundKeyOf(rk, 2) == B(0xb692cf0b, 0x643dbdf1, 0xbe9bc500, 0x6830b3fe)
         && RoundKeyOf(rk, 3) == B(0xb6ff744e, 0xd2c2c9bf, 0x6c590cbf, 0x0469bf41)
         && RoundKeyOf(rk, 4) == B(0x47f7f7bc, 0x95353e03, 0xf96c32bc, 0xfd058dfd)
         && RoundKeyOf(rk, 5) == B(0x3caaa3e8, 0xa99f9deb, 0x50f3af57, 0xadf622aa)
         && RoundKeyOf(rk, 6) == B(0x5e390f7d, 0xf7a69296, 0xa7553dc1, 0x0aa31f6b)
         && RoundKeyOf(rk, 7) == B(0x14f9701a, 0xe35fe28c, 0x440adf4d, 0x4ea9c026)
         && RoundKeyOf(rk, 8) == B(0x47438735, 0xa41c65b9, 0xe016baf4, 0xaebf7ad2)
         && RoundKeyOf(rk, 9) == B(0x549932d1, 0xf0855768, 0x1093ed9c, 0xbe2c974e)
         && RoundKeyOf(rk, 10) == B(0x13111d7f, 0xe3944a17, 0xf307a78b, 0x4d2b30c5)
  {
    hide ScheduleWord, ExpandKey, StateAt, RoundKeyOf;
    KeyWords128_0(key);
    Words128_1(key);
    Words128_2(key);
    Words128_3(key);
    Words128_4(key);
    Words128_5(key);
    Words128_6(key);
    Words128_7(key);
    Words128_8(key);
    Words128_9(key);
    Words128_10(key);
    KeyOfRound(key, 4, 0);
    KeyOfRound(key, 4, 1);
    KeyOfRound(key, 4, 2);
    KeyOfRound(key, 4, 3);
    KeyOfRound(key, 4, 4);
    KeyOfRound(key, 4, 5);
    KeyOfRound(key, 4, 6);
    KeyOfRound(key, 4, 7);
    KeyOfRound(key, 4, 8);
    KeyOfRound(key, 4, 9);
    KeyOfRound(key, 4, 10);
  }

  lemma Forward128(rk: seq<bv8>)
    requires |rk| == 176
    requires && RoundKeyOf(rk, 0) == B(0x00010203, 0x04050607, 0x08090a0b, 0x0c0d0e0f)
         && RoundKeyOf(rk, 1) == B(0xd6aa74fd, 0xd2af72fa, 0xdaa678f1, 0xd6ab76fe)
         && RoundKeyOf(rk, 2) == B(0xb692cf0b, 0x643dbdf1, 0xbe9bc500, 0x6830b3fe)
         && RoundKeyOf(rk, 3) == B(0xb6ff744e, 0xd2c2c9bf, 0x6c590cbf, 0x0469bf41)
         && RoundKeyOf(rk, 4) == B(0x47f7f7bc, 0x95353e03, 0xf96c32bc, 0xfd058dfd)
         && RoundKeyOf(rk, 5) == B(0x3caaa3e8, 0xa99f9deb, 0x50f3af57, 0xadf622aa)
         && RoundKeyOf(rk, 6) == B(0x5e390f7d, 0xf7a69296, 0xa7553dc1, 0x0aa31f6b)
         && RoundKeyOf(rk, 7) == B(0x14f9701a, 0xe35fe28c, 0x440adf4d, 0x4ea9c026)
         && RoundKeyOf(rk, 8) == B(0x47438735, 0xa41c65b9, 0xe016baf4, 0xaebf7ad2)
         && RoundKeyOf(rk, 9) == B(0x549932d1, 0xf0855768, 0x1093ed9c, 0xbe2c974e)
         && RoundKeyOf(rk, 10) == B(0x13111d7f, 0xe3944a17, 0xf307a78b, 0x4d2b30c5)
    ensures ForwardRounds(rk, B(0x00112233, 0x44556677, 0x8899aabb, 0xccddeeff), 9)
         == B(0xbd6e7c3d, 0xf2b5779e, 0x0b61216e, 0x8b10b689)
  {
    hide FullRound, RoundKeyOf, W;
    var p := B(0x00112233, 0x44556677, 0x8899aabb, 0xccddeeff);
    Rounds128_0();
    Rounds128_1();
    Rounds128_2();
    FirstKey128();
    assert ForwardRounds(rk, p, 0) == B(0x00102030, 0x40506070, 0x8090a0b0, 0xc0d0e0f0);
    assert ForwardRounds(rk, p, 1) == B(0x89d810e8, 0x855ace68, 0x2d1843d8, 0xcb128fe4);
    assert ForwardRounds(rk, p, 2) == B(0x4915598f, 0x55e5d7a0, 0xdaca94fa, 0x1f0a63f7);
    assert ForwardRounds(rk, p, 3) == B(0xfa636a28, 0x25b339c9, 0x40668a31, 0x57244d17);
    assert ForwardRounds(rk, p, 4) == B(0x24724023, 0x6966b3fa, 0x6ed27532, 0x88425b6c);
    assert ForwardRounds(rk, p, 5) == B(0xc81677bc, 0x9b7ac93b, 0x25027992, 0xb0261996);
    assert ForwardRounds(rk, p, 6) == B(0xc62fe109, 0xf75eedc3, 0xcc79395d, 0x84f9cf5d);
    assert ForwardRounds(rk, p, 7) == B(0xd1876c0f, 0x79c4300a, 0xb45594ad, 0xd66ff41f);
    assert ForwardRounds(rk, p, 8) == B(0xfde3bad2, 0x05e5d0d7, 0x3547964e, 0xf1fe37f1);
  }

  lemma FirstKey128()
    ensures XorState(B(0x00112233, 0x44556677, 0x8899aabb, 0xccddeeff),
                     B(0x00010203, 0x04050607, 0x08090a0b, 0x0c0d0e0f))
         == B(0x00102030, 0x40506070, 0x8090a0b0, 0xc0d0e0f0)
  {}

  /** Appendix C.1. */
  lemma KnownAnswer128(key: seq<bv8>, p: seq<bv8>, c: seq<bv8>)
    requires key == [0x00, 0x01, 0x02, 0x03, 0x04, 0x05, 0x06, 0x07, 0x08, 0x09, 0x0a, 0x0b, 0x0c, 0x0d, 0x0e, 0x0f]
    requires p == [0x00, 0x11, 0x22, 0x33, 0x44, 0x55, 0x66, 0x77, 0x88, 0x99, 0xaa, 0xbb, 0xcc, 0xdd, 0xee, 0xff]
    requires c == [0x69, 0xc4, 0xe0, 0xd8, 0x6a, 0x7b, 0x04, 0x30, 0xd8, 0xcd, 0xb7, 0x80, 0x70, 0xb4, 0xc5, 0x5a]
    ensures var rk := ExpandKey(key, 4, 44);
            BlockBytes(Cipher(rk, 10, StateAt(p, 0))) == c && BlockBytes(InvCipher(rk, 10, StateAt(c, 0))) == p
  {
    hide ExpandKey, ForwardRounds, RoundKeyOf, InvCipher, LastRound;
    var rk := ExpandKey(key, 4, 44);
    RoundKeys128(key);
    Forward128(rk);
    LastRound128();
    assert StateAt(p, 0) == B(0x00112233, 0x44556677, 0x8899aabb, 0xccddeeff);
    assert StateAt(c, 0) == B(0x69c4e0d8, 0x6a7b0430, 0xd8cdb780, 0x70b4c55a);
    InvCipherUndoesCipher(rk, 10, StateAt(p, 0));
    BytesOfState(p, 0);
    BytesOfState(c, 0);
  }

  // ----- Keys of 192 bits -----

  predicate IsKey192(key: seq<bv8>) {
    key == [0x00, 0x01, 0x02, 0x03, 0x04, 0x05, 0x06, 0x07, 0x08, 0x09, 0x0a, 0x0b, 0x0c, 0x0d, 0x0e, 0x0f,
            0x10, 0x11, 0x12, 0x13, 0x14, 0x15, 0x16, 0x17]
  }

  lemma KeyWords192_0(key: seq<bv8>)
    requires IsKey192(key)
    ensures
         && ScheduleWord(key, 6, 0) == W(0x00010203) && ScheduleWord(key, 6, 1) == W(0x04050607)
         && ScheduleWord(key, 6, 2) == W(0x08090a0b)
  {
    hide ScheduleWord;
    FirstWord(key, 6, 0);
    FirstWord(key, 6, 1);
    FirstWord(key, 6, 2);
  }

  lemma KeyWords192_1(key: seq<bv8>)
    requires IsKey192(key)
    ensures
         && ScheduleWord(key, 6, 3) == W(0x0c0d0e0f) && ScheduleWord(key, 6, 4) == W(0x10111213)
         && ScheduleWord(key, 6, 5) == W(0x14151617)
  {
    hide ScheduleWord;
    FirstWord(key, 6, 3);
    FirstWord(key, 6, 4);
    FirstWord(key, 6, 5);
  }

  lemma Words192_1(key: seq<bv8>)
    requires IsKey192(key)
    ensures
         && ScheduleWord(key, 6, 6) == W(0x5846f2f9) && ScheduleWord(key, 6, 7) == W(0x5c43f4fe)
         && ScheduleWord(key, 6, 8) == W(0x544afef5) && ScheduleWord(key, 6, 9) == W(0x5847f0fa)
         && ScheduleWord(key, 6, 10) == W(0x4856e2e9) && ScheduleWord(key, 6, 11) == W(0x5c43f4fe)
  {
    hide ScheduleWord;
    KeyWords192_0(key);
    KeyWords192_1(key);
    OneWord(key, 6, 6, W(0x00010203), W(0x14151617));
    OneWord(key, 6, 7, W(0x04050607), W(0x5846f2f9));
    OneWord(key, 6, 8, W(0x08090a0b), W(0x5c43f4fe));
    OneWord(key, 6, 9, W(0x0c0d0e0f), W(0x544afef5));
    OneWord(key, 6, 10, W(0x10111213), W(0x5847f0fa));
    OneWord(key, 6, 11, W(0x14151617), W(0x4856e2e9));
  }

  lemma Words192_2(key: seq<bv8>)
    requires IsKey192(key)
    ensures
         && ScheduleWord(key, 6, 12) == W(0x40f949b3) && ScheduleWord(key, 6, 13) == W(0x1cbabd4d)
         && ScheduleWord(key, 6, 14) == W(0x48f043b8) && ScheduleWord(key, 6, 15) == W(0x10b7b342)
         && ScheduleWord(key, 6, 16) == W(0x58e151ab) && ScheduleWord(key, 6, 17) == W(0x04a2a555)
  {
    hide ScheduleWord;
    Words192_1(key);
    OneWord(key, 6, 12, W(0x5846f2f9), W(0x5c43f4fe));
    OneWord(key, 6, 13, W(0x5c43f4fe), W(0x40f949b3));
    OneWord(key, 6, 14, W(0x544afef5), W(0x1cbabd4d));
    OneWord(key, 6, 15, W(0x5847f0fa), W(0x48f043b8));
    OneWord(key, 6, 16, W(0x4856e2e9), W(0x10b7b342));
    OneWord(key, 6, 17, W(0x5c43f4fe), W(0x58e151ab));
  }

  lemma Words192_3(key: seq<bv8>)
    requires IsKey192(key)
    ensures
         && ScheduleWord(key, 6, 18) == W(0x7effb541) && ScheduleWord(key, 6, 19) == W(0x6245080c)
         && ScheduleWord(key, 6, 20) == W(0x2ab54bb4) && ScheduleWord(key, 6, 21) == W(0x3a02f8f6)
         && ScheduleWord(key, 6, 22) == W(0x62e3a95d) && ScheduleWord(key, 6, 23) == W(0x66410c08)
  {
    hide ScheduleWord;
    Words192_2(key);
    OneWord(key, 6, 18, W(0x40f949b3), W(0x04a2a555));
    OneWord(key, 6, 19, W(0x1cbabd4d), W(0x7effb541));
    OneWord(key, 6, 20, W(0x48f043b8), W(0x6245080c));
    OneWord(key, 6, 21, W(0x10b7b342), W(0x2ab54bb4));
    OneWord(key, 6, 22, W(0x58e151ab), W(0x3a02f8f6));
    OneWord(key, 6, 23, W(0x04a2a555), W(0x62e3a95d));
  }

  lemma Words192_4(key: seq<bv8>)
    requires IsKey192(key)
    ensures
         && ScheduleWord(key, 6, 24) == W(0xf5018572) && ScheduleWord(key, 6, 25) == W(0x97448d7e)
         && ScheduleWord(key, 6, 26) == W(0xbdf1c6ca) && ScheduleWord(key, 6, 27) == W(0x87f33e3c)
         && ScheduleWord(key, 6, 28) == W(0xe5109761) && ScheduleWord(key, 6, 29) == W(0x83519b69)
  {
    hide ScheduleWord;
    Words192_3(key);
    OneWord(key, 6, 24, W(0x7effb541), W(0x66410c08));
    OneWord(key, 6, 25, W(0x6245080c), W(0xf5018572));
    OneWord(key, 6, 26, W(0x2ab54bb4), W(0x97448d7e));
    OneWord(key, 6, 27, W(0x3a02f8f6), W(0xbdf1c6ca));
    OneWord(key, 6, 28, W(0x62e3a95d), W(0x87f33e3c));
    OneWord(key, 6, 29, W(0x66410c08), W(0xe5109761));
  }

  lemma Words192_5(key: seq<bv8>)
    requires IsKey192(key)
    ensures
         && ScheduleWord(key, 6, 30) == W(0x34157c9e) && ScheduleWord(key, 6, 31) == W(0xa351f1e0)
         && ScheduleWord(key, 6, 32) == W(0x1ea0372a) && ScheduleWord(key, 6, 33) == W(0x99530916)
         && ScheduleWord(key, 6, 34) == W(0x7c439e77) && ScheduleWord(key, 6, 35) == W(0xff12051e)
  {
    hide ScheduleWord;
    Words192_4(key);
    OneWord(key, 6, 30, W(0xf5018572), W(0x83519b69));
    OneWord(key, 6, 31, W(0x97448d7e), W(0x34157c9e));
    OneWord(key, 6, 32, W(0xbdf1c6ca), W(0xa351f1e0));
    OneWord(key, 6, 33, W(0x87f33e3c), W(0x1ea0372a));
    OneWord(key, 6, 34, W(0xe5109761), W(0x99530916));
    OneWord(key, 6, 35, W(0x83519b69), W(0x7c439e77));
  }

  lemma Words192_6(key: seq<bv8>)
    requires IsKey192(key)
    ensures
         && ScheduleWord(key, 6, 36) == W(0xdd7e0e88) && ScheduleWord(key, 6, 37) == W(0x7e2fff68)
         && ScheduleWord(key, 6, 38) == W(0x608fc842) && ScheduleWord(key, 6, 39) == W(0xf9dcc154)
         && ScheduleWord(key, 6, 40) == W(0x859f5f23) && ScheduleWord(key, 6, 41) == W(0x7a8d5a3d)
  {
    hide ScheduleWord;
    Words192_5(key);
    OneWord(key, 6, 36, W(0x34157c9e), W(0xff12051e));
    OneWord(key, 6, 37, W(0xa351f1e0), W(0xdd7e0e88));
    OneWord(key, 6, 38, W(0x1ea0372a), W(0x7e2fff68));
    OneWord(key, 6, 39, W(0x99530916), W(0x608fc842));
    OneWord(key, 6, 40, W(0x7c439e77), W(0xf9dcc154));
    OneWord(key, 6, 41, W(0xff12051e), W(0x859f5f23));
  }

  lemma Words192_7(key: seq<bv8>)
    requires IsKey192(key)
    ensures
         && ScheduleWord(key, 6, 42) == W(0xc0c02952) && ScheduleWord(key, 6, 43) == W(0xbeefd63a)
         && ScheduleWord(key, 6, 44) == W(0xde601e78) && ScheduleWord(key, 6, 45) == W(0x27bcdf2c)
         && ScheduleWord(key, 6, 46) == W(0xa223800f) && ScheduleWord(key, 6, 47) == W(0xd8aeda32)
  {
    hide ScheduleWord;
    Words192_6(key);
    OneWord(key, 6, 42, W(0xdd7e0e88), W(0x7a8d5a3d));
    OneWord(key, 6, 43, W(0x7e2fff68), W(0xc0c02952));
    OneWord(key, 6, 44, W(0x608fc842), W(0xbeefd63a));
    OneWord(key, 6, 45, W(0xf9dcc154), W(0xde601e78));
    OneWord(key, 6, 46, W(0x859f5f23), W(0x27bcdf2c));
    OneWord(key, 6, 47, W(0x7a8d5a3d), W(0xa223800f));
  }

  lemma Words192_8(key: seq<bv8>)
    requires IsKey192(key)
    ensures
         && ScheduleWord(key, 6, 48) == W(0xa4970a33) && ScheduleWord(key, 6, 49) == W(0x1a78dc09)
         && ScheduleWord(key, 6, 50) == W(0xc418c271) && ScheduleWord(key, 6, 51) == W(0xe3a41d5d)
  {
    hide ScheduleWord;
    Words192_7(key);
    OneWord(key, 6, 48, W(0xc0c02952), W(0xd8aeda32));
    OneWord(key, 6, 49, W(0xbeefd63a), W(0xa4970a33));
    OneWord(key, 6, 50, W(0xde601e78), W(0x1a78dc09));
    OneWord(key, 6, 51, W(0x27bcdf2c), W(0xc418c271));
  }

  lemma Rounds192_0()
    ensures FullRound(B(0x00102030, 0x40506070, 0x8090a0b0, 0xc0d0e0f0),
                      B(0x10111213, 0x14151617, 0x5846f2f9, 0x5c43f4fe))
         == B(0x4f637606, 0x43e0aa85, 0xaff8c9d0, 0x41fa0de4)
    ensures FullRound(B(0x4f637606, 0x43e0aa85, 0xaff8c9d0, 0x41fa0de4),
                      B(0x544afef5, 0x5847f0fa, 0x4856e2e9, 0x5c43f4fe))
         == B(0xcb02818c, 0x17d2af9c, 0x62aa6442, 0x8bb25fd7)
    ensures FullRound(B(0xcb02818c, 0x17d2af9c, 0x62aa6442, 0x8bb25fd7),
                      B(0x40f949b3, 0x1cbabd4d, 0x48f043b8, 0x10b7b342))
         == B(0xf75c7778, 0xa327c8ed, 0x8cfebfc1, 0xa6c37f53)
  {
    hide FullRound;
    SameRound(B(0x00102030, 0x40506070, 0x8090a0b0, 0xc0d0e0f0),
              B(0x10111213, 0x14151617, 0x5846f2f9, 0x5c43f4fe));
    SameRound(B(0x4f637606, 0x43e0aa85, 0xaff8c9d0, 0x41fa0de4),
              B(0x544afef5, 0x5847f0fa, 0x4856e2e9, 0x5c43f4fe));
    SameRound(B(0xcb02818c, 0x17d2af9c, 0x62aa6442, 0x8bb25fd7),
              B(0x40f949b3, 0x1cbabd4d, 0x48f043b8, 0x10b7b342));
  }

  lemma Rounds192_1()
    ensures FullRound(B(0xf75c7778, 0xa327c8ed, 0x8cfebfc1, 0xa6c37f53),
                      B(0x58e151ab, 0x04a2a555, 0x7effb541, 0x6245080c))
         == B(0x22ffc916, 0xa8147441, 0x6496f19c, 0x64ae2532)
    ensures FullRound(B(0x22ffc916, 0xa8147441, 0x6496f19c, 0x64ae2532),
                      B(0x2ab54bb4, 0x3a02f8f6, 0x62e3a95d, 0x66410c08))
         == B(0x80121e07, 0x76fd1d8a, 0x8d8c31bc, 0x965d1fee)
    ensures FullRound(B(0x80121e07, 0x76fd1d8a, 0x8d8c31bc, 0x965d1fee),
                      B(0xf5018572, 0x97448d7e, 0xbdf1c6ca, 0x87f33e3c))
         == B(0x671ef1fd, 0x4e2a1e03, 0xdfdcb1ef, 0x3d789b30)
  {
    hide FullRound;
    SameRound(B(0xf75c7778, 0xa327c8ed, 0x8cfebfc1, 0xa6c37f53),
              B(0x58e151ab, 0x04a2a555, 0x7effb541, 0x6245080c));
    SameRound(B(0x22ffc916, 0xa8147441, 0x6496f19c, 0x64ae2532),
              B(0x2ab54bb4, 0x3a02f8f6, 0x62e3a95d, 0x66410c08));
    SameRound(B(0x80121e07, 0x76fd1d8a, 0x8d8c31bc, 0x965d1fee),
              B(0xf5018572, 0x97448d7e, 0xbdf1c6ca, 0x87f33e3c));
  }

  lemma Rounds192_2()
    ensures FullRound(B(0x671ef1fd, 0x4e2a1e03, 0xdfdcb1ef, 0x3d789b30),
                      B(0xe5109761, 0x83519b69, 0x34157c9e, 0xa351f1e0))
         == B(0x0c0370d0, 0x0c01e622, 0x166b8acc, 0xd6db3a2c)
    ensures FullRound(B(0x0c0370d0, 0x0c01e622, 0x166b8acc, 0xd6db3a2c),
                      B(0x1ea0372a, 0x99530916, 0x7c439e77, 0xff12051e))
         == B(0x7255dad3, 0x0fb80310, 0xe00d6c6b, 0x40d0527c)
    ensures FullRound(B(0x7255dad3, 0x0fb80310, 0xe00d6c6b, 0x40d0527c),
                      B(0xdd7e0e88, 0x7e2fff68, 0x608fc842, 0xf9dcc154))
         == B(0xa906b254, 0x968af4e9, 0xb4bdb2d2, 0xf0c44336)
  {
    hide FullRound;
    SameRound(B(0x671ef1fd, 0x4e2a1e03, 0xdfdcb1ef, 0x3d789b30),
              B(0xe5109761, 0x83519b69, 0x34157c9e, 0xa351f1e0));
    SameRound(B(0x0c0370d0, 0x0c01e622, 0x166b8acc, 0xd6db3a2c),
              B(0x1ea0372a, 0x99530916, 0x7c439e77, 0xff12051e));
    SameRound(B(0x7255dad3, 0x0fb80310, 0xe00d6c6b, 0x40d0527c),
              B(0xdd7e0e88, 0x7e2fff68, 0x608fc842, 0xf9dcc154));
  }

  lemma Rounds192_3()
    ensures FullRound(B(0xa906b254, 0x968af4e9, 0xb4bdb2d2, 0xf0c44336),
                      B(0x859f5f23, 0x7a8d5a3d, 0xc0c02952, 0xbeefd63a))
         == B(0x88ec930e, 0xf5e7e4b6, 0xcc32f4c9, 0x06d29414)
    ensures FullRound(B(0x88ec930e, 0xf5e7e4b6, 0xcc32f4c9, 0x06d29414),
                      B(0xde601e78, 0x27bcdf2c, 0xa223800f, 0xd8aeda32))
         == B(0xafb73eeb, 0x1cd1b851, 0x62280f27, 0xfb20d585)
  {
    hide FullRound;
    SameRound(B(0xa906b254, 0x968af4e9, 0xb4bdb2d2, 0xf0c44336),
              B(0x859f5f23, 0x7a8d5a3d, 0xc0c02952, 0xbeefd63a));
    SameRound(B(0x88ec930e, 0xf5e7e4b6, 0xcc32f4c9, 0x06d29414),
              B(0xde601e78, 0x27bcdf2c, 0xa223800f, 0xd8aeda32));
  }

  lemma LastRound192()
    ensures LastRound(B(0xafb73eeb, 0x1cd1b851, 0x62280f27, 0xfb20d585),
                      B(0xa4970a33, 0x1a78dc09, 0xc418c271, 0xe3a41d5d))
         == B(0xdda97ca4, 0x864cdfe0, 0x6eaf70a0, 0xec0d7191)
  {}

  lemma RoundKeys192(key: seq<bv8>)
    requires IsKey192(key)
    ensures var rk := ExpandKey(key, 6, 52);
         && RoundKeyOf(rk, 0) == B(0x00010203, 0x04050607, 0x08090a0b, 0x0c0d0e0f)
         && RoundKeyOf(rk, 1) == B(0x10111213, 0x14151617, 0x5846f2f9, 0x5c43f4fe)
         && RoundKeyOf(rk, 2) == B(0x544afef5, 0x5847f0fa, 0x4856e2e9, 0x5c43f4fe)
         && RoundKeyOf(rk, 3) == B(0x40f949b3, 0x1cbabd4d, 0x48f043b8, 0x10b7b342)
         && RoundKeyOf(rk, 4) == B(0x58e151ab, 0x04a2a555, 0x7effb541, 0x6245080c)
         && RoundKeyOf(rk, 5) == B(0x2ab54bb4, 0x3a02f8f6, 0x62e3a95d, 0x66410c08)
         && RoundKeyOf(rk, 6) == B(0xf5018572, 0x97448d7e, 0xbdf1c6ca, 0x87f33e3c)
         && RoundKeyOf(rk, 7) == B(0xe5109761, 0x83519b69, 0x34157c9e, 0xa351f1e0)
         && RoundKeyOf(rk, 8) == B(0x1ea0372a, 0x99530916, 0x7c439e77, 0xff12051e)
         && RoundKeyOf(rk, 9) == B(0xdd7e0e88, 0x7e2fff68, 0x608fc842, 0xf9dcc154)
         && RoundKeyOf(rk, 10) == B(0x859f5f23, 0x7a8d5a3d, 0xc0c02952, 0xbeefd63a)
         && RoundKeyOf(rk, 11) == B(0xde601e78, 0x27bcdf2c, 0xa223800f, 0xd8aeda32)
         && RoundKeyOf(rk, 12) == B(0xa4970a33, 0x1a78dc09, 0xc418c271, 0xe3a41d5d)
  {
    hide ScheduleWord, ExpandKey, StateAt, RoundKeyOf;
    KeyWords192_0(key);
    KeyWords192_1(key);
    Words192_1(key);
    Words192_2(key);
    Words192_3(key);
    Words192_4(key);
    Words192_5(key);
    Words192_6(key);
    Words192_7(key);
    Words192_8(key);
    KeyOfRound(key, 6, 0);
    KeyOfRound(key, 6, 1);
    KeyOfRound(key, 6, 2);
    KeyOfRound(key, 6, 3);
    KeyOfRound(key, 6, 4);
    KeyOfRound(key, 6, 5);
    KeyOfRound(key, 6, 6);
    KeyOfRound(key, 6, 7);
    KeyOfRound(key, 6, 8);
    KeyOfRound(key, 6, 9);
    KeyOfRound(key, 6, 10);
    KeyOfRound(key, 6, 11);
    KeyOfRound(key, 6, 12);
  }

  lemma Forward192(rk: seq<bv8>)
    requires |rk| == 208
    requires && RoundKeyOf(rk, 0) == B(0x00010203, 0x04050607, 0x08090a0b, 0x0c0d0e0f)
         && RoundKeyOf(rk, 1) == B(0x10111213, 0x14151617, 0x5846f2f9, 0x5c43f4fe)
         && RoundKeyOf(rk, 2) == B(0x544afef5, 0x5847f0fa, 0x4856e2e9, 0x5c43f4fe)
         && RoundKeyOf(rk, 3) == B(0x40f949b3, 0x1cbabd4d, 0x48f043b8, 0x10b7b342)
         && RoundKeyOf(rk, 4) == B(0x58e151ab, 0x04a2a555, 0x7effb541, 0x6245080c)
         && RoundKeyOf(rk, 5) == B(0x2ab54bb4, 0x3a02f8f6, 0x62e3a95d, 0x66410c08)
         && RoundKeyOf(rk, 6) == B(0xf5018572, 0x97448d7e, 0xbdf1c6ca, 0x87f33e3c)
         && RoundKeyOf(rk, 7) == B(0xe5109761, 0x83519b69, 0x34157c9e, 0xa351f1e0)
         && RoundKeyOf(rk, 8) == B(0x1ea0372a, 0x99530916, 0x7c439e77, 0xff12051e)
         && RoundKeyOf(rk, 9) == B(0xdd7e0e88, 0x7e2fff68, 0x608fc842, 0xf9dcc154)
         && RoundKeyOf(rk, 10) == B(0x859f5f23, 0x7a8d5a3d, 0xc0c02952, 0xbeefd63a)
         && RoundKeyOf(rk, 11) == B(0xde601e78, 0x27bcdf2c, 0xa223800f, 0xd8aeda32)
         && RoundKeyOf(rk, 12) == B(0xa4970a33, 0x1a78dc09, 0xc418c271, 0xe3a41d5d)
    ensures ForwardRounds(rk, B(0x00112233, 0x44556677, 0x8899aabb, 0xccddeeff), 11)
         == B(0xafb73eeb, 0x1cd1b851, 0x62280f27, 0xfb20d585)
  {
    hide FullRound, RoundKeyOf, W;
    var p := B(0x00112233, 0x44556677, 0x8899aabb, 0xccddeeff);
    Rounds192_0();
    Rounds192_1();
    Rounds192_2();
    Rounds192_3();
    FirstKey192();
    assert ForwardRounds(rk, p, 0) == B(0x00102030, 0x40506070, 0x8090a0b0, 0xc0d0e0f0);
    assert ForwardRounds(rk, p, 1) == B(0x4f637606, 0x43e0aa85, 0xaff8c9d0, 0x41fa0de4);
    assert ForwardRounds(rk, p, 2) == B(0xcb02818c, 0x17d2af9c, 0x62aa6442, 0x8bb25fd7);
    assert ForwardRounds(rk, p, 3) == B(0xf75c7778, 0xa327c8ed, 0x8cfebfc1, 0xa6c37f53);
    assert ForwardRounds(rk, p, 4) == B(0x22ffc916, 0xa8147441, 0x6496f19c, 0x64ae2532);
    assert ForwardRounds(rk, p, 5) == B(0x80121e07, 0x76fd1d8a, 0x8d8c31bc, 0x965d1fee);
    assert ForwardRounds(rk, p, 6) == B(0x671ef1fd, 0x4e2a1e03, 0xdfdcb1ef, 0x3d789b30);
    assert ForwardRounds(rk, p, 7) == B(0x0c0370d0, 0x0c01e622, 0x166b8acc, 0xd6db3a2c);
    assert ForwardRounds(rk, p, 8) == B(0x7255dad3, 0x0fb80310, 0xe00d6c6b, 0x40d0527c);
    assert ForwardRounds(rk, p, 9) == B(0xa906b254, 0x968af4e9, 0xb4bdb2d2, 0xf0c44336);
    assert ForwardRounds(rk, p, 10) == B(0x88ec930e, 0xf5e7e4b6, 0xcc32f4c9, 0x06d29414);
  }

  lemma FirstKey192()
    ensures XorState(B(0x00112233, 0x44556677, 0x8899aabb, 0xccddeeff),
                     B(0x00010203, 0x04050607, 0x08090a0b, 0x0c0d0e0f))
         == B(0x00102030, 0x40506070, 0x8090a0b0, 0xc0d0e0f0)
  {}

  /** Appendix C.2. */
  lemma KnownAnswer192(key: seq<bv8>, p: seq<bv8>, c: seq<bv8>)
    requires key == [0x00, 0x01, 0x02, 0x03, 0x04, 0x05, 0x06, 0x07, 0x08, 0x09, 0x0a, 0x0b, 0x0c, 0x0d, 0x0e, 0x0f,
                     0x10, 0x11, 0x12, 0x13, 0x14, 0x15, 0x16, 0x17]
    requires p == [0x00, 0x11, 0x22, 0x33, 0x44, 0x55, 0x66, 0x77, 0x88, 0x99, 0xaa, 0xbb, 0xcc, 0xdd, 0xee, 0xff]
    requires c == [0xdd, 0xa9, 0x7c, 0xa4, 0x86, 0x4c, 0xdf, 0xe0, 0x6e, 0xaf, 0x70, 0xa0, 0xec, 0x0d, 0x71, 0x91]
    ensures var rk := ExpandKey(key, 6, 52);
            BlockBytes(Cipher(rk, 12, StateAt(p, 0))) == c && BlockBytes(InvCipher(rk, 12, StateAt(c, 0))) == p
  {
    hide ExpandKey, ForwardRounds, RoundKeyOf, InvCipher, LastRound;
    var rk := ExpandKey(key, 6, 52);
    RoundKeys192(key);
    Forward192(rk);
    LastRound192();
    assert StateAt(p, 0) == B(0x00112233, 0x44556677, 0x8899aabb, 0xccddeeff);
    assert StateAt(c, 0) == B(0xdda97ca4, 0x864cdfe0, 0x6eaf70a0, 0xec0d7191);
    InvCipherUndoesCipher(rk, 12, StateAt(p, 0));
    BytesOfState(p, 0);
    BytesOfState(c, 0);
  }

  // ----- Keys of 256 bits -----

  predicate IsKey256(key: seq<bv8>) {
    key == [0x00, 0x01, 0x02, 0x03, 0x04, 0x05, 0x06, 0x07, 0x08, 0x09, 0x0a, 0x0b, 0x0c, 0x0d, 0x0e, 0x0f,
            0x10, 0x11, 0x12, 0x13, 0x14, 0x15, 0x16, 0x17, 0x18, 0x19, 0x1a, 0x1b, 0x1c, 0x1d, 0x1e, 0x1f]
  }

  lemma KeyWords256_0(key: seq<bv8>)
    requires IsKey256(key)
    ensures
         && ScheduleWord(key, 8, 0) == W(0x00010203) && ScheduleWord(key, 8, 1) == W(0x04050607)
         && ScheduleWord(key, 8, 2) == W(0x08090a0b)
  {
    hide ScheduleWord;
    FirstWord(key, 8, 0);
    FirstWord(key, 8, 1);
    FirstWord(key, 8, 2);
  }

  lemma KeyWords256_1(key: seq<bv8>)
    requires IsKey256(key)
    ensures
         && ScheduleWord(key, 8, 3) == W(0x0c0d0e0f) && ScheduleWord(key, 8, 4) == W(0x10111213)
         && ScheduleWord(key, 8, 5) == W(0x14151617)
  {
    hide ScheduleWord;
    FirstWord(key, 8, 3);
    FirstWord(key, 8, 4);
    FirstWord(key, 8, 5);
  }

  lemma KeyWords256_2(key: seq<bv8>)
    requires IsKey256(key)
    ensures
         && ScheduleWord(key, 8, 6) == W(0x18191a1b) && ScheduleWord(key, 8, 7) == W(0x1c1d1e1f)
  {
    hide ScheduleWord;
    FirstWord(key, 8, 6);
    FirstWord(key, 8, 7);
  }

  lemma Words256_1(key: seq<bv8>)
    requires IsKey256(key)
    ensures
         && ScheduleWord(key, 8, 8) == W(0xa573c29f) && ScheduleWord(key, 8, 9) == W(0xa176c498)
         && ScheduleWord(key, 8, 10) == W(0xa97fce93) && ScheduleWord(key, 8, 11) == W(0xa572c09c)
         && ScheduleWord(key, 8, 12) == W(0x1651a8cd) && ScheduleWord(key, 8, 13) == W(0x0244beda)
         && ScheduleWord(key, 8, 14) == W(0x1a5da4c1) && ScheduleWord(key, 8, 15) == W(0x0640bade)
  {
    hide ScheduleWord;
    KeyWords256_0(key);
    KeyWords256_1(key);
    KeyWords256_2(key);
    OneWord(key, 8, 8, W(0x00010203), W(0x1c1d1e1f));
    OneWord(key, 8, 9, W(0x04050607), W(0xa573c29f));
    OneWord(key, 8, 10, W(0x08090a0b), W(0xa176c498));
    OneWord(key, 8, 11, W(0x0c0d0e0f), W(0xa97fce93));
    OneWord(key, 8, 12, W(0x10111213), W(0xa572c09c));
    OneWord(key, 8, 13, W(0x14151617), W(0x1651a8cd));
    OneWord(key, 8, 14, W(0x18191a1b), W(0x0244beda));
    OneWord(key, 8, 15, W(0x1c1d1e1f), W(0x1a5da4c1));
  }

  lemma Words256_2(key: seq<bv8>)
    requires IsKey256(key)
    ensures
         && ScheduleWord(key, 8, 16) == W(0xae87dff0) && ScheduleWord(key, 8, 17) == W(0x0ff11b68)
         && ScheduleWord(key, 8, 18) == W(0xa68ed5fb) && ScheduleWord(key, 8, 19) == W(0x03fc1567)
         && ScheduleWord(key, 8, 20) == W(0x6de1f148) && ScheduleWord(key, 8, 21) == W(0x6fa54f92)
         && ScheduleWord(key, 8, 22) == W(0x75f8eb53) && ScheduleWord(key, 8, 23) == W(0x73b8518d)
  {
    hide ScheduleWord;
    Words256_1(key);
    OneWord(key, 8, 16, W(0xa573c29f), W(0x0640bade));
    OneWord(key, 8, 17, W(0xa176c498), W(0xae87dff0));
    OneWord(key, 8, 18, W(0xa97fce93), W(0x0ff11b68));
    OneWord(key, 8, 19, W(0xa572c09c), W(0xa68ed5fb));
    OneWord(key, 8, 20, W(0x1651a8cd), W(0x03fc1567));
    OneWord(key, 8, 21, W(0x0244beda), W(0x6de1f148));
    OneWord(key, 8, 22, W(0x1a5da4c1), W(0x6fa54f92));
    OneWord(key, 8, 23, W(0x0640bade), W(0x75f8eb53));
  }

  lemma Words256_3(key: seq<bv8>)
    requires IsKey256(key)
    ensures
         && ScheduleWord(key, 8, 24) == W(0xc656827f) && ScheduleWord(key, 8, 25) == W(0xc9a79917)
         && ScheduleWord(key, 8, 26) == W(0x6f294cec) && ScheduleWord(key, 8, 27) == W(0x6cd5598b)
         && ScheduleWord(key, 8, 28) == W(0x3de23a75) && ScheduleWord(key, 8, 29) == W(0x524775e7)
         && ScheduleWord(key, 8, 30) == W(0x27bf9eb4) && ScheduleWord(key, 8, 31) == W(0x5407cf39)
  {
    hide ScheduleWord;
    Words256_2(key);
    OneWord(key, 8, 24, W(0xae87dff0), W(0x73b8518d));
    OneWord(key, 8, 25, W(0x0ff11b68), W(0xc656827f));
    OneWord(key, 8, 26, W(0xa68ed5fb), W(0xc9a79917));
    OneWord(key, 8, 27, W(0x03fc1567), W(0x6f294cec));
    OneWord(key, 8, 28, W(0x6de1f148), W(0x6cd5598b));
    OneWord(key, 8, 29, W(0x6fa54f92), W(0x3de23a75));
    OneWord(key, 8, 30, W(0x75f8eb53), W(0x524775e7));
    OneWord(key, 8, 31, W(0x73b8518d), W(0x27bf9eb4));
  }

  lemma Words256_4(key: seq<bv8>)
    requires IsKey256(key)
    ensures
         && ScheduleWord(key, 8, 32) == W(0x0bdc905f) && ScheduleWord(key, 8, 33) == W(0xc27b0948)
         && ScheduleWord(key, 8, 34) == W(0xad5245a4) && ScheduleWord(key, 8, 35) == W(0xc1871c2f)
         && ScheduleWord(key, 8, 36) == W(0x45f5a660) && ScheduleWord(key, 8, 37) == W(0x17b2d387)
         && ScheduleWord(key, 8, 38) == W(0x300d4d33) && ScheduleWord(key, 8, 39) == W(0x640a820a)
  {
    hide ScheduleWord;
    Words256_3(key);
    OneWord(key, 8, 32, W(0xc656827f), W(0x5407cf39));
    OneWord(key, 8, 33, W(0xc9a79917), W(0x0bdc905f));
    OneWord(key, 8, 34, W(0x6f294cec), W(0xc27b0948));
    OneWord(key, 8, 35, W(0x6cd5598b), W(0xad5245a4));
    OneWord(key, 8, 36, W(0x3de23a75), W(0xc1871c2f));
    OneWord(key, 8, 37, W(0x524775e7), W(0x45f5a660));
    OneWord(key, 8, 38, W(0x27bf9eb4), W(0x17b2d387));
    OneWord(key, 8, 39, W(0x5407cf39), W(0x300d4d33));
  }

  lemma Words256_5(key: seq<bv8>)
    requires IsKey256(key)
    ensures
         && ScheduleWord(key, 8, 40) == W(0x7ccff71c) && ScheduleWord(key, 8, 41) == W(0xbeb4fe54)
         && ScheduleWord(key, 8, 42) == W(0x13e6bbf0) && ScheduleWord(key, 8, 43) == W(0xd261a7df)
         && ScheduleWord(key, 8, 44) == W(0xf01afafe) && ScheduleWord(key, 8, 45) == W(0xe7a82979)
         && ScheduleWord(key, 8, 46) == W(0xd7a5644a) && ScheduleWord(key, 8, 47) == W(0xb3afe640)
  {
    hide ScheduleWord;
    Words256_4(key);
    OneWord(key, 8, 40, W(0x0bdc905f), W(0x640a820a));
    OneWord(key, 8, 41, W(0xc27b0948), W(0x7ccff71c));
    OneWord(key, 8, 42, W(0xad5245a4), W(0xbeb4fe54));
    OneWord(key, 8, 43, W(0xc1871c2f), W(0x13e6bbf0));
    OneWord(key, 8, 44, W(0x45f5a660), W(0xd261a7df));
    OneWord(key, 8, 45, W(0x17b2d387), W(0xf01afafe));
    OneWord(key, 8, 46, W(0x300d4d33), W(0xe7a82979));
    OneWord(key, 8, 47, W(0x640a820a), W(0xd7a5644a));
  }

  lemma Words256_6(key: seq<bv8>)
    requires IsKey256(key)
    ensures
         && ScheduleWord(key, 8, 48) == W(0x2541fe71) && ScheduleWord(key, 8, 49) == W(0x9bf50025)
         && ScheduleWord(key, 8, 50) == W(0x8813bbd5) && ScheduleWord(key, 8, 51) == W(0x5a721c0a)
         && ScheduleWord(key, 8, 52) == W(0x4e5a6699) && ScheduleWord(key, 8, 53) == W(0xa9f24fe0)
         && ScheduleWord(key, 8, 54) == W(0x7e572baa) && ScheduleWord(key, 8, 55) == W(0xcdf8cdea)
  {
    hide ScheduleWord;
    Words256_5(key);
    OneWord(key, 8, 48, W(0x7ccff71c), W(0xb3afe640));
    OneWord(key, 8, 49, W(0xbeb4fe54), W(0x2541fe71));
    OneWord(key, 8, 50, W(0x13e6bbf0), W(0x9bf50025));
    OneWord(key, 8, 51, W(0xd261a7df), W(0x8813bbd5));
    OneWord(key, 8, 52, W(0xf01afafe), W(0x5a721c0a));
    OneWord(key, 8, 53, W(0xe7a82979), W(0x4e5a6699));
    OneWord(key, 8, 54, W(0xd7a5644a), W(0xa9f24fe0));
    OneWord(key, 8, 55, W(0xb3afe640), W(0x7e572baa));
  }

  lemma Words256_7(key: seq<bv8>)
    requires IsKey256(key)
    ensures
         && ScheduleWord(key, 8, 56) == W(0x24fc79cc) && ScheduleWord(key, 8, 57) == W(0xbf0979e9)
         && ScheduleWord(key, 8, 58) == W(0x371ac23c) && ScheduleWord(key, 8, 59) == W(0x6d68de36)
  {
    hide ScheduleWord;
    Words256_6(key);
    OneWord(key, 8, 56, W(0x2541fe71), W(0xcdf8cdea));
    OneWord(key, 8, 57, W(0x9bf50025), W(0x24fc79cc));
    OneWord(key, 8, 58, W(0x8813bbd5), W(0xbf0979e9));
    OneWord(key, 8, 59, W(0x5a721c0a), W(0x371ac23c));
  }

  lemma Rounds256_0()
    ensures FullRound(B(0x00102030, 0x40506070, 0x8090a0b0, 0xc0d0e0f0),
                      B(0x10111213, 0x14151617, 0x18191a1b, 0x1c1d1e1f))
         == B(0x4f637606, 0x43e0aa85, 0xefa72132, 0x01a4e705)
    ensures FullRound(B(0x4f637606, 0x43e0aa85, 0xefa72132, 0x01a4e705),
                      B(0xa573c29f, 0xa176c498, 0xa97fce93, 0xa572c09c))
         == B(0x1859fbc2, 0x8a1c00a0, 0x78ed8aad, 0xc42f6109)
    ensures FullRound(B(0x1859fbc2, 0x8a1c00a0, 0x78ed8aad, 0xc42f6109),
                      B(0x1651a8cd, 0x0244beda, 0x1a5da4c1, 0x0640bade))
         == B(0x975c66c1, 0xcb9f3fa8, 0xa93a28df, 0x8ee10f63)
  {
    hide FullRound;
    SameRound(B(0x00102030, 0x40506070, 0x8090a0b0, 0xc0d0e0f0),
              B(0x10111213, 0x14151617, 0x18191a1b, 0x1c1d1e1f));
    SameRound(B(0x4f637606, 0x43e0aa85, 0xefa72132, 0x01a4e705),
              B(0xa573c29f, 0xa176c498, 0xa97fce93, 0xa572c09c));
    SameRound(B(0x1859fbc2, 0x8a1c00a0, 0x78ed8aad, 0xc42f6109),
              B(0x1651a8cd, 0x0244beda, 0x1a5da4c1, 0x0640bade));
  }

  lemma Rounds256_1()
    ensures FullRound(B(0x975c66c1, 0xcb9f3fa8, 0xa93a28df, 0x8ee10f63),
                      B(0xae87dff0, 0x0ff11b68, 0xa68ed5fb, 0x03fc1567))
         == B(0x1c05f271, 0xa417e04f, 0xf921c5c1, 0x04701554)
    ensures FullRound(B(0x1c05f271, 0xa417e04f, 0xf921c5c1, 0x04701554),
                      B(0x6de1f148, 0x6fa54f92, 0x75f8eb53, 0x73b8518d))
         == B(0xc357aae1, 0x1b45b7b0, 0xa2c7bd28, 0xa8dc99fa)
    ensures FullRound(B(0xc357aae1, 0x1b45b7b0, 0xa2c7bd28, 0xa8dc99fa),
                      B(0xc656827f, 0xc9a79917, 0x6f294cec, 0x6cd5598b))
         == B(0x7f074143, 0xcb4e243e, 0xc10c815d, 0x8375d54c)
  {
    hide FullRound;
    SameRound(B(0x975c66c1, 0xcb9f3fa8, 0xa93a28df, 0x8ee10f63),
              B(0xae87dff0, 0x0ff11b68, 0xa68ed5fb, 0x03fc1567));
    SameRound(B(0x1c05f271, 0xa417e04f, 0xf921c5c1, 0x04701554),
              B(0x6de1f148, 0x6fa54f92, 0x75f8eb53, 0x73b8518d));
    SameRound(B(0xc357aae1, 0x1b45b7b0, 0xa2c7bd28, 0xa8dc99fa),
              B(0xc656827f, 0xc9a79917, 0x6f294cec, 0x6cd5598b));
  }

  lemma Rounds256_2()
    ensures FullRound(B(0x7f074143, 0xcb4e243e, 0xc10c815d, 0x8375d54c),
                      B(0x3de23a75, 0x524775e7, 0x27bf9eb4, 0x5407cf39))
         == B(0xd653a469, 0x6ca0bc0f, 0x5acaab5d, 0xb96c5e7d)
    ensures FullRound(B(0xd653a469, 0x6ca0bc0f, 0x5acaab5d, 0xb96c5e7d),
                      B(0x0bdc905f, 0xc27b0948, 0xad5245a4, 0xc1871c2f))
         == B(0x5aa85839, 0x5fd28d7d, 0x05e1a388, 0x68f3b9c5)
    ensures FullRound(B(0x5aa85839, 0x5fd28d7d, 0x05e1a388, 0x68f3b9c5),
                      B(0x45f5a660, 0x17b2d387, 0x300d4d33, 0x640a820a))
         == B(0x4a824851, 0xc57e7e47, 0x643de50c, 0x2af3e8c9)
  {
    hide FullRound;
    SameRound(B(0x7f074143, 0xcb4e243e, 0xc10c815d, 0x8375d54c),
              B(0x3de23a75, 0x524775e7, 0x27bf9eb4, 0x5407cf39));
    SameRound(B(0xd653a469, 0x6ca0bc0f, 0x5acaab5d, 0xb96c5e7d),
              B(0x0bdc905f, 0xc27b0948, 0xad5245a4, 0xc1871c2f));
    SameRound(B(0x5aa85839, 0x5fd28d7d, 0x05e1a388, 0x68f3b9c5),
              B(0x45f5a660, 0x17b2d387, 0x300d4d33, 0x640a820a));
  }

  lemma Rounds256_3()
    ensures FullRound(B(0x4a824851, 0xc57e7e47, 0x643de50c, 0x2af3e8c9),
                      B(0x7ccff71c, 0xbeb4fe54, 0x13e6bbf0, 0xd261a7df))
         == B(0xc14907f6, 0xca3b3aa0, 0x70e9aa31, 0x3b52b5ec)
    ensures FullRound(B(0xc14907f6, 0xca3b3aa0, 0x70e9aa31, 0x3b52b5ec),
                      B(0xf01afafe, 0xe7a82979, 0xd7a5644a, 0xb3afe640))
         == B(0x5f9c6abf, 0xbac634aa, 0x50409fa7, 0x66677653)
    ensures FullRound(B(0x5f9c6abf, 0xbac634aa, 0x50409fa7, 0x66677653),
                      B(0x2541fe71, 0x9bf50025, 0x8813bbd5, 0x5a721c0a))
         == B(0x51660495, 0x43539503, 0x14fb86e4, 0x01922521)
  {
    hide FullRound;
    SameRound(B(0x4a824851, 0xc57e7e47, 0x643de50c, 0x2af3e8c9),
              B(0x7ccff71c, 0xbeb4fe54, 0x13e6bbf0, 0xd261a7df));
    SameRound(B(0xc14907f6, 0xca3b3aa0, 0x70e9aa31, 0x3b52b5ec),
              B(0xf01afafe, 0xe7a82979, 0xd7a5644a, 0xb3afe640));
    SameRound(B(0x5f9c6abf, 0xbac634aa, 0x50409fa7, 0x66677653),
              B(0x2541fe71, 0x9bf50025, 0x8813bbd5, 0x5a721c0a));
  }

  lemma Rounds256_4()
    ensures FullRound(B(0x51660495, 0x43539503, 0x14fb86e4, 0x01922521),
                      B(0x4e5a6699, 0xa9f24fe0, 0x7e572baa, 0xcdf8cdea))
         == B(0x627bceb9, 0x999d5aaa, 0xc945ecf4, 0x23f56da5)
  {
    hide FullRound;
    SameRound(B(0x51660495, 0x43539503, 0x14fb86e4, 0x01922521),
              B(0x4e5a6699, 0xa9f24fe0, 0x7e572baa, 0xcdf8cdea));
  }

  lemma LastRound256()
    ensures LastRound(B(0x627bceb9, 0x999d5aaa, 0xc945ecf4, 0x23f56da5),
                      B(0x24fc79cc, 0xbf0979e9, 0x371ac23c, 0x6d68de36))
         == B(0x8ea2b7ca, 0x516745bf, 0xeafc4990, 0x4b496089)
  {}

  lemma RoundKeys256(key: seq<bv8>)
    requires IsKey256(key)
    ensures var rk := ExpandKey(key, 8, 60);
         && RoundKeyOf(rk, 0) == B(0x00010203, 0x04050607, 0x08090a0b, 0x0c0d0e0f)
         && RoundKeyOf(rk, 1) == B(0x10111213, 0x14151617, 0x18191a1b, 0x1c1d1e1f)
         && RoundKeyOf(rk, 2) == B(0xa573c29f, 0xa176c498, 0xa97fce93, 0xa572c09c)
         && RoundKeyOf(rk, 3) == B(0x1651a8cd, 0x0244beda, 0x1a5da4c1, 0x0640bade)
         && RoundKeyOf(rk, 4) == B(0xae87dff0, 0x0ff11b68, 0xa68ed5fb, 0x03fc1567)
         && RoundKeyOf(rk, 5) == B(0x6de1f148, 0x6fa54f92, 0x75f8eb53, 0x73b8518d)
         && RoundKeyOf(rk, 6) == B(0xc656827f, 0xc9a79917, 0x6f294cec, 0x6cd5598b)
         && RoundKeyOf(rk, 7) == B(0x3de23a75, 0x524775e7, 0x27bf9eb4, 0x5407cf39)
         && RoundKeyOf(rk, 8) == B(0x0bdc905f, 0xc27b0948, 0xad5245a4, 0xc1871c2f)
         && RoundKeyOf(rk, 9) == B(0x45f5a660, 0x17b2d387, 0x300d4d33, 0x640a820a)
         && RoundKeyOf(rk, 10) == B(0x7ccff71c, 0xbeb4fe54, 0x13e6bbf0, 0xd261a7df)
         && RoundKeyOf(rk, 11) == B(0xf01afafe, 0xe7a82979, 0xd7a5644a, 0xb3afe640)
         && RoundKeyOf(rk, 12) == B(0x2541fe71, 0x9bf50025, 0x8813bbd5, 0x5a721c0a)
         && RoundKeyOf(rk, 13) == B(0x4e5a6699, 0xa9f24fe0, 0x7e572baa, 0xcdf8cdea)
         && RoundKeyOf(rk, 14) == B(0x24fc79cc, 0xbf0979e9, 0x371ac23c, 0x6d68de36)
  {
    hide ScheduleWord, ExpandKey, StateAt, RoundKeyOf;
    KeyWords256_0(key);
    KeyWords256_1(key);
    KeyWords256_2(key);
    Words256_1(key);
    Words256_2(key);
    Words256_3(key);
    Words256_4(key);
    Words256_5(key);
    Words256_6(key);
    Words256_7(key);
    KeyOfRound(key, 8, 0);
    KeyOfRound(key, 8, 1);
    KeyOfRound(key, 8, 2);
    KeyOfRound(key, 8, 3);
    KeyOfRound(key, 8, 4);
    KeyOfRound(key, 8, 5);
    KeyOfRound(key, 8, 6);
    KeyOfRound(key, 8, 7);
    KeyOfRound(key, 8, 8);
    KeyOfRound(key, 8, 9);
    KeyOfRound(key, 8, 10);
    KeyOfRound(key, 8, 11);
    KeyOfRound(key, 8, 12);
    KeyOfRound(key, 8, 13);
    KeyOfRound(key, 8, 14);
  }

  lemma Forward256(rk: seq<bv8>)
    requires |rk| == 240
    requires && RoundKeyOf(rk, 0) == B(0x00010203, 0x04050607, 0x08090a0b, 0x0c0d0e0f)
         && RoundKeyOf(rk, 1) == B(0x10111213, 0x14151617, 0x18191a1b, 0x1c1d1e1f)
         && RoundKeyOf(rk, 2) == B(0xa573c29f, 0xa176c498, 0xa97fce93, 0xa572c09c)
         && RoundKeyOf(rk, 3) == B(0x1651a8cd, 0x0244beda, 0x1a5da4c1, 0x0640bade)
         && RoundKeyOf(rk, 4) == B(0xae87dff0, 0x0ff11b68, 0xa68ed5fb, 0x03fc1567)
         && RoundKeyOf(rk, 5) == B(0x6de1f148, 0x6fa54f92, 0x75f8eb53, 0x73b8518d)
         && RoundKeyOf(rk, 6) == B(0xc656827f, 0xc9a79917, 0x6f294cec, 0x6cd5598b)
         && RoundKeyOf(rk, 7) == B(0x3de23a75, 0x524775e7, 0x27bf9eb4, 0x5407cf39)
         && RoundKeyOf(rk, 8) == B(0x0bdc905f, 0xc27b0948, 0xad5245a4, 0xc1871c2f)
         && RoundKeyOf(rk, 9) == B(0x45f5a660, 0x17b2d387, 0x300d4d33, 0x640a820a)
         && RoundKeyOf(rk, 10) == B(0x7ccff71c, 0xbeb4fe54, 0x13e6bbf0, 0xd261a7df)
         && RoundKeyOf(rk, 11) == B(0xf01afafe, 0xe7a82979, 0xd7a5644a, 0xb3afe640)
         && RoundKeyOf(rk, 12) == B(0x2541fe71, 0x9bf50025, 0x8813bbd5, 0x5a721c0a)
         && RoundKeyOf(rk, 13) == B(0x4e5a6699, 0xa9f24fe0, 0x7e572baa, 0xcdf8cdea)
         && RoundKeyOf(rk, 14) == B(0x24fc79cc, 0xbf0979e9, 0x371ac23c, 0x6d68de36)
    ensures ForwardRounds(rk, B(0x00112233, 0x44556677, 0x8899aabb, 0xccddeeff), 13)
         == B(0x627bceb9, 0x999d5aaa, 0xc945ecf4, 0x23f56da5)
  {
    hide FullRound, RoundKeyOf, W;
    var p := B(0x00112233, 0x44556677, 0x8899aabb, 0xccddeeff);
    Rounds256_0();
    Rounds256_1();
    Rounds256_2();
    Rounds256_3();
    Rounds256_4();
    FirstKey256();
    assert ForwardRounds(rk, p, 0) == B(0x00102030, 0x40506070, 0x8090a0b0, 0xc0d0e0f0);
    assert ForwardRounds(rk, p, 1) == B(0x4f637606, 0x43e0aa85, 0xefa72132, 0x01a4e705);
    assert ForwardRounds(rk, p, 2) == B(0x1859fbc2, 0x8a1c00a0, 0x78ed8aad, 0xc42f6109);
    assert ForwardRounds(rk, p, 3) == B(0x975c66c1, 0xcb9f3fa8, 0xa93a28df, 0x8ee10f63);
    assert ForwardRounds(rk, p, 4) == B(0x1c05f271, 0xa417e04f, 0xf921c5c1, 0x04701554);
    assert ForwardRounds(rk, p, 5) == B(0xc357aae1, 0x1b45b7b0, 0xa2c7bd28, 0xa8dc99fa);
    assert ForwardRounds(rk, p, 6) == B(0x7f074143, 0xcb4e243e, 0xc10c815d, 0x8375d54c);
    assert ForwardRounds(rk, p, 7) == B(0xd653a469, 0x6ca0bc0f, 0x5acaab5d, 0xb96c5e7d);
    assert ForwardRounds(rk, p, 8) == B(0x5aa85839, 0x5fd28d7d, 0x05e1a388, 0x68f3b9c5);
    assert ForwardRounds(rk, p, 9) == B(0x4a824851, 0xc57e7e47, 0x643de50c, 0x2af3e8c9);
    assert ForwardRounds(rk, p, 10) == B(0xc14907f6, 0xca3b3aa0, 0x70e9aa31, 0x3b52b5ec);
    assert ForwardRounds(rk, p, 11) == B(0x5f9c6abf, 0xbac634aa, 0x50409fa7, 0x66677653);
    assert ForwardRounds(rk, p, 12) == B(0x51660495, 0x43539503, 0x14fb86e4, 0x01922521);
  }

  lemma FirstKey256()
    ensures XorState(B(0x00112233, 0x44556677, 0x8899aabb, 0xccddeeff),
                     B(0x00010203, 0x04050607, 0x08090a0b, 0x0c0d0e0f))
         == B(0x00102030, 0x40506070, 0x8090a0b0, 0xc0d0e0f0)
  {}

  /** Appendix C.3. */
  lemma KnownAnswer256(key: seq<bv8>, p: seq<bv8>, c: seq<bv8>)
    requires key == [0x00, 0x01, 0x02, 0x03, 0x04, 0x05, 0x06, 0x07, 0x08, 0x09, 0x0a, 0x0b, 0x0c, 0x0d, 0x0e, 0x0f,
                     0x10, 0x11, 0x12, 0x13, 0x14, 0x15, 0x16, 0x17, 0x18, 0x19, 0x1a, 0x1b, 0x1c, 0x1d, 0x1e, 0x1f]
    requires p == [0x00, 0x11, 0x22, 0x33, 0x44, 0x55, 0x66, 0x77, 0x88, 0x99, 0xaa, 0xbb, 0xcc, 0xdd, 0xee, 0xff]
    requires c == [0x8e, 0xa2, 0xb7, 0xca, 0x51, 0x67, 0x45, 0xbf, 0xea, 0xfc, 0x49, 0x90, 0x4b, 0x49, 0x60, 0x89]
    ensures var rk := ExpandKey(key, 8, 60);
            BlockBytes(Cipher(rk, 14, StateAt(p, 0))) == c && BlockBytes(InvCipher(rk, 14, StateAt(c, 0))) == p
  {
    hide ExpandKey, ForwardRounds, RoundKeyOf, InvCipher, LastRound;
    var rk := ExpandKey(key, 8, 60);
    RoundKeys256(key);
    Forward256(rk);
    LastRound256();
    assert StateAt(p, 0) == B(0x00112233, 0x44556677, 0x8899aabb, 0xccddeeff);
    assert StateAt(c, 0) == B(0x8ea2b7ca, 0x516745bf, 0xeafc4990, 0x4b496089);
    InvCipherUndoesCipher(rk, 14, StateAt(p, 0));
    BytesOfState(p, 0);
    BytesOfState(c, 0);
  }
}
