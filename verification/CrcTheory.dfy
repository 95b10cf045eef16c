/** What the CRC computes and what it detects: polynomial division over GF(2), one message bit
    at a time, and the error patterns that division cannot miss. */
module CrcTheory {
  import opened Crc16
  import Gf256

  type Bits = seq<bool>

  // ----- The register as a polynomial of degree below 16 -----

  function Shl(r: bv16): bv16 {
    r << 1
  }

  predicate High(r: bv16) {
    r & 0x8000 != 0
  }

  /** Times x, modulo x^16 + x^12 + x^5 + 1. */
  function TimesX(r: bv16): bv16 {
    if High(r) then Xor(Shl(r), 0x1021) else Shl(r)
  }

  function TimesXTo(r: bv16, n: nat): bv16
    decreases n
  {
    if n == 0 then r else TimesX(TimesXTo(r, n - 1))
  }

  function Bit(b: bool, value: bv16): bv16 {
    if b then value else 0
  }

  // ----- Reference: remainder of a message polynomial, highest coefficient first -----

  /** Horner's rule: each further coefficient multiplies by x and is added. */
  function Remainder(m: Bits): bv16 {
    if m == [] then 0 else Xor(TimesX(Remainder(m[..|m| - 1])), Bit(m[|m| - 1], 1))
  }

  function Zeros(n: nat): (z: Bits)
    ensures |z| == n
  {
    seq(n, _ => false)
  }

  /** The bits of a byte and of a message, most significant first. */
  predicate ByteBit(b: bv8, mask: bv8) {
    b & mask != 0
  }

  function ByteBits(b: bv8): (m: Bits)
    ensures |m| == 8
  {
    [ByteBit(b, 0x80), ByteBit(b, 0x40), ByteBit(b, 0x20), ByteBit(b, 0x10),
     ByteBit(b, 0x08), ByteBit(b, 0x04), ByteBit(b, 0x02), ByteBit(b, 0x01)]
  }

  function MessageBits(s: seq<bv8>): (m: Bits)
    ensures |m| == 8 * |s|
  {
    if s == [] then [] else MessageBits(s[..|s| - 1]) + ByteBits(s[|s| - 1])
  }

  // ----- Algebra of the register -----

  lemma XorIdentities(a: bv16, b: bv16)
    ensures Xor(a, b) == Xor(b, a) && Xor(a, 0) == a && Xor(a, a) == 0
  {
    assert a ^ b == b ^ a && a ^ 0 == a && a ^ a == 0;
  }

  lemma XorAssociative(a: bv16, b: bv16, c: bv16)
    ensures Xor(Xor(a, b), c) == Xor(a, Xor(b, c))
  {}

  lemma XorCancels(a: bv16, b: bv16)
    ensures Xor(Xor(a, b), b) == a
  {}

  lemma XorPairs(a: bv16, b: bv16, c: bv16, d: bv16)
    ensures Xor(Xor(a, b), Xor(c, d)) == Xor(Xor(a, c), Xor(b, d))
  {
    hide Xor;
    XorAssociative(a, b, Xor(c, d));
    XorAssociative(b, c, d);
    XorIdentities(b, c);
    XorAssociative(c, b, d);
    XorAssociative(a, c, Xor(b, d));
  }

  lemma ShlOfXor(x: bv16, y: bv16)
    ensures Shl(Xor(x, y)) == Xor(Shl(x), Shl(y))
  {}

  lemma HighOfXor(x: bv16, y: bv16)
    ensures High(Xor(x, y)) == (High(x) != High(y))
  {}

  lemma TimesXLinear(x: bv16, y: bv16)
    ensures TimesX(Xor(x, y)) == Xor(TimesX(x), TimesX(y))
  {
    hide Shl, High, Xor;
    var a, b, g := Shl(x), Shl(y), 0x1021;
    ShlOfXor(x, y);
    HighOfXor(x, y);
    XorPairs(a, g, b, g);
    XorIdentities(g, g);
    XorIdentities(Xor(a, b), 0);
    XorAssociative(a, b, g);
    XorAssociative(a, g, b);
    XorIdentities(g, b);
  }

  lemma {:induction false} TimesXToLinear(x: bv16, y: bv16, n: nat)
    ensures TimesXTo(Xor(x, y), n) == Xor(TimesXTo(x, n), TimesXTo(y, n))
    decreases n
  {
    hide TimesX, Xor;
    if n > 0 {
      TimesXToLinear(x, y, n - 1);
      TimesXLinear(TimesXTo(x, n - 1), TimesXTo(y, n - 1));
    }
  }

  lemma TimesXInjective(x: bv16)
    ensures TimesX(x) == 0 <==> x == 0
  {}

  lemma {:induction false} TimesXToInjective(x: bv16, n: nat)
    ensures TimesXTo(x, n) == 0 <==> x == 0
    decreases n
  {
    hide TimesX;
    if n > 0 {
      TimesXToInjective(x, n - 1);
      TimesXInjective(TimesXTo(x, n - 1));
    }
  }

  lemma {:induction false} TimesXToAdds(x: bv16, m: nat, n: nat)
    ensures TimesXTo(x, m + n) == TimesXTo(TimesXTo(x, m), n)
    decreases n
  {
    hide TimesX;
    if n > 0 {
      TimesXToAdds(x, m, n - 1);
    }
  }

  // ----- The byte step is eight division steps -----

  /** One bit of the message meets the high end of the register. */
  function BitStep(r: bv16, bit: bool): bv16 {
    TimesX(Xor(r, Bit(bit, 0x8000)))
  }

  function BitSteps(r: bv16, m: Bits): bv16 {
    if m == [] then r else BitStep(BitSteps(r, m[..|m| - 1]), m[|m| - 1])
  }

  /** A word XORed into the register moves up with it: its top bit is the next message bit. */
  lemma PeelBit(r: bv16, w: bv16)
    ensures TimesX(Xor(r, w)) == Xor(BitStep(r, High(w)), Shl(w))
  {
    TopBitApart(w);
    var t := Bit(High(w), 0x8000);
    var rest := Xor(w, t);
    hide Xor, TimesX;
    XorIdentities(rest, t);
    XorCancels(w, t);
    XorAssociative(r, t, rest);
    TimesXLinear(Xor(r, t), rest);
  }

  lemma TopBitApart(w: bv16)
    ensures TimesX(Xor(w, Bit(High(w), 0x8000))) == Shl(w)
  {
    TopBit();
    HighOfXor(w, Bit(High(w), 0x8000));
    ShlOfXor(w, Bit(High(w), 0x8000));
    XorIdentities(Shl(w), 0);
    XorIdentities(w, 0);
    hide Xor, High, Shl;
  }

  lemma TopBit()
    ensures High(0x8000) && Shl(0x8000) == 0 && !High(0) && Shl(0) == 0
  {}

  function EightTimesX(r: bv16): bv16 {
    TimesX(TimesX(TimesX(TimesX(TimesX(TimesX(TimesX(TimesX(r))))))))
  }

  lemma EightTimesXLinear(x: bv16, y: bv16)
    ensures EightTimesX(Xor(x, y)) == Xor(EightTimesX(x), EightTimesX(y))
  {
    hide TimesX, Xor;
    var x1, y1 := TimesX(x), TimesX(y);
    var x2, y2 := TimesX(x1), TimesX(y1);
    var x3, y3 := TimesX(x2), TimesX(y2);
    var x4, y4 := TimesX(x3), TimesX(y3);
    var x5, y5 := TimesX(x4), TimesX(y4);
    var x6, y6 := TimesX(x5), TimesX(y5);
    var x7, y7 := TimesX(x6), TimesX(y6);
    TimesXLinear(x, y); TimesXLinear(x1, y1); TimesXLinear(x2, y2); TimesXLinear(x3, y3);
    TimesXLinear(x4, y4); TimesXLinear(x5, y5); TimesXLinear(x6, y6); TimesXLinear(x7, y7);
  }

  lemma TableIsEightSteps(x: bv8)
    ensures Crc16Tab(x) == EightTimesX((x as bv16) << 8)
  {}

  lemma LowByteMovesUp(x: bv8)
    ensures EightTimesX(x as bv16) == (x as bv16) << 8
  {}

  lemma RegisterHalves(r: bv16, b: bv8)
    ensures Xor(r, (b as bv16) << 8)
         == Xor(((((r >> 8) & 0xff) as bv8 ^ b) as bv16) << 8, ((r & 0xff) as bv8) as bv16)
    ensures (((r & 0xff) as bv8) as bv16) << 8 == r << 8
  {}

  /** The table step: the byte enters at the top and eight divisions follow. */
  lemma ByteStepIsEightTimesX(r: bv16, b: bv8)
    ensures ByteStep(r, b) == EightTimesX(Xor(r, (b as bv16) << 8))
  {
    var top, low := ((r >> 8) & 0xff) as bv8 ^ b, (r & 0xff) as bv8;
    RegisterHalves(r, b);
    TableIsEightSteps(top);
    LowByteMovesUp(low);
    EightTimesXLinear((top as bv16) << 8, low as bv16);
    XorIdentities(r << 8, Crc16Tab(top));
    hide Xor, EightTimesX, Crc16Tab;
  }

  lemma BitsAtTheTop(b: bv8)
    ensures var w := (b as bv16) << 8;
            && High(w) == ByteBits(b)[0] && High(Shl(w)) == ByteBits(b)[1]
            && High(Shl(Shl(w))) == ByteBits(b)[2] && High(Shl(Shl(Shl(w)))) == ByteBits(b)[3]
            && High(Shl(Shl(Shl(Shl(w))))) == ByteBits(b)[4] && High(Shl(Shl(Shl(Shl(Shl(w)))))) == ByteBits(b)[5]
            && High(Shl(Shl(Shl(Shl(Shl(Shl(w))))))) == ByteBits(b)[6]
            && High(Shl(Shl(Shl(Shl(Shl(Shl(Shl(w)))))))) == ByteBits(b)[7]
            && Shl(Shl(Shl(Shl(Shl(Shl(Shl(Shl(w)))))))) == 0
  {}

  lemma EightBitSteps(r: bv16, m: Bits)
    requires |m| == 8
    ensures BitSteps(r, m)
         == BitStep(BitStep(BitStep(BitStep(BitStep(BitStep(BitStep(BitStep(r,
              m[0]), m[1]), m[2]), m[3]), m[4]), m[5]), m[6]), m[7])
  {
    hide BitStep;
    BitStepsLast(r, m, 7); BitStepsLast(r, m, 6); BitStepsLast(r, m, 5); BitStepsLast(r, m, 4);
    BitStepsLast(r, m, 3); BitStepsLast(r, m, 2); BitStepsLast(r, m, 1); BitStepsLast(r, m, 0);
    assert m[..8] == m && m[..0] == [];
  }

  lemma BitStepsLast(r: bv16, m: Bits, n: nat)
    requires n < |m|
    ensures BitSteps(r, m[..n + 1]) == BitStep(BitSteps(r, m[..n]), m[n])
  {
    assert m[..n + 1][..n] == m[..n];
  }

  lemma ByteStepIsEightBits(r: bv16, b: bv8)
    ensures ByteStep(r, b) == BitSteps(r, ByteBits(b))
  {
    ByteStepIsEightTimesX(r, b);
    EightBitSteps(r, ByteBits(b));
    BitsAtTheTop(b);
    var m := ByteBits(b);
    var w0 := (b as bv16) << 8;
    hide ByteBits, Xor, High, Shl, BitStep, BitSteps, TimesX;
    var w1 := Shl(w0); var w2 := Shl(w1); var w3 := Shl(w2); var w4 := Shl(w3);
    var w5 := Shl(w4); var w6 := Shl(w5); var w7 := Shl(w6);
    var r1 := BitStep(r, m[0]); var r2 := BitStep(r1, m[1]); var r3 := BitStep(r2, m[2]);
    var r4 := BitStep(r3, m[3]); var r5 := BitStep(r4, m[4]); var r6 := BitStep(r5, m[5]);
    var r7 := BitStep(r6, m[6]);
    PeelBit(r, w0); PeelBit(r1, w1); PeelBit(r2, w2); PeelBit(r3, w3);
    PeelBit(r4, w4); PeelBit(r5, w5); PeelBit(r6, w6); PeelBit(r7, w7);
    XorIdentities(BitStep(r7, m[7]), 0);
  }

  // ----- The whole message -----

  lemma {:induction false} BitStepsAppend(r: bv16, a: Bits, b: Bits)
    ensures BitSteps(r, a + b) == BitSteps(BitSteps(r, a), b)
    decreases |b|
  {
    hide BitStep;
    if b == [] {
      assert a + b == a;
    } else {
      BitStepsAppend(r, a, b[..|b| - 1]);
      assert (a + b)[..|a + b| - 1] == a + b[..|b| - 1];
    }
  }

  lemma {:induction false} CrcIsBitSteps(r: bv16, s: seq<bv8>)
    ensures CrcFrom(r, s) == BitSteps(r, MessageBits(s))
  {
    hide ByteStep, BitStep, ByteBits;
    if s != [] {
      var front, last := s[..|s| - 1], s[|s| - 1];
      CrcIsBitSteps(r, front);
      ByteStepIsEightBits(BitSteps(r, MessageBits(front)), last);
      BitStepsAppend(r, MessageBits(front), ByteBits(last));
    }
  }

  lemma TopOfOne()
    ensures TimesXTo(1, 15) == 0x8000
  {
    assert TimesXTo(1, 3) == 8;
    assert TimesXTo(1, 6) == 0x40;
    assert TimesXTo(1, 9) == 0x200;
    assert TimesXTo(1, 12) == 0x1000;
  }

  /** Feeding bits at the high end is sixteen multiplications ahead of Horner's rule. */
  lemma {:induction false} BitStepsAreRemainderShifted(m: Bits)
    ensures BitSteps(0, m) == TimesXTo(Remainder(m), 16)
  {
    hide TimesX, Xor;
    if m == [] {
      TimesXToInjective(0, 16);
    } else {
      var v, b := Remainder(m[..|m| - 1]), m[|m| - 1];
      BitStepsAreRemainderShifted(m[..|m| - 1]);
      TimesXLinear(TimesXTo(v, 16), Bit(b, 0x8000));
      TimesXToAdds(v, 1, 16);
      assert TimesXTo(v, 1) == TimesX(TimesXTo(v, 0));
      assert TimesX(TimesXTo(v, 16)) == TimesXTo(v, 17);
      assert TimesXTo(Bit(b, 1), 16) == TimesX(Bit(b, 0x8000)) by {
        TopOfOne();
        TimesXToInjective(0, 15);
        assert TimesXTo(Bit(b, 1), 15) == Bit(b, 0x8000);
      }
      TimesXToLinear(TimesX(v), Bit(b, 1), 16);
    }
  }

  lemma {:induction false} RemainderOfPadded(m: Bits, n: nat)
    ensures Remainder(m + Zeros(n)) == TimesXTo(Remainder(m), n)
  {
    hide TimesX, Xor;
    if n == 0 {
      assert m + Zeros(0) == m;
    } else {
      RemainderOfPadded(m, n - 1);
      var p := m + Zeros(n);
      assert p[..|p| - 1] == m + Zeros(n - 1);
      XorIdentities(TimesX(TimesXTo(Remainder(m), n - 1)), 0);
    }
  }

  /** The table-driven loop computes the remainder of the message times x^16, for every buffer. */
  lemma CrcIsPolynomialRemainder(s: seq<bv8>)
    ensures Crc(s) == Remainder(MessageBits(s) + Zeros(16))
  {
    hide TimesX, Xor, BitSteps, TimesXTo, Remainder;
    CrcIsBitSteps(0, s);
    BitStepsAreRemainderShifted(MessageBits(s));
    RemainderOfPadded(MessageBits(s), 16);
  }

  // ----- Linearity -----

  function XorBits(a: Bits, b: Bits): (x: Bits)
    requires |a| == |b|
    ensures |x| == |a|
  {
    seq(|a|, i requires 0 <= i < |a| => a[i] != b[i])
  }

  lemma BitOfXor(a: bool, b: bool, v: bv16)
    ensures Bit(a != b, v) == Xor(Bit(a, v), Bit(b, v))
  {
    XorIdentities(v, 0);
    XorIdentities(0, v);
  }

  lemma {:induction false} RemainderLinear(a: Bits, b: Bits)
    requires |a| == |b|
    ensures Remainder(XorBits(a, b)) == Xor(Remainder(a), Remainder(b))
  {
    hide TimesX, Xor;
    if a == [] {
      XorIdentities(0, 0);
    } else {
      var n := |a| - 1;
      RemainderLinear(a[..n], b[..n]);
      assert XorBits(a, b)[..n] == XorBits(a[..n], b[..n]);
      TimesXLinear(Remainder(a[..n]), Remainder(b[..n]));
      BitOfXor(a[n], b[n], 1);
      XorPairs(TimesX(Remainder(a[..n])), TimesX(Remainder(b[..n])), Bit(a[n], 1), Bit(b[n], 1));
    }
  }

  function XorBytes(a: seq<bv8>, b: seq<bv8>): (x: seq<bv8>)
    requires |a| == |b|
    ensures |x| == |a|
  {
    seq(|a|, i requires 0 <= i < |a| => Gf256.Add(a[i], b[i]))
  }

  lemma MaskedXor(a: bv8, b: bv8, m: bv8)
    requires m & (m - 1) == 0
    ensures ByteBit(Gf256.Add(a, b), m) == (ByteBit(a, m) != ByteBit(b, m))
  {}

  lemma ByteBitOfXor(a: bv8, b: bv8, i: nat)
    requires i < 8
    ensures ByteBits(Gf256.Add(a, b))[i] == (ByteBits(a)[i] != ByteBits(b)[i])
  {
    hide Gf256.Add, ByteBit;
    if i == 0 { MaskedXor(a, b, 0x80); }
    else if i == 1 { MaskedXor(a, b, 0x40); }
    else if i == 2 { MaskedXor(a, b, 0x20); }
    else if i == 3 { MaskedXor(a, b, 0x10); }
    else if i == 4 { MaskedXor(a, b, 0x08); }
    else if i == 5 { MaskedXor(a, b, 0x04); }
    else if i == 6 { MaskedXor(a, b, 0x02); }
    else { MaskedXor(a, b, 0x01); }
  }

  lemma ByteBitsOfXor(a: bv8, b: bv8)
    ensures ByteBits(Gf256.Add(a, b)) == XorBits(ByteBits(a), ByteBits(b))
  {
    hide Gf256.Add, ByteBits;
    forall i | 0 <= i < 8
      ensures ByteBits(Gf256.Add(a, b))[i] == XorBits(ByteBits(a), ByteBits(b))[i]
    {
      ByteBitOfXor(a, b, i);
    }
  }

  lemma {:induction false} MessageBitsOfXor(a: seq<bv8>, b: seq<bv8>)
    requires |a| == |b|
    ensures MessageBits(XorBytes(a, b)) == XorBits(MessageBits(a), MessageBits(b))
  {
    hide ByteBits, Gf256.Add;
    if a != [] {
      var n := |a| - 1;
      MessageBitsOfXor(a[..n], b[..n]);
      ByteBitsOfXor(a[n], b[n]);
      assert XorBytes(a, b)[..n] == XorBytes(a[..n], b[..n]);
    }
  }

  /** Over buffers of one length the CRC of the difference is the difference of the CRCs. */
  lemma CrcLinear(a: seq<bv8>, b: seq<bv8>)
    requires |a| == |b|
    ensures Crc(XorBytes(a, b)) == Xor(Crc(a), Crc(b))
  {
    hide Xor, Remainder;
    CrcIsPolynomialRemainder(a);
    CrcIsPolynomialRemainder(b);
    CrcIsPolynomialRemainder(XorBytes(a, b));
    MessageBitsOfXor(a, b);
    var ma, mb := MessageBits(a) + Zeros(16), MessageBits(b) + Zeros(16);
    RemainderLinear(ma, mb);
    assert XorBits(ma, mb) == XorBits(MessageBits(a), MessageBits(b)) + Zeros(16);
  }

  lemma {:induction false} RemainderSplit(a: Bits, b: Bits)
    ensures Remainder(a + b) == Xor(TimesXTo(Remainder(a), |b|), Remainder(b))
    decreases |b|
  {
    hide TimesX, Xor;
    if b == [] {
      assert a + b == a;
      XorIdentities(Remainder(a), 0);
    } else {
      var n := |b| - 1;
      RemainderSplit(a, b[..n]);
      assert (a + b)[..|a + b| - 1] == a + b[..n];
      TimesXLinear(TimesXTo(Remainder(a), n), Remainder(b[..n]));
      XorAssociative(TimesXTo(Remainder(a), n + 1), TimesX(Remainder(b[..n])), Bit(b[n], 1));
    }
  }

  // ----- Short messages are their own remainder -----

  /** The k highest coefficients are zero. */
  predicate Clear(v: bv16, k: nat)
    decreases k
  {
    k == 0 || (!High(v) && Clear(Shl(v), k - 1))
  }

  lemma {:induction false} ClearXor(x: bv16, y: bv16, k: nat)
    requires Clear(x, k) && Clear(y, k)
    ensures Clear(Xor(x, y), k)
    decreases k
  {
    hide High, Shl, Xor;
    if k > 0 {
      HighOfXor(x, y);
      ShlOfXor(x, y);
      ClearXor(Shl(x), Shl(y), k - 1);
    }
  }

  lemma {:induction false} ClearLess(v: bv16, j: nat, k: nat)
    requires j <= k && Clear(v, k)
    ensures Clear(v, j)
    decreases k
  {
    hide High, Shl;
    if j > 0 {
      ClearLess(Shl(v), j - 1, k - 1);
    }
  }

  lemma BitIsClear(b: bool)
    ensures Clear(Bit(b, 1), 15)
  {
    assert Clear(0, 4) && Clear(0, 8) && Clear(0, 12);
    assert Clear(0x1000, 3);
    assert Clear(0x200, 6);
    assert Clear(0x40, 9);
    assert Clear(8, 12);
  }

  lemma ShiftInZero(v: bv16, b: bool)
    requires !High(v)
    ensures Xor(Shl(v), Bit(b, 1)) == 0 <==> v == 0 && !b
  {}

  /** At most sixteen coefficients never meet the modulus, so only the zero message has remainder 0. */
  lemma {:induction false} ShortRemainder(m: Bits)
    requires |m| <= 16
    ensures Clear(Remainder(m), 16 - |m|)
    ensures Remainder(m) == 0 <==> forall i | 0 <= i < |m| :: !m[i]
  {
    hide High, Shl, Xor;
    if m == [] {
      assert Clear(0, 16) by {
        TopBit();
        assert Clear(0, 4) && Clear(0, 8) && Clear(0, 12);
      }
    } else {
      var n := |m| - 1;
      var v := Remainder(m[..n]);
      ShortRemainder(m[..n]);
      BitIsClear(m[n]);
      ClearLess(Bit(m[n], 1), 15 - n, 15);
      ClearXor(Shl(v), Bit(m[n], 1), 15 - n);
      ShiftInZero(v, m[n]);
    }
  }

  // ----- Error detection -----

  /** The messages differ only among the n bits from position p on. */
  ghost predicate DifferWithin(a: Bits, b: Bits, p: nat, n: nat) {
    && |a| == |b|
    && forall i | 0 <= i < |a| && a[i] != b[i] :: p <= i < p + n
  }

  lemma {:induction false} LeadingZeros(m: Bits, n: nat)
    ensures Remainder(Zeros(n) + m) == Remainder(m)
  {
    hide TimesX, Xor, TimesXTo;
    ZerosVanish(n);
    RemainderSplit(Zeros(n), m);
    TimesXToInjective(0, |m|);
    XorIdentities(Remainder(m), 0);
  }

  lemma ZerosVanish(n: nat)
    ensures Remainder(Zeros(n)) == 0
  {
    hide TimesX;
    RemainderOfPadded([], n);
    TimesXToInjective(0, n);
    assert [] + Zeros(n) == Zeros(n);
  }

  /** Every burst of at most sixteen bits, at any bit position, changes the remainder. */
  lemma BurstChangesRemainder(a: Bits, b: Bits, p: nat)
    requires DifferWithin(a, b, p, 16) && a != b
    ensures Remainder(a) != Remainder(b)
  {
    hide TimesX, Xor, Remainder, TimesXTo;
    var x := XorBits(a, b);
    var e := if p + 16 <= |x| then x[p..p + 16] else x[p..];
    var q := |x| - p - |e|;
    assert x == Zeros(p) + e + Zeros(q);
    var i :| 0 <= i < |a| && a[i] != b[i];
    assert e[i - p];
    ShortRemainder(e);
    LeadingZeros(e, p);
    RemainderOfPadded(Zeros(p) + e, q);
    TimesXToInjective(Remainder(e), q);
    RemainderLinear(a, b);
    XorIdentities(Remainder(a), Remainder(b));
  }

  lemma BurstChangesCrc(a: seq<bv8>, b: seq<bv8>, p: nat)
    requires |a| == |b| && DifferWithin(MessageBits(a), MessageBits(b), p, 16) && a != b
    ensures Crc(a) != Crc(b)
  {
    hide Remainder;
    var ma, mb := MessageBits(a), MessageBits(b);
    if ma == mb {
      DistinctMessages(a, b);
    }
    CrcIsPolynomialRemainder(a);
    CrcIsPolynomialRemainder(b);
    assert ma == (ma + Zeros(16))[..|ma|] && mb == (mb + Zeros(16))[..|mb|];
    BurstChangesRemainder(ma + Zeros(16), mb + Zeros(16), p);
  }

  lemma DistinctBytes(a: bv8, b: bv8)
    requires ByteBits(a) == ByteBits(b)
    ensures a == b
  {
    var x, y := ByteBits(a), ByteBits(b);
    assert x[0] == y[0] && x[1] == y[1] && x[2] == y[2] && x[3] == y[3];
    assert x[4] == y[4] && x[5] == y[5] && x[6] == y[6] && x[7] == y[7];
  }

  lemma {:induction false} BitsOfMessage(s: seq<bv8>, i: nat)
    requires i < |s|
    ensures MessageBits(s)[8 * i..8 * i + 8] == ByteBits(s[i])
  {
    hide ByteBits;
    var n := |s| - 1;
    if i < n {
      BitsOfMessage(s[..n], i);
      assert MessageBits(s)[8 * i..8 * i + 8] == MessageBits(s[..n])[8 * i..8 * i + 8];
    }
  }

  lemma DistinctMessages(a: seq<bv8>, b: seq<bv8>)
    requires |a| == |b| && MessageBits(a) == MessageBits(b)
    ensures a == b
  {
    hide MessageBits, ByteBits;
    forall i | 0 <= i < |a|
      ensures a[i] == b[i]
    {
      BitsOfMessage(a, i);
      BitsOfMessage(b, i);
      DistinctBytes(a[i], b[i]);
    }
  }

  /** Any change confined to two adjacent bytes changes the CRC, in buffers of every length. */
  lemma TwoAdjacentBytesChangeCrc(a: seq<bv8>, b: seq<bv8>, k: nat)
    requires |a| == |b| && a != b
    requires forall i | 0 <= i < |a| && a[i] != b[i] :: i == k || i == k + 1
    ensures Crc(a) != Crc(b)
  {
    hide MessageBits, ByteBits;
    var ma, mb := MessageBits(a), MessageBits(b);
    forall j | 0 <= j < |ma| && ma[j] != mb[j]
      ensures 8 * k <= j < 8 * k + 16
    {
      var i := j / 8;
      BitsOfMessage(a, i);
      BitsOfMessage(b, i);
      assert ma[j] == ma[8 * i..8 * i + 8][j - 8 * i];
      assert mb[j] == mb[8 * i..8 * i + 8][j - 8 * i];
    }
    BurstChangesCrc(a, b, 8 * k);
  }

  // ----- Parity: x + 1 divides the modulus -----

  /** Whether an odd number of the n highest coefficients is set. */
  predicate OddHigh(v: bv16, n: nat)
    decreases n
  {
    n != 0 && High(v) != OddHigh(Shl(v), n - 1)
  }

  predicate Odd(m: Bits) {
    m != [] && Odd(m[..|m| - 1]) != m[|m| - 1]
  }

  lemma {:induction false} OddHighXor(x: bv16, y: bv16, n: nat)
    ensures OddHigh(Xor(x, y), n) == (OddHigh(x, n) != OddHigh(y, n))
    decreases n
  {
    hide High, Shl, Xor;
    if n > 0 {
      HighOfXor(x, y);
      ShlOfXor(x, y);
      OddHighXor(Shl(x), Shl(y), n - 1);
    }
  }

  function ShlTo(v: bv16, n: nat): bv16
    decreases n
  {
    if n == 0 then v else ShlTo(Shl(v), n - 1)
  }

  lemma {:induction false} OddHighOneMore(v: bv16, n: nat)
    ensures OddHigh(v, n + 1) == (OddHigh(v, n) != High(ShlTo(v, n)))
    decreases n
  {
    hide High, Shl;
    if n > 0 {
      OddHighOneMore(Shl(v), n - 1);
    }
  }

  function LowMask(n: nat): bv16 {
    if n == 0 then 0 else Shl(LowMask(n - 1)) | 1
  }

  lemma ShiftClearsLow(v: bv16, m: bv16)
    requires v & m == 0
    ensures Shl(v) & (Shl(m) | 1) == 0
  {}

  lemma {:induction false} ShiftedIsClearBelow(v: bv16, n: nat)
    ensures ShlTo(v, n) & LowMask(n) == 0
    decreases n
  {
    hide Shl;
    if n == 0 {
      assert v & 0 == 0;
    } else {
      ShlToEnd(v, n - 1);
      ShiftedIsClearBelow(v, n - 1);
      ShiftClearsLow(ShlTo(v, n - 1), LowMask(n - 1));
    }
  }

  lemma {:induction false} ShlToEnd(v: bv16, n: nat)
    ensures ShlTo(v, n + 1) == Shl(ShlTo(v, n))
    decreases n
  {
    hide Shl;
    if n > 0 {
      ShlToEnd(Shl(v), n - 1);
    }
  }

  /** The sixteenth shift pushes the last bit out. */
  lemma LastBitShiftedOut(v: bv16)
    ensures !High(ShlTo(Shl(v), 15))
  {
    ShiftedIsClearBelow(v, 16);
    assert LowMask(4) == 0xf;
    assert LowMask(8) == 0xff;
    assert LowMask(12) == 0xfff;
    assert LowMask(16) == 0xffff;
    assert ShlTo(v, 16) == ShlTo(Shl(v), 15);
  }

  lemma OddConstants(b: bool)
    ensures OddHigh(0x1021, 16) && OddHigh(Bit(b, 1), 16) == b
  {
    assert OddHigh(0, 4) == OddHigh(0, 8) == OddHigh(0, 12) == OddHigh(0, 16) == false;
    assert OddHigh(0x8000, 4);
    assert OddHigh(0x1000, 7);
    assert OddHigh(0x200, 10);
    assert OddHigh(0x40, 13);
    assert OddHigh(0x8, 16);
  }

  lemma TimesXKeepsParity(v: bv16)
    ensures OddHigh(TimesX(v), 16) == OddHigh(v, 16)
  {
    hide High, Shl, Xor;
    LastBitShiftedOut(v);
    OddHighOneMore(Shl(v), 15);
    OddConstants(true);
    OddHighXor(Shl(v), 0x1021, 16);
  }

  lemma {:induction false} RemainderParity(m: Bits)
    ensures OddHigh(Remainder(m), 16) == Odd(m)
  {
    hide TimesX, Xor, OddHigh;
    OddConstants(false);
    if m != [] {
      var v, b := Remainder(m[..|m| - 1]), m[|m| - 1];
      RemainderParity(m[..|m| - 1]);
      TimesXKeepsParity(v);
      OddConstants(b);
      OddHighXor(TimesX(v), Bit(b, 1), 16);
    }
  }

  lemma {:induction false} OddOfPadded(m: Bits, n: nat)
    ensures Odd(m + Zeros(n)) == Odd(m)
    decreases n
  {
    var p := m + Zeros(n);
    if n == 0 {
      assert p == m;
    } else {
      assert p[..|p| - 1] == m + Zeros(n - 1);
      OddOfPadded(m, n - 1);
    }
  }

  /** Flipping any odd number of bits, wherever they are, changes the CRC. */
  lemma OddErrorChangesCrc(a: seq<bv8>, b: seq<bv8>)
    requires |a| == |b| && Odd(XorBits(MessageBits(a), MessageBits(b)))
    ensures Crc(a) != Crc(b)
  {
    hide Remainder, Xor, OddHigh;
    var x := XorBytes(a, b);
    MessageBitsOfXor(a, b);
    CrcLinear(a, b);
    CrcIsPolynomialRemainder(x);
    OddOfPadded(MessageBits(x), 16);
    RemainderParity(MessageBits(x) + Zeros(16));
    OddConstants(false);
    XorIdentities(Crc(a), Crc(b));
  }

  // ----- Residue -----

  function HighByte(r: bv16): bv8 {
    ((r >> 8) & 0xff) as bv8
  }

  function LowByte(r: bv16): bv8 {
    (r & 0xff) as bv8
  }

  lemma FirstResidueByte(r: bv16)
    ensures ByteStep(r, HighByte(r)) == r << 8
  {
    ByteStepIsEightTimesX(r, HighByte(r));
    RegisterHalves(r, HighByte(r));
    LowByteMovesUp(LowByte(r));
    assert HighByte(r) ^ HighByte(r) == 0;
    XorIdentities(0, LowByte(r) as bv16);
    XorIdentities(LowByte(r) as bv16, 0);
    hide EightTimesX, ByteStep, Xor;
  }

  lemma SecondResidueByte(r: bv16)
    ensures ByteStep(r << 8, LowByte(r)) == 0
  {
    ByteStepIsEightTimesX(r << 8, LowByte(r));
    assert Xor(r << 8, (LowByte(r) as bv16) << 8) == 0;
    assert EightTimesX(0) == 0;
    hide EightTimesX, ByteStep, Xor;
  }

  lemma CrcAppendTwo(r: bv16, s: seq<bv8>, h: bv8, l: bv8)
    ensures CrcFrom(r, s + [h, l]) == ByteStep(ByteStep(CrcFrom(r, s), h), l)
  {
    hide ByteStep;
    var one, two := s + [h], s + [h, l];
    assert one[..|one| - 1] == s && two[..|two| - 1] == one;
    assert CrcFrom(r, two) == ByteStep(CrcFrom(r, one), l);
  }

  /** A message followed by its CRC, high byte first, has CRC 0. */
  lemma ResidueIsZero(s: seq<bv8>)
    ensures Crc(s + [HighByte(Crc(s)), LowByte(Crc(s))]) == 0
  {
    hide ByteStep, HighByte, LowByte, CrcFrom;
    CrcAppendTwo(0, s, HighByte(Crc(s)), LowByte(Crc(s)));
    FirstResidueByte(Crc(s));
    SecondResidueByte(Crc(s));
  }

  // ----- Long division -----

  /** The modulus, 17 coefficients. */
  function Modulus(): (g: Bits)
    ensures |g| == 17
  {
    [true] + MessageBits([0x10, 0x21])
  }

  /** One line of the long division: cancel a leading coefficient, or step over a zero. */
  function CancelLead(d: Bits): (r: Bits)
    requires |d| > 16
    ensures |r| == |d| - 1
  {
    if d[0] then XorBits(d[..17], Modulus())[1..] + d[17..] else d[1..]
  }

  /** The remainder, as coefficients, of dividing a polynomial by the modulus. */
  function Divide(d: Bits): (r: Bits)
    ensures |r| == if |d| < 16 then |d| else 16
    decreases |d|
  {
    if |d| <= 16 then d else Divide(CancelLead(d))
  }

  lemma EightTimesXIsPower(r: bv16)
    ensures TimesXTo(r, 8) == EightTimesX(r)
  {
    hide TimesX;
    assert TimesXTo(r, 3) == TimesX(TimesX(TimesX(r)));
    assert TimesXTo(r, 6) == TimesX(TimesX(TimesX(TimesXTo(r, 3))));
  }

  lemma BytesOfRegister(r: bv16)
    ensures Xor((HighByte(r) as bv16) << 8, LowByte(r) as bv16) == r
  {}

  lemma TwoByteSteps(r: bv16)
    ensures ByteStep(ByteStep(0, HighByte(r)), LowByte(r)) == TimesXTo(r, 16)
  {
    hide EightTimesX, ByteStep, Xor, TimesXTo, HighByte, LowByte;
    var h, l := HighByte(r), LowByte(r);
    var h8, l8, l0 := (h as bv16) << 8, (l as bv16) << 8, l as bv16;
    ByteStepIsEightTimesX(0, h);
    XorIdentities(0, h8);
    XorIdentities(h8, 0);
    ByteStepIsEightTimesX(EightTimesX(h8), l);
    LowByteMovesUp(l);
    BytesOfRegister(r);
    EightTimesXLinear(EightTimesX(h8), EightTimesX(l0));
    EightTimesXLinear(EightTimesX(h8), l8);
    EightTimesXLinear(h8, l0);
    EightTimesXIsPower(r);
    EightTimesXIsPower(EightTimesX(r));
    TimesXToAdds(r, 8, 8);
  }

  lemma PowerInjective(x: bv16, y: bv16, n: nat)
    requires TimesXTo(x, n) == TimesXTo(y, n)
    ensures x == y
  {
    TimesXToLinear(x, y, n);
    XorIdentities(TimesXTo(x, n), 0);
    TimesXToInjective(Xor(x, y), n);
    XorCancels(x, y);
    XorIdentities(0, y);
    XorIdentities(y, 0);
    hide Xor, TimesX, TimesXTo;
  }

  /** Two bytes are a polynomial of degree below 16: they are their own remainder. */
  lemma TwoByteRemainder(r: bv16)
    ensures Remainder(MessageBits([HighByte(r), LowByte(r)])) == r
  {
    hide TimesX, Xor, Remainder, ByteStep, MessageBits, HighByte, LowByte, TimesXTo;
    var s := [HighByte(r), LowByte(r)];
    var m := Remainder(MessageBits(s));
    CrcIsBitSteps(0, s);
    BitStepsAreRemainderShifted(MessageBits(s));
    assert [] + s == s;
    CrcAppendTwo(0, [], HighByte(r), LowByte(r));
    TwoByteSteps(r);
    PowerInjective(m, r, 16);
  }

  lemma ModulusVanishes(n: nat)
    ensures Remainder(Modulus() + Zeros(n)) == 0
  {
    assert HighByte(0x1021) == 0x10 && LowByte(0x1021) == 0x21;
    TwoByteRemainder(0x1021);
    assert Remainder([true]) == 1 by {
      assert [true][..0] == [];
      assert TimesX(0) == 0 && Xor(0, 1) == 1;
    }
    assert TimesX(0x8000) == 0x1021;
    hide TimesX, Xor, MessageBits, Remainder, HighByte, LowByte;
    TopOfOne();
    RemainderSplit([true], MessageBits([0x10, 0x21]));
    XorIdentities(0x1021, 0x1021);
    RemainderOfPadded(Modulus(), n);
    TimesXToInjective(0, n);
  }

  lemma CancelLeadKeepsRemainder(d: Bits)
    requires |d| > 16
    ensures Remainder(CancelLead(d)) == Remainder(d)
  {
    CancelLeadAddsModulus(d);
    hide Xor, Remainder, MessageBits, Modulus, CancelLead, XorBits;
    var r := CancelLead(d);
    LeadingZeros(r, 1);
    if d[0] {
      var g := Modulus() + Zeros(|d| - 17);
      ModulusVanishes(|d| - 17);
      RemainderLinear(g, d);
      XorIdentities(0, Remainder(d));
      XorIdentities(Remainder(d), 0);
    }
  }

  lemma CancelLeadAddsModulus(d: Bits)
    requires |d| > 16
    ensures Zeros(1) + CancelLead(d) == if d[0] then XorBits(Modulus() + Zeros(|d| - 17), d) else d
  {
    hide MessageBits;
  }

  lemma {:induction false} DivideKeepsRemainder(d: Bits)
    ensures Remainder(Divide(d)) == Remainder(d)
    decreases |d|
  {
    hide CancelLead, Remainder;
    if |d| > 16 {
      CancelLeadKeepsRemainder(d);
      DivideKeepsRemainder(CancelLead(d));
    }
  }

  lemma ShortRemaindersDistinct(a: Bits, b: Bits)
    requires |a| == |b| <= 16 && Remainder(a) == Remainder(b)
    ensures a == b
  {
    hide Xor, Remainder;
    RemainderLinear(a, b);
    XorIdentities(Remainder(a), 0);
    ShortRemainder(XorBits(a, b));
    forall i | 0 <= i < |a|
      ensures a[i] == b[i]
    {
      assert !XorBits(a, b)[i];
    }
  }

  /** The two CRC bytes are exactly what long division of the message, extended by sixteen zero
      bits, leaves over. */
  lemma CrcIsLongDivision(s: seq<bv8>)
    ensures Divide(MessageBits(s) + Zeros(16)) == MessageBits([HighByte(Crc(s)), LowByte(Crc(s))])
  {
    hide Remainder, HighByte, LowByte, Divide;
    CrcIsPolynomialRemainder(s);
    DivideKeepsRemainder(MessageBits(s) + Zeros(16));
    TwoByteRemainder(Crc(s));
    ShortRemaindersDistinct(Divide(MessageBits(s) + Zeros(16)), MessageBits([HighByte(Crc(s)), LowByte(Crc(s))]));
  }
}
