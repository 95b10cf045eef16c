/** Errors of single bits: how far apart two flipped bits can be before the CRC misses them. The
    answer is the order of x modulo x^16 + x^12 + x^5 + 1, which is 32767. */
module CrcBitErrors {
  import opened Crc16
  import opened CrcTheory

  const ORDER := 32767

  /** x^n modulo the modulus. */
  function Power(n: nat): bv16 {
    TimesXTo(1, n)
  }

  // ----- Products, to get at high powers quickly -----

  /** One line of Horner's rule: the next coefficient of v decides whether p is added. */
  function Step(acc: bv16, v: bv16, p: bv16): bv16 {
    Xor(TimesX(acc), Bit(High(v), p))
  }

  function FourSteps(acc: bv16, v: bv16, p: bv16): bv16 {
    Step(Step(Step(Step(acc, v, p), Shl(v), p), Shl(Shl(v)), p), Shl(Shl(Shl(v))), p)
  }

  function ShlFour(v: bv16): bv16 {
    Shl(Shl(Shl(Shl(v))))
  }

  function Product(v: bv16, p: bv16): bv16 {
    var v4 := ShlFour(v);
    var v8 := ShlFour(v4);
    FourSteps(FourSteps(FourSteps(FourSteps(0, v, p), v4, p), v8, p), ShlFour(v8), p)
  }

  lemma StepTimesPower(u: bv16, v: bv16, b: nat)
    ensures Step(TimesXTo(u, b), v, Power(b)) == TimesXTo(Step(u, v, 1), b)
  {
    hide TimesX, Xor, High;
    TimesXToAdds(u, 1, b);
    assert TimesXTo(u, 1) == TimesX(TimesXTo(u, 0));
    assert TimesXTo(u, b + 1) == TimesX(TimesXTo(u, b));
    TimesXToLinear(TimesX(u), Bit(High(v), 1), b);
    TimesXToInjective(0, b);
  }

  lemma FourStepsTimesPower(u: bv16, v: bv16, b: nat)
    ensures FourSteps(TimesXTo(u, b), v, Power(b)) == TimesXTo(FourSteps(u, v, 1), b)
  {
    hide Step, Shl, TimesXTo, Power;
    var v1, v2, v3 := Shl(v), Shl(Shl(v)), Shl(Shl(Shl(v)));
    var u1 := Step(u, v, 1);
    var u2 := Step(u1, v1, 1);
    StepTimesPower(u, v, b);
    StepTimesPower(u1, v1, b);
    StepTimesPower(u2, v2, b);
    StepTimesPower(Step(u2, v2, 1), v3, b);
  }

  function TopFour(v: bv16): bv16 { v >> 12 }

  function TopEight(v: bv16): bv16 { v >> 8 }

  function TopTwelve(v: bv16): bv16 { v >> 4 }

  lemma FirstFourByOne(v: bv16)
    ensures FourSteps(0, v, 1) == TopFour(v)
  {}

  lemma SecondFourByOne(v: bv16)
    ensures FourSteps(TopFour(v), ShlFour(v), 1) == TopEight(v)
  {}

  lemma ThirdFourByOne(v: bv16)
    ensures FourSteps(TopEight(v), ShlFour(ShlFour(v)), 1) == TopTwelve(v)
  {}

  lemma LastFourByOne(v: bv16)
    ensures FourSteps(TopTwelve(v), ShlFour(ShlFour(ShlFour(v))), 1) == v
  {}

  lemma ProductByOne(v: bv16)
    ensures Product(v, 1) == v
  {
    hide FourSteps, ShlFour, TopFour, TopEight, TopTwelve;
    FirstFourByOne(v);
    SecondFourByOne(v);
    ThirdFourByOne(v);
    LastFourByOne(v);
  }

  lemma ProductTimesPower(v: bv16, b: nat)
    ensures Product(v, Power(b)) == TimesXTo(v, b)
  {
    hide FourSteps, ShlFour, TimesXTo, Power;
    var v4 := ShlFour(v);
    var v8 := ShlFour(v4);
    var u1 := FourSteps(0, v, 1);
    var u2 := FourSteps(u1, v4, 1);
    var u3 := FourSteps(u2, v8, 1);
    TimesXToInjective(0, b);
    FourStepsTimesPower(0, v, b);
    FourStepsTimesPower(u1, v4, b);
    FourStepsTimesPower(u2, v8, b);
    FourStepsTimesPower(u3, ShlFour(v8), b);
    ProductByOne(v);
  }

  lemma PowerAdds(a: nat, b: nat)
    ensures Power(a + b) == Product(Power(a), Power(b))
  {
    hide Product, TimesX;
    TimesXToAdds(1, a, b);
    ProductTimesPower(Power(a), b);
  }

  // ----- The powers that decide the order -----

  lemma PowersOfTwo()
    ensures Power(1) == 2
    ensures Power(2) == 0x0004
    ensures Power(4) == 0x0010
    ensures Power(8) == 0x0100
    ensures Power(16) == 0x1021
    ensures Power(32) == 0x3730
    ensures Power(64) == 0xb861
    ensures Power(128) == 0xaefc
    ensures Power(256) == 0x8e29
    ensures Power(512) == 0x13fc
    ensures Power(1024) == 0x36c4
    ensures Power(2048) == 0xfd50
    ensures Power(4096) == 0xaa9e
    ensures Power(8192) == 0x881c
    ensures Power(16384) == 0x4458
    ensures Power(32768) == 0x0002
  {
    hide Product, TimesX, Power;
    FirstPower();
    PowerAdds(1, 1);
    PowerAdds(2, 2);
    PowerAdds(4, 4);
    PowerAdds(8, 8);
    PowerAdds(16, 16);
    PowerAdds(32, 32);
    PowerAdds(64, 64);
    PowerAdds(128, 128);
    PowerAdds(256, 256);
    PowerAdds(512, 512);
    PowerAdds(1024, 1024);
    PowerAdds(2048, 2048);
    PowerAdds(4096, 4096);
    PowerAdds(8192, 8192);
    PowerAdds(16384, 16384);
    FirstSquares();
    SecondSquares();
    ThirdSquares();
    FourthSquares();
    FifthSquares();
  }

  lemma FirstPower()
    ensures Power(1) == 2
  {
    assert TimesX(TimesXTo(1, 0)) == 2;
  }

  lemma FirstSquares()
    ensures Product(0x0002, 0x0002) == 0x0004
    ensures Product(0x0004, 0x0004) == 0x0010
    ensures Product(0x0010, 0x0010) == 0x0100
  {}

  lemma SecondSquares()
    ensures Product(0x0100, 0x0100) == 0x1021
    ensures Product(0x1021, 0x1021) == 0x3730
    ensures Product(0x3730, 0x3730) == 0xb861
  {}

  lemma ThirdSquares()
    ensures Product(0xb861, 0xb861) == 0xaefc
    ensures Product(0xaefc, 0xaefc) == 0x8e29
    ensures Product(0x8e29, 0x8e29) == 0x13fc
  {}

  lemma FourthSquares()
    ensures Product(0x13fc, 0x13fc) == 0x36c4
    ensures Product(0x36c4, 0x36c4) == 0xfd50
    ensures Product(0xfd50, 0xfd50) == 0xaa9e
  {}

  lemma FifthSquares()
    ensures Product(0xaa9e, 0xaa9e) == 0x881c
    ensures Product(0x881c, 0x881c) == 0x4458
    ensures Product(0x4458, 0x4458) == 0x0002
  {}

  // 32767 is 7 * 31 * 151, and none of the three numbers one gets by leaving out a prime is a period.

  lemma Power217()
    ensures Power(217) != 1
  {
    hide Product, TimesX, Power;
    PowersOfTwo();
    PowerAdds(128, 64);
    PowerAdds(192, 16);
    PowerAdds(208, 8);
    PowerAdds(216, 1);
    Products217();
  }

  lemma Products217()
    ensures Product(0xaefc, 0xb861) == 0x650b
    ensures Product(0x650b, 0x1021) == 0x45b4
    ensures Product(0x45b4, 0x0100) == 0xac61
    ensures Product(0xac61, 0x0002) == 0x48e3
  {}

  lemma Power1057()
    ensures Power(1057) != 1
  {
    hide Product, TimesX, Power;
    PowersOfTwo();
    PowerAdds(1024, 32);
    PowerAdds(1056, 1);
    Products1057();
  }

  lemma Products1057()
    ensures Product(0x36c4, 0x3730) == 0xf147
    ensures Product(0xf147, 0x0002) == 0xf2af
  {}

  lemma Power4681()
    ensures Power(4681) != 1
  {
    hide Product, TimesX, Power;
    PowersOfTwo();
    PowerAdds(4096, 512);
    PowerAdds(4608, 64);
    PowerAdds(4672, 8);
    PowerAdds(4680, 1);
    Products4681();
  }

  lemma Products4681()
    ensures Product(0xaa9e, 0x13fc) == 0x54a0
    ensures Product(0x54a0, 0xb861) == 0x0106
    ensures Product(0x0106, 0x0100) == 0x1621
    ensures Product(0x1621, 0x0002) == 0x2c42
  {}

  lemma PowerOfOrder()
    ensures Power(ORDER) == 1
  {
    hide Product, TimesX, TimesXTo;
    PowersOfTwo();
    TimesXToAdds(1, ORDER, 1);
    TimesXToAdds(1, 0, 1);
    PowerZero();
    PowerInjective(Power(ORDER), 1, 1);
  }

  lemma PowerZero()
    ensures Power(0) == 1
  {}

  // ----- Periods -----

  lemma {:induction false} MultipleOfPeriod(b: nat, k: nat)
    requires Power(b) == 1
    ensures Power(b * k) == 1
    decreases k
  {
    hide TimesX, TimesXTo;
    if k == 0 {
      PowerZero();
    } else {
      MultipleOfPeriod(b, k - 1);
      TimesXToAdds(1, b * (k - 1), b);
      assert b * (k - 1) + b == b * k;
    }
  }

  /** What is left of one period after another has been taken from it as often as it goes is a
      period as well. */
  lemma RemainderOfPeriod(a: nat, b: nat)
    requires 0 < b && Power(a) == 1 && Power(b) == 1
    ensures Power(a % b) == 1
  {
    hide TimesX, TimesXTo;
    MultipleOfPeriod(b, a / b);
    TimesXToAdds(1, b * (a / b), a % b);
    assert b * (a / b) + a % b == a;
  }

  /** Euclid's algorithm: a common divisor that is a combination of the two, and a period if both are. */
  lemma {:induction false} CommonDivisor(a: nat, b: nat) returns (g: nat, p: nat, q: nat, u: int, v: int)
    requires 0 < a
    ensures 0 < g && a == g * p && b == g * q && g == u * a + v * b
    ensures Power(a) == 1 && Power(b) == 1 ==> Power(g) == 1
    decreases b
  {
    hide Power;
    if b == 0 {
      g, p, q, u, v := a, 1, 0, 1, 0;
    } else {
      if Power(a) == 1 && Power(b) == 1 {
        RemainderOfPeriod(a, b);
      }
      var d, r, s, t := a / b, 0, 0, 0;
      g, q, r, s, t := CommonDivisor(b, a % b);
      p, u, v := q * d + r, t, s - t * d;
      assert g * p == (g * q) * d + g * r;
      assert u * a + v * b == t * (a - d * b) + s * b;
    }
  }

  lemma NoSmallFactor(n: nat, s: nat, t: nat)
    requires n == 7 || n == 31 || n == 151
    requires n == s * t && 2 <= s <= 12
    ensures s == n
  {
    assert s == 2 ==> n == 2 * t;
    assert s == 3 ==> n == 3 * t;
    assert s == 4 ==> n == 4 * t;
    assert s == 5 ==> n == 5 * t;
    assert s == 6 ==> n == 6 * t;
    assert s == 7 ==> n == 7 * t;
    assert s == 8 ==> n == 8 * t;
    assert s == 9 ==> n == 9 * t;
    assert s == 10 ==> n == 10 * t;
    assert s == 11 ==> n == 11 * t;
    assert s == 12 ==> n == 12 * t;
  }

  lemma ProductBounds(d: nat, e: nat)
    ensures d == 0 || e == 0 ==> d * e == 0
    ensures 13 <= d && 13 <= e ==> d * e >= 169
    ensures 0 < d && 0 < e ==> d * e >= d && d * e >= e
  {
    if 13 <= d && 13 <= e {
      assert d * e >= 13 * e;
    }
    if 0 < d && 0 < e {
      assert d * e == d + d * (e - 1) && d * e == e + (d - 1) * e;
    }
  }

  lemma PrimeFactors(n: nat, d: nat, e: nat)
    requires n == 7 || n == 31 || n == 151
    requires n == d * e
    ensures d == 1 || d == n
  {
    ProductBounds(d, e);
    if 2 <= d <= 12 {
      NoSmallFactor(n, d, e);
    } else if 2 <= e <= 12 {
      assert e * d == n;
      NoSmallFactor(n, e, d);
    }
  }

  /** A prime that divides a product divides one of its factors. */
  lemma PrimeDivides(n: nat, m: nat, g: nat, p: nat)
    requires n == 7 || n == 31 || n == 151
    requires g * p == n * m && 0 < p
    ensures g % n == 0 || p % n == 0
  {
    var d, k, e, u, v := CommonDivisor(p, n);
    PrimeFactors(n, d, e);
    if d == n {
      assert p == n * k;
      MultipleIsZero(n, k);
    } else {
      assert g == g * (u * p + v * n) == u * (g * p) + (g * v) * n == u * (n * m) + (g * v) * n
          == n * (u * m + g * v);
      MultipleIsZero(n, u * m + g * v);
    }
  }

  lemma MultipleIsZero(n: nat, k: int)
    requires n == 7 || n == 31 || n == 151
    ensures (n * k) % n == 0
  {}

  lemma NoProperPeriod(g: nat, p: nat)
    requires g * p == ORDER && Power(g) == 1
    ensures g == ORDER
  {
    hide Power;
    ProductBounds(g, p);
    PrimeDivides(7, 4681, g, p);
    PrimeDivides(31, 1057, g, p);
    PrimeDivides(151, 217, g, p);
    if p % 7 == 0 {
      var k := p / 7;
      assert p == 7 * k && g * p == 7 * (g * k);
      MultipleOfPeriod(g, k);
      Power4681();
    } else if p % 31 == 0 {
      var k := p / 31;
      assert p == 31 * k && g * p == 31 * (g * k);
      MultipleOfPeriod(g, k);
      Power1057();
    } else if p % 151 == 0 {
      var k := p / 151;
      assert p == 151 * k && g * p == 151 * (g * k);
      MultipleOfPeriod(g, k);
      Power217();
    } else {
      AllThree(g, p);
    }
  }

  lemma AllThree(g: nat, p: nat)
    requires g % 7 == 0 && g % 31 == 0 && g % 151 == 0 && g * p == ORDER
    ensures g == ORDER
  {
    var a, b, c := g / 7, g / 31, g / 151;
    assert g == 63 * g - 62 * g == 217 * (9 * b - 2 * a);
    var d := 9 * b - 2 * a;
    assert g == 29295 * g - 29294 * g == ORDER * (135 * c - 194 * d);
    ProductBounds(g, p);
  }

  /** x^n is 1 exactly for the multiples of 32767. */
  lemma PeriodExactlyIf(n: nat)
    ensures Power(n) == 1 <==> n % ORDER == 0
  {
    hide Power;
    PowerOfOrder();
    if n % ORDER == 0 {
      MultipleOfPeriod(ORDER, n / ORDER);
      assert ORDER * (n / ORDER) == n;
    } else if Power(n) == 1 {
      RemainderOfPeriod(n, ORDER);
      var g, p, q, u, v := CommonDivisor(ORDER, n % ORDER);
      NoProperPeriod(g, p);
      ProductBounds(ORDER, q);
    }
  }

  // ----- Flipped bits -----

  lemma TwoBitsRemainder(m: Bits, i: nat, j: nat)
    requires i < j < |m| && forall k | 0 <= k < |m| :: m[k] <==> k == i || k == j
    ensures Remainder(m) == TimesXTo(Xor(Power(j - i), 1), |m| - 1 - j)
  {
    hide TimesX, Xor, TimesXTo, Remainder;
    var d, n := j - i, |m| - 1 - j;
    var first: Bits := [true];
    var core := first + Zeros(d - 1) + first;
    assert m == Zeros(i) + (core + Zeros(n));
    LeadingZeros(core + Zeros(n), i);
    RemainderOfPadded(core, n);
    RemainderOfOne();
    RemainderOfPadded(first, d - 1);
    RemainderSplit(first + Zeros(d - 1), first);
    TimesXToAdds(1, d - 1, 1);
  }

  lemma RemainderOfOne()
    ensures Remainder([true]) == 1
  {
    assert [true][..0] == [];
    assert TimesX(0) == 0 && Xor(0, 1) == 1;
  }

  /** Two flipped bits change the CRC exactly if their distance is not a multiple of 32767. */
  lemma TwoBitsChangeCrcExactlyIf(a: seq<bv8>, b: seq<bv8>, i: nat, j: nat)
    requires |a| == |b| && i < j < 8 * |a|
    requires forall k | 0 <= k < 8 * |a| :: MessageBits(a)[k] != MessageBits(b)[k] <==> k == i || k == j
    ensures Crc(a) != Crc(b) <==> (j - i) % ORDER != 0
  {
    hide Xor, Remainder, TimesXTo, MessageBits, TimesX;
    var x := XorBytes(a, b);
    var m := MessageBits(x) + Zeros(16);
    MessageBitsOfXor(a, b);
    CrcLinear(a, b);
    CrcIsPolynomialRemainder(x);
    TwoBitsRemainder(m, i, j);
    TimesXToInjective(Xor(Power(j - i), 1), |m| - 1 - j);
    XorIsZero(Crc(a), Crc(b));
    XorIsZero(Power(j - i), 1);
    PeriodExactlyIf(j - i);
  }

  lemma XorIsZero(a: bv16, b: bv16)
    ensures Xor(a, b) == 0 <==> a == b
  {
    hide Xor;
    XorIdentities(a, b);
    XorIdentities(0, b);
    XorIdentities(b, 0);
    XorCancels(a, b);
  }

  function Ones(m: Bits): nat {
    if m == [] then 0 else Ones(m[..|m| - 1]) + if m[|m| - 1] then 1 else 0
  }

  lemma {:induction false} OddIfOnes(m: Bits)
    ensures Odd(m) <==> Ones(m) % 2 == 1
  {
    if m != [] {
      OddIfOnes(m[..|m| - 1]);
    }
  }

  lemma {:induction false} NoOnes(m: Bits)
    requires Ones(m) == 0
    ensures forall k | 0 <= k < |m| :: !m[k]
  {
    if m != [] {
      NoOnes(m[..|m| - 1]);
    }
  }

  lemma {:induction false} OneOne(m: Bits) returns (i: nat)
    requires Ones(m) == 1
    ensures i < |m| && forall k | 0 <= k < |m| :: m[k] <==> k == i
  {
    var n := |m| - 1;
    if m[n] {
      NoOnes(m[..n]);
      i := n;
    } else {
      i := OneOne(m[..n]);
    }
  }

  lemma {:induction false} TwoOnes(m: Bits) returns (i: nat, j: nat)
    requires Ones(m) == 2
    ensures i < j < |m| && forall k | 0 <= k < |m| :: m[k] <==> k == i || k == j
  {
    var n := |m| - 1;
    if m[n] {
      i := OneOne(m[..n]);
      j := n;
    } else {
      i, j := TwoOnes(m[..n]);
    }
  }

  /** Any one, two or three flipped bits change the CRC of a buffer of up to 4095 bytes. */
  lemma ThreeBitErrorsChangeCrc(a: seq<bv8>, b: seq<bv8>)
    requires |a| == |b| <= 4095 && 1 <= Ones(XorBits(MessageBits(a), MessageBits(b))) <= 3
    ensures Crc(a) != Crc(b)
  {
    hide MessageBits, Ones, Crc;
    var e := XorBits(MessageBits(a), MessageBits(b));
    OddIfOnes(e);
    if Ones(e) == 2 {
      var i, j := TwoOnes(e);
      assert forall k | 0 <= k < |e| :: e[k] <==> MessageBits(a)[k] != MessageBits(b)[k];
      TwoBitsChangeCrcExactlyIf(a, b, i, j);
    } else {
      OddErrorChangesCrc(a, b);
    }
  }
}
