/** Arithmetic on bytes as elements of GF(2^8), section 4 of FIPS 197.
    `Xtime` and `Multiply` are the two helpers the cipher uses; `FieldMul` is the
    definition they are measured against: polynomial products reduced modulo
    x^8 + x^4 + x^3 + x + 1. */
module Gf256 {

  function Xtime(x: bv8): bv8 {
    (x << 1) ^ (((x >> 7) & 1) * 0x1b)
  }

  /** The multiplication macro: five bits of `y` only. */
  function Multiply(x: bv8, y: bv8): bv8 {
    ((y & 1) * x) ^
    (((y >> 1) & 1) * Xtime(x)) ^
    (((y >> 2) & 1) * Xtime(Xtime(x))) ^
    (((y >> 3) & 1) * Xtime(Xtime(Xtime(x)))) ^
    (((y >> 4) & 1) * Xtime(Xtime(Xtime(Xtime(x)))))
  }

  // ----- Field addition -----

  /** Addition is the exclusive or of two bytes. */
  function Add(x: bv8, y: bv8): bv8 {
    x ^ y
  }

  function Sum3(x: bv8, y: bv8, z: bv8): bv8 {
    x ^ y ^ z
  }

  function Sum4(x: bv8, y: bv8, z: bv8, w: bv8): bv8 {
    x ^ y ^ z ^ w
  }

  lemma SumsAreAdditions(x: bv8, y: bv8, z: bv8, w: bv8)
    ensures Sum3(x, y, z) == Add(Add(x, y), z)
    ensures Sum4(x, y, z, w) == Add(Add(Add(x, y), z), w)
  {}

  // ----- Reference: polynomials over GF(2), bit k being the coefficient of x^k -----

  /** One step of long division: cancel the term `lead` with the multiple `g` of the modulus. */
  function Cancel(p: bv16, lead: bv16, g: bv16): bv16 {
    if p & lead != 0 then p ^ g else p
  }

  /** Remainder of a polynomial of degree at most 14 modulo 0x11b. */
  function Reduce(p: bv16): bv16 {
    Cancel(Cancel(Cancel(Cancel(Cancel(Cancel(Cancel(p,
      0x4000, 0x46c0), 0x2000, 0x2360), 0x1000, 0x11b0), 0x0800, 0x08d8),
      0x0400, 0x046c), 0x0200, 0x0236), 0x0100, 0x011b)
  }

  /** The product of `x` and the monomial x^k in the field. */
  function TimesMonomial(x: bv8, k: nat): bv8
    requires k < 8
  {
    (Reduce((x as bv16) << k) & 0xff) as bv8
  }

  function Pick(bit: bool, t: bv8): bv8 {
    if bit then t else 0
  }

  /** Sum of those of t0..t4 whose bit is set in `y`. */
  function LowSum(y: bv8, t0: bv8, t1: bv8, t2: bv8, t3: bv8, t4: bv8): bv8 {
    Pick(y & 1 == 1, t0) ^ Pick((y >> 1) & 1 == 1, t1) ^ Pick((y >> 2) & 1 == 1, t2) ^
    Pick((y >> 3) & 1 == 1, t3) ^ Pick((y >> 4) & 1 == 1, t4)
  }

  /** Field product: the monomials of `y`, each times `x` modulo 0x11b, summed. */
  function FieldMul(x: bv8, y: bv8): bv8 {
    LowSum(y, TimesMonomial(x, 0), TimesMonomial(x, 1), TimesMonomial(x, 2),
           TimesMonomial(x, 3), TimesMonomial(x, 4)) ^
    Pick((y >> 5) & 1 == 1, TimesMonomial(x, 5)) ^
    Pick((y >> 6) & 1 == 1, TimesMonomial(x, 6)) ^
    Pick((y >> 7) & 1 == 1, TimesMonomial(x, 7))
  }

  // ----- Multiply is field multiplication -----

  lemma XtimeLinear(x: bv8, y: bv8)
    ensures Xtime(Add(x, y)) == Add(Xtime(x), Xtime(y))
  {}

  lemma XtimeOfSums(x: bv8, y: bv8, z: bv8, w: bv8)
    ensures Xtime(Sum3(x, y, z)) == Sum3(Xtime(x), Xtime(y), Xtime(z))
    ensures Xtime(Sum4(x, y, z, w)) == Sum4(Xtime(x), Xtime(y), Xtime(z), Xtime(w))
  {
    SumsAreAdditions(x, y, z, w);
    SumsAreAdditions(Xtime(x), Xtime(y), Xtime(z), Xtime(w));
    hide Xtime, Add, Sum3, Sum4;
    XtimeLinear(x, y);
    XtimeLinear(Add(x, y), z);
    XtimeLinear(Add(Add(x, y), z), w);
  }

  lemma XtimeIsTimesX(x: bv8)
    ensures TimesMonomial(x, 0) == x && TimesMonomial(x, 1) == Xtime(x)
  {}

  lemma XtimeSquared(x: bv8)
    ensures TimesMonomial(x, 2) == Xtime(Xtime(x))
  {}

  lemma XtimeCubed(x: bv8)
    ensures TimesMonomial(x, 3) == Xtime(Xtime(Xtime(x)))
  {}

  lemma XtimeFourth(x: bv8)
    ensures TimesMonomial(x, 4) == Xtime(Xtime(Xtime(Xtime(x))))
  {}

  lemma MonomialsArePowers(x: bv8)
    ensures TimesMonomial(x, 0) == x && TimesMonomial(x, 1) == Xtime(x)
    ensures TimesMonomial(x, 2) == Xtime(Xtime(x))
    ensures TimesMonomial(x, 3) == Xtime(Xtime(Xtime(x)))
    ensures TimesMonomial(x, 4) == Xtime(Xtime(Xtime(Xtime(x))))
  {
    XtimeIsTimesX(x);
    XtimeSquared(x);
    XtimeCubed(x);
    XtimeFourth(x);
  }

  lemma BitTimes(b: bv8, t: bv8)
    requires b == 0 || b == 1
    ensures b * t == Pick(b == 1, t)
  {
    if b == 0 {
      assert 0 * t == 0;
    } else {
      assert 1 * t == t;
    }
  }

  lemma LowBits(y: bv8)
    ensures y & 1 == 0 || y & 1 == 1
    ensures (y >> 1) & 1 == 0 || (y >> 1) & 1 == 1
    ensures (y >> 2) & 1 == 0 || (y >> 2) & 1 == 1
    ensures (y >> 3) & 1 == 0 || (y >> 3) & 1 == 1
    ensures (y >> 4) & 1 == 0 || (y >> 4) & 1 == 1
  {}

  lemma MultiplyIsLowSum(x: bv8, y: bv8)
    ensures Multiply(x, y) == LowSum(y, x, Xtime(x), Xtime(Xtime(x)), Xtime(Xtime(Xtime(x))),
                                     Xtime(Xtime(Xtime(Xtime(x)))))
  {
    hide Pick, Xtime;
    LowBits(y);
    BitTimes(y & 1, x);
    BitTimes((y >> 1) & 1, Xtime(x));
    BitTimes((y >> 2) & 1, Xtime(Xtime(x)));
    BitTimes((y >> 3) & 1, Xtime(Xtime(Xtime(x))));
    BitTimes((y >> 4) & 1, Xtime(Xtime(Xtime(Xtime(x)))));
  }

  /** The macro agrees with the field product for every constant of five bits. */
  lemma MultiplyIsFieldProduct(x: bv8, y: bv8)
    requires y < 32
    ensures Multiply(x, y) == FieldMul(x, y)
  {
    MonomialsArePowers(x);
    MultiplyIsLowSum(x, y);
    hide LowSum, TimesMonomial, Multiply, Xtime;
    assert (y >> 5) & 1 == 0 && (y >> 6) & 1 == 0 && (y >> 7) & 1 == 0;
  }

  /** ... and for no others: the bits above the fifth are dropped. */
  lemma MultiplyDropsHighBits(x: bv8, y: bv8)
    ensures Multiply(x, y) == FieldMul(x, y & 0x1f)
  {
    hide Xtime, FieldMul;
    assert (y & 0x1f) & 1 == y & 1;
    assert ((y & 0x1f) >> 1) & 1 == (y >> 1) & 1;
    assert ((y & 0x1f) >> 2) & 1 == (y >> 2) & 1;
    assert ((y & 0x1f) >> 3) & 1 == (y >> 3) & 1;
    assert ((y & 0x1f) >> 4) & 1 == (y >> 4) & 1;
    MultiplyIsFieldProduct(x, y & 0x1f);
  }

  // ----- The constants of the column mixes, in powers of Xtime -----

  lemma FieldMul2(x: bv8)
    ensures FieldMul(x, 0x02) == Xtime(x)
  {
    MonomialsArePowers(x);
    hide TimesMonomial, Xtime;
  }

  lemma FieldMul3(x: bv8)
    ensures FieldMul(x, 0x03) == Add(Xtime(x), x)
  {
    MonomialsArePowers(x);
    hide TimesMonomial, Xtime;
  }

  lemma FieldMul9(x: bv8)
    ensures FieldMul(x, 0x09) == Add(Xtime(Xtime(Xtime(x))), x)
  {
    MonomialsArePowers(x);
    hide TimesMonomial, Xtime;
  }

  lemma FieldMulB(x: bv8)
    ensures FieldMul(x, 0x0b) == Sum3(Xtime(Xtime(Xtime(x))), Xtime(x), x)
  {
    MonomialsArePowers(x);
    hide TimesMonomial, Xtime;
  }

  lemma FieldMulD(x: bv8)
    ensures FieldMul(x, 0x0d) == Sum3(Xtime(Xtime(Xtime(x))), Xtime(Xtime(x)), x)
  {
    MonomialsArePowers(x);
    hide TimesMonomial, Xtime;
  }

  lemma FieldMulE(x: bv8)
    ensures FieldMul(x, 0x0e) == Sum3(Xtime(Xtime(Xtime(x))), Xtime(Xtime(x)), Xtime(x))
  {
    MonomialsArePowers(x);
    hide TimesMonomial, Xtime;
  }
}
