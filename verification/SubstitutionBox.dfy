/** Where the substitution box comes from: section 5.1.1 of FIPS 197 takes the multiplicative
    inverse of a byte in GF(2^8), 0 standing for its own, and then an affine map over GF(2). */
module SubstitutionBox {
  import opened Gf256
  import opened AesTables

  function RotateLeft(b: bv8, n: bv8): bv8
    requires n < 8
  {
    (b << n) | (b >> (8 - n))
  }

  function Affine(b: bv8): bv8 {
    b ^ RotateLeft(b, 1) ^ RotateLeft(b, 2) ^ RotateLeft(b, 3) ^ RotateLeft(b, 4) ^ 0x63
  }

  function InvAffine(s: bv8): bv8 {
    RotateLeft(s, 1) ^ RotateLeft(s, 3) ^ RotateLeft(s, 6) ^ 0x05
  }

  lemma AffineInverse(b: bv8)
    ensures InvAffine(Affine(b)) == b && Affine(InvAffine(b)) == b
  {}

  // ----- The field product by repeated doubling -----

  /** Xtime, written without a multiplication of bytes. */
  function Double(x: bv8): bv8 {
    if x & 0x80 != 0 then (x << 1) ^ 0x1b else x << 1
  }

  function SumOf(y: bv8, t0: bv8, t1: bv8, t2: bv8, t3: bv8, t4: bv8, t5: bv8, t6: bv8, t7: bv8): bv8 {
    LowSum(y, t0, t1, t2, t3, t4) ^
    Pick((y >> 5) & 1 == 1, t5) ^ Pick((y >> 6) & 1 == 1, t6) ^ Pick((y >> 7) & 1 == 1, t7)
  }

  function Product(x: bv8, y: bv8): bv8 {
    var t1 := Double(x);
    var t2 := Double(t1);
    var t3 := Double(t2);
    var t4 := Double(t3);
    var t5 := Double(t4);
    var t6 := Double(t5);
    SumOf(y, x, t1, t2, t3, t4, t5, t6, Double(t6))
  }

  lemma DoubleIsXtime(x: bv8)
    ensures Double(x) == Xtime(x)
  {}

  lemma FifthMonomial(x: bv8)
    ensures TimesMonomial(x, 5) == Xtime(Xtime(Xtime(Xtime(Xtime(x)))))
  {}

  lemma SixthMonomial(x: bv8)
    ensures TimesMonomial(x, 6) == Xtime(Xtime(Xtime(Xtime(Xtime(Xtime(x))))))
  {}

  lemma SeventhMonomial(x: bv8)
    ensures TimesMonomial(x, 7) == Xtime(Xtime(Xtime(Xtime(Xtime(Xtime(Xtime(x)))))))
  {}

  lemma ProductIsFieldMul(x: bv8, y: bv8)
    ensures Product(x, y) == FieldMul(x, y)
  {
    hide LowSum, Pick, TimesMonomial, Xtime, Double;
    var t1 := Double(x);
    var t2 := Double(t1);
    var t3 := Double(t2);
    var t4 := Double(t3);
    var t5 := Double(t4);
    var t6 := Double(t5);
    MonomialsArePowers(x);
    FifthMonomial(x);
    SixthMonomial(x);
    SeventhMonomial(x);
    DoubleIsXtime(x);
    DoubleIsXtime(t1);
    DoubleIsXtime(t2);
    DoubleIsXtime(t3);
    DoubleIsXtime(t4);
    DoubleIsXtime(t5);
    DoubleIsXtime(t6);
  }

  // ----- The table, eight entries at a time -----

  /** The byte whose affine image the table holds. */
  function Inverted(x: bv8): bv8 {
    InvAffine(SBox(x))
  }

  predicate InverseFound(x: bv8) {
    Product(x, Inverted(x)) == 1
  }

  lemma Entries00(x: bv8)
    requires 0 < x < 0x08
    ensures InverseFound(x)
  {
    if x == 0x01 { assert InverseFound(0x01); } else if x == 0x02 { assert InverseFound(0x02); }
    else if x == 0x03 { assert InverseFound(0x03); } else if x == 0x04 { assert InverseFound(0x04); }
    else if x == 0x05 { assert InverseFound(0x05); } else if x == 0x06 { assert InverseFound(0x06); }
    else if x == 0x07 { assert InverseFound(0x07); }
  }

  lemma Entries08(x: bv8)
    requires 0x08 <= x < 0x10
    ensures InverseFound(x)
  {
    if x == 0x08 { assert InverseFound(0x08); } else if x == 0x09 { assert InverseFound(0x09); }
    else if x == 0x0a { assert InverseFound(0x0a); } else if x == 0x0b { assert InverseFound(0x0b); }
    else if x == 0x0c { assert InverseFound(0x0c); } else if x == 0x0d { assert InverseFound(0x0d); }
    else if x == 0x0e { assert InverseFound(0x0e); } else if x == 0x0f { assert InverseFound(0x0f); }
  }

  lemma Entries10(x: bv8)
    requires 0x10 <= x < 0x18
    ensures InverseFound(x)
  {
    if x == 0x10 { assert InverseFound(0x10); } else if x == 0x11 { assert InverseFound(0x11); }
    else if x == 0x12 { assert InverseFound(0x12); } else if x == 0x13 { assert InverseFound(0x13); }
    else if x == 0x14 { assert InverseFound(0x14); } else if x == 0x15 { assert InverseFound(0x15); }
    else if x == 0x16 { assert InverseFound(0x16); } else if x == 0x17 { assert InverseFound(0x17); }
  }

  lemma Entries18(x: bv8)
    requires 0x18 <= x < 0x20
    ensures InverseFound(x)
  {
    if x == 0x18 { assert InverseFound(0x18); } else if x == 0x19 { assert InverseFound(0x19); }
    else if x == 0x1a { assert InverseFound(0x1a); } else if x == 0x1b { assert InverseFound(0x1b); }
    else if x == 0x1c { assert InverseFound(0x1c); } else if x == 0x1d { assert InverseFound(0x1d); }
    else if x == 0x1e { assert InverseFound(0x1e); } else if x == 0x1f { assert InverseFound(0x1f); }
  }

  lemma Entries20(x: bv8)
    requires 0x20 <= x < 0x28
    ensures InverseFound(x)
  {
    if x == 0x20 { assert InverseFound(0x20); } else if x == 0x21 { assert InverseFound(0x21); }
    else if x == 0x22 { assert InverseFound(0x22); } else if x == 0x23 { assert InverseFound(0x23); }
    else if x == 0x24 { assert InverseFound(0x24); } else if x == 0x25 { assert InverseFound(0x25); }
    else if x == 0x26 { assert InverseFound(0x26); } else if x == 0x27 { assert InverseFound(0x27); }
  }

  lemma Entries28(x: bv8)
    requires 0x28 <= x < 0x30
    ensures InverseFound(x)
  {
    if x == 0x28 { assert InverseFound(0x28); } else if x == 0x29 { assert InverseFound(0x29); }
    else if x == 0x2a { assert InverseFound(0x2a); } else if x == 0x2b { assert InverseFound(0x2b); }
    else if x == 0x2c { assert InverseFound(0x2c); } else if x == 0x2d { assert InverseFound(0x2d); }
    else if x == 0x2e { assert InverseFound(0x2e); } else if x == 0x2f { assert InverseFound(0x2f); }
  }

  lemma Entries30(x: bv8)
    requires 0x30 <= x < 0x38
    ensures InverseFound(x)
  {
    if x == 0x30 { assert InverseFound(0x30); } else if x == 0x31 { assert InverseFound(0x31); }
    else if x == 0x32 { assert InverseFound(0x32); } else if x == 0x33 { assert InverseFound(0x33); }
    else if x == 0x34 { assert InverseFound(0x34); } else if x == 0x35 { assert InverseFound(0x35); }
    else if x == 0x36 { assert InverseFound(0x36); } else if x == 0x37 { assert InverseFound(0x37); }
  }

  lemma Entries38(x: bv8)
    requires 0x38 <= x < 0x40
    ensures InverseFound(x)
  {
    if x == 0x38 { assert InverseFound(0x38); } else if x == 0x39 { assert InverseFound(0x39); }
    else if x == 0x3a { assert InverseFound(0x3a); } else if x == 0x3b { assert InverseFound(0x3b); }
    else if x == 0x3c { assert InverseFound(0x3c); } else if x == 0x3d { assert InverseFound(0x3d); }
    else if x == 0x3e { assert InverseFound(0x3e); } else if x == 0x3f { assert InverseFound(0x3f); }
  }

  lemma Entries40(x: bv8)
    requires 0x40 <= x < 0x48
    ensures InverseFound(x)
  {
    if x == 0x40 { assert InverseFound(0x40); } else if x == 0x41 { assert InverseFound(0x41); }
    else if x == 0x42 { assert InverseFound(0x42); } else if x == 0x43 { assert InverseFound(0x43); }
    else if x == 0x44 { assert InverseFound(0x44); } else if x == 0x45 { assert InverseFound(0x45); }
    else if x == 0x46 { assert InverseFound(0x46); } else if x == 0x47 { assert InverseFound(0x47); }
  }

  lemma Entries48(x: bv8)
    requires 0x48 <= x < 0x50
    ensures InverseFound(x)
  {
    if x == 0x48 { assert InverseFound(0x48); } else if x == 0x49 { assert InverseFound(0x49); }
    else if x == 0x4a { assert InverseFound(0x4a); } else if x == 0x4b { assert InverseFound(0x4b); }
    else if x == 0x4c { assert InverseFound(0x4c); } else if x == 0x4d { assert InverseFound(0x4d); }
    else if x == 0x4e { assert InverseFound(0x4e); } else if x == 0x4f { assert InverseFound(0x4f); }
  }

  lemma Entries50(x: bv8)
    requires 0x50 <= x < 0x58
    ensures InverseFound(x)
  {
    if x == 0x50 { assert InverseFound(0x50); } else if x == 0x51 { assert InverseFound(0x51); }
    else if x == 0x52 { assert InverseFound(0x52); } else if x == 0x53 { assert InverseFound(0x53); }
    else if x == 0x54 { assert InverseFound(0x54); } else if x == 0x55 { assert InverseFound(0x55); }
    else if x == 0x56 { assert InverseFound(0x56); } else if x == 0x57 { assert InverseFound(0x57); }
  }

  lemma Entries58(x: bv8)
    requires 0x58 <= x < 0x60
    ensures InverseFound(x)
  {
    if x == 0x58 { assert InverseFound(0x58); } else if x == 0x59 { assert InverseFound(0x59); }
    else if x == 0x5a { assert InverseFound(0x5a); } else if x == 0x5b { assert InverseFound(0x5b); }
    else if x == 0x5c { assert InverseFound(0x5c); } else if x == 0x5d { assert InverseFound(0x5d); }
    else if x == 0x5e { assert InverseFound(0x5e); } else if x == 0x5f { assert InverseFound(0x5f); }
  }

  lemma Entries60(x: bv8)
    requires 0x60 <= x < 0x68
    ensures InverseFound(x)
  {
    if x == 0x60 { assert InverseFound(0x60); } else if x == 0x61 { assert InverseFound(0x61); }
    else if x == 0x62 { assert InverseFound(0x62); } else if x == 0x63 { assert InverseFound(0x63); }
    else if x == 0x64 { assert InverseFound(0x64); } else if x == 0x65 { assert InverseFound(0x65); }
    else if x == 0x66 { assert InverseFound(0x66); } else if x == 0x67 { assert InverseFound(0x67); }
  }

  lemma Entries68(x: bv8)
    requires 0x68 <= x < 0x70
    ensures InverseFound(x)
  {
    if x == 0x68 { assert InverseFound(0x68); } else if x == 0x69 { assert InverseFound(0x69); }
    else if x == 0x6a { assert InverseFound(0x6a); } else if x == 0x6b { assert InverseFound(0x6b); }
    else if x == 0x6c { assert InverseFound(0x6c); } else if x == 0x6d { assert InverseFound(0x6d); }
    else if x == 0x6e { assert InverseFound(0x6e); } else if x == 0x6f { assert InverseFound(0x6f); }
  }

  lemma Entries70(x: bv8)
    requires 0x70 <= x < 0x78
    ensures InverseFound(x)
  {
    if x == 0x70 { assert InverseFound(0x70); } else if x == 0x71 { assert InverseFound(0x71); }
    else if x == 0x72 { assert InverseFound(0x72); } else if x == 0x73 { assert InverseFound(0x73); }
    else if x == 0x74 { assert InverseFound(0x74); } else if x == 0x75 { assert InverseFound(0x75); }
    else if x == 0x76 { assert InverseFound(0x76); } else if x == 0x77 { assert InverseFound(0x77); }
  }

  lemma Entries78(x: bv8)
    requires 0x78 <= x < 0x80
    ensures InverseFound(x)
  {
    if x == 0x78 { assert InverseFound(0x78); } else if x == 0x79 { assert InverseFound(0x79); }
    else if x == 0x7a { assert InverseFound(0x7a); } else if x == 0x7b { assert InverseFound(0x7b); }
    else if x == 0x7c { assert InverseFound(0x7c); } else if x == 0x7d { assert InverseFound(0x7d); }
    else if x == 0x7e { assert InverseFound(0x7e); } else if x == 0x7f { assert InverseFound(0x7f); }
  }

  lemma Entries80(x: bv8)
    requires 0x80 <= x < 0x88
    ensures InverseFound(x)
  {
    if x == 0x80 { assert InverseFound(0x80); } else if x == 0x81 { assert InverseFound(0x81); }
    else if x == 0x82 { assert InverseFound(0x82); } else if x == 0x83 { assert InverseFound(0x83); }
    else if x == 0x84 { assert InverseFound(0x84); } else if x == 0x85 { assert InverseFound(0x85); }
    else if x == 0x86 { assert InverseFound(0x86); } else if x == 0x87 { assert InverseFound(0x87); }
  }

  lemma Entries88(x: bv8)
    requires 0x88 <= x < 0x90
    ensures InverseFound(x)
  {
    if x == 0x88 { assert InverseFound(0x88); } else if x == 0x89 { assert InverseFound(0x89); }
    else if x == 0x8a { assert InverseFound(0x8a); } else if x == 0x8b { assert InverseFound(0x8b); }
    else if x == 0x8c { assert InverseFound(0x8c); } else if x == 0x8d { assert InverseFound(0x8d); }
    else if x == 0x8e { assert InverseFound(0x8e); } else if x == 0x8f { assert InverseFound(0x8f); }
  }

  lemma Entries90(x: bv8)
    requires 0x90 <= x < 0x98
    ensures InverseFound(x)
  {
    if x == 0x90 { assert InverseFound(0x90); } else if x == 0x91 { assert InverseFound(0x91); }
    else if x == 0x92 { assert InverseFound(0x92); } else if x == 0x93 { assert InverseFound(0x93); }
    else if x == 0x94 { assert InverseFound(0x94); } else if x == 0x95 { assert InverseFound(0x95); }
    else if x == 0x96 { assert InverseFound(0x96); } else if x == 0x97 { assert InverseFound(0x97); }
  }

  lemma Entries98(x: bv8)
    requires 0x98 <= x < 0xa0
    ensures InverseFound(x)
  {
    if x == 0x98 { assert InverseFound(0x98); } else if x == 0x99 { assert InverseFound(0x99); }
    else if x == 0x9a { assert InverseFound(0x9a); } else if x == 0x9b { assert InverseFound(0x9b); }
    else if x == 0x9c { assert InverseFound(0x9c); } else if x == 0x9d { assert InverseFound(0x9d); }
    else if x == 0x9e { assert InverseFound(0x9e); } else if x == 0x9f { assert InverseFound(0x9f); }
  }

  lemma EntriesA0(x: bv8)
    requires 0xa0 <= x < 0xa8
    ensures InverseFound(x)
  {
    if x == 0xa0 { assert InverseFound(0xa0); } else if x == 0xa1 { assert InverseFound(0xa1); }
    else if x == 0xa2 { assert InverseFound(0xa2); } else if x == 0xa3 { assert InverseFound(0xa3); }
    else if x == 0xa4 { assert InverseFound(0xa4); } else if x == 0xa5 { assert InverseFound(0xa5); }
    else if x == 0xa6 { assert InverseFound(0xa6); } else if x == 0xa7 { assert InverseFound(0xa7); }
  }

  lemma EntriesA8(x: bv8)
    requires 0xa8 <= x < 0xb0
    ensures InverseFound(x)
  {
    if x == 0xa8 { assert InverseFound(0xa8); } else if x == 0xa9 { assert InverseFound(0xa9); }
    else if x == 0xaa { assert InverseFound(0xaa); } else if x == 0xab { assert InverseFound(0xab); }
    else if x == 0xac { assert InverseFound(0xac); } else if x == 0xad { assert InverseFound(0xad); }
    else if x == 0xae { assert InverseFound(0xae); } else if x == 0xaf { assert InverseFound(0xaf); }
  }

  lemma EntriesB0(x: bv8)
    requires 0xb0 <= x < 0xb8
    ensures InverseFound(x)
  {
    if x == 0xb0 { assert InverseFound(0xb0); } else if x == 0xb1 { assert InverseFound(0xb1); }
    else if x == 0xb2 { assert InverseFound(0xb2); } else if x == 0xb3 { assert InverseFound(0xb3); }
    else if x == 0xb4 { assert InverseFound(0xb4); } else if x == 0xb5 { assert InverseFound(0xb5); }
    else if x == 0xb6 { assert InverseFound(0xb6); } else if x == 0xb7 { assert InverseFound(0xb7); }
  }

  lemma EntriesB8(x: bv8)
    requires 0xb8 <= x < 0xc0
    ensures InverseFound(x)
  {
    if x == 0xb8 { assert InverseFound(0xb8); } else if x == 0xb9 { assert InverseFound(0xb9); }
    else if x == 0xba { assert InverseFound(0xba); } else if x == 0xbb { assert InverseFound(0xbb); }
    else if x == 0xbc { assert InverseFound(0xbc); } else if x == 0xbd { assert InverseFound(0xbd); }
    else if x == 0xbe { assert InverseFound(0xbe); } else if x == 0xbf { assert InverseFound(0xbf); }
  }

  lemma EntriesC0(x: bv8)
    requires 0xc0 <= x < 0xc8
    ensures InverseFound(x)
  {
    if x == 0xc0 { assert InverseFound(0xc0); } else if x == 0xc1 { assert InverseFound(0xc1); }
    else if x == 0xc2 { assert InverseFound(0xc2); } else if x == 0xc3 { assert InverseFound(0xc3); }
    else if x == 0xc4 { assert InverseFound(0xc4); } else if x == 0xc5 { assert InverseFound(0xc5); }
    else if x == 0xc6 { assert InverseFound(0xc6); } else if x == 0xc7 { assert InverseFound(0xc7); }
  }

  lemma EntriesC8(x: bv8)
    requires 0xc8 <= x < 0xd0
    ensures InverseFound(x)
  {
    if x == 0xc8 { assert InverseFound(0xc8); } else if x == 0xc9 { assert InverseFound(0xc9); }
    else if x == 0xca { assert InverseFound(0xca); } else if x == 0xcb { assert InverseFound(0xcb); }
    else if x == 0xcc { assert InverseFound(0xcc); } else if x == 0xcd { assert InverseFound(0xcd); }
    else if x == 0xce { assert InverseFound(0xce); } else if x == 0xcf { assert InverseFound(0xcf); }
  }

  lemma EntriesD0(x: bv8)
    requires 0xd0 <= x < 0xd8
    ensures InverseFound(x)
  {
    if x == 0xd0 { assert InverseFound(0xd0); } else if x == 0xd1 { assert InverseFound(0xd1); }
    else if x == 0xd2 { assert InverseFound(0xd2); } else if x == 0xd3 { assert InverseFound(0xd3); }
    else if x == 0xd4 { assert InverseFound(0xd4); } else if x == 0xd5 { assert InverseFound(0xd5); }
    else if x == 0xd6 { assert InverseFound(0xd6); } else if x == 0xd7 { assert InverseFound(0xd7); }
  }

  lemma EntriesD8(x: bv8)
    requires 0xd8 <= x < 0xe0
    ensures InverseFound(x)
  {
    if x == 0xd8 { assert InverseFound(0xd8); } else if x == 0xd9 { assert InverseFound(0xd9); }
    else if x == 0xda { assert InverseFound(0xda); } else if x == 0xdb { assert InverseFound(0xdb); }
    else if x == 0xdc { assert InverseFound(0xdc); } else if x == 0xdd { assert InverseFound(0xdd); }
    else if x == 0xde { assert InverseFound(0xde); } else if x == 0xdf { assert InverseFound(0xdf); }
  }

  lemma EntriesE0(x: bv8)
    requires 0xe0 <= x < 0xe8
    ensures InverseFound(x)
  {
    if x == 0xe0 { assert InverseFound(0xe0); } else if x == 0xe1 { assert InverseFound(0xe1); }
    else if x == 0xe2 { assert InverseFound(0xe2); } else if x == 0xe3 { assert InverseFound(0xe3); }
    else if x == 0xe4 { assert InverseFound(0xe4); } else if x == 0xe5 { assert InverseFound(0xe5); }
    else if x == 0xe6 { assert InverseFound(0xe6); } else if x == 0xe7 { assert InverseFound(0xe7); }
  }

  lemma EntriesE8(x: bv8)
    requires 0xe8 <= x < 0xf0
    ensures InverseFound(x)
  {
    if x == 0xe8 { assert InverseFound(0xe8); } else if x == 0xe9 { assert InverseFound(0xe9); }
    else if x == 0xea { assert InverseFound(0xea); } else if x == 0xeb { assert InverseFound(0xeb); }
    else if x == 0xec { assert InverseFound(0xec); } else if x == 0xed { assert InverseFound(0xed); }
    else if x == 0xee { assert InverseFound(0xee); } else if x == 0xef { assert InverseFound(0xef); }
  }

  lemma EntriesF0(x: bv8)
    requires 0xf0 <= x < 0xf8
    ensures InverseFound(x)
  {
    if x == 0xf0 { assert InverseFound(0xf0); } else if x == 0xf1 { assert InverseFound(0xf1); }
    else if x == 0xf2 { assert InverseFound(0xf2); } else if x == 0xf3 { assert InverseFound(0xf3); }
    else if x == 0xf4 { assert InverseFound(0xf4); } else if x == 0xf5 { assert InverseFound(0xf5); }
    else if x == 0xf6 { assert InverseFound(0xf6); } else if x == 0xf7 { assert InverseFound(0xf7); }
  }

  lemma EntriesF8(x: bv8)
    requires 0xf8 <= x
    ensures InverseFound(x)
  {
    if x == 0xf8 { assert InverseFound(0xf8); } else if x == 0xf9 { assert InverseFound(0xf9); }
    else if x == 0xfa { assert InverseFound(0xfa); } else if x == 0xfb { assert InverseFound(0xfb); }
    else if x == 0xfc { assert InverseFound(0xfc); } else if x == 0xfd { assert InverseFound(0xfd); }
    else if x == 0xfe { assert InverseFound(0xfe); } else if x == 0xff { assert InverseFound(0xff); }
  }

  lemma ZeroStaysZero()
    ensures Inverted(0) == 0
  {}

  /** Every entry of the table is the affine image of the inverse of its index. */
  lemma SBoxIsAffineOfInverse(x: bv8)
    ensures SBox(x) == Affine(Inverted(x))
    ensures if x == 0 then Inverted(x) == 0 else FieldMul(x, Inverted(x)) == 1
  {
    hide Product, FieldMul, SBox, Affine, InvAffine;
    AffineInverse(SBox(x));
    ProductIsFieldMul(x, Inverted(x));
    if x == 0 {
      ZeroStaysZero();
    } else if x < 0x40 {
      if x < 0x08 { Entries00(x); }
      else if x < 0x10 { Entries08(x); }
      else if x < 0x18 { Entries10(x); }
      else if x < 0x20 { Entries18(x); }
      else if x < 0x28 { Entries20(x); }
      else if x < 0x30 { Entries28(x); }
      else if x < 0x38 { Entries30(x); }
      else { Entries38(x); }
    } else if x < 0x80 {
      if x < 0x48 { Entries40(x); }
      else if x < 0x50 { Entries48(x); }
      else if x < 0x58 { Entries50(x); }
      else if x < 0x60 { Entries58(x); }
      else if x < 0x68 { Entries60(x); }
      else if x < 0x70 { Entries68(x); }
      else if x < 0x78 { Entries70(x); }
      else { Entries78(x); }
    } else if x < 0xc0 {
      if x < 0x88 { Entries80(x); }
      else if x < 0x90 { Entries88(x); }
      else if x < 0x98 { Entries90(x); }
      else if x < 0xa0 { Entries98(x); }
      else if x < 0xa8 { EntriesA0(x); }
      else if x < 0xb0 { EntriesA8(x); }
      else if x < 0xb8 { EntriesB0(x); }
      else { EntriesB8(x); }
    } else {
      if x < 0xc8 { EntriesC0(x); }
      else if x < 0xd0 { EntriesC8(x); }
      else if x < 0xd8 { EntriesD0(x); }
      else if x < 0xe0 { EntriesD8(x); }
      else if x < 0xe8 { EntriesE0(x); }
      else if x < 0xf0 { EntriesE8(x); }
      else if x < 0xf8 { EntriesF0(x); }
      else { EntriesF8(x); }
    }
  }
}
