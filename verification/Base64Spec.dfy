/** Base 64 as sequences of ASCII bytes: the group arithmetic of the codec, the whole-message
    encoding and decoding, and what section 4 of RFC 4648 promises of them. */
module Base64Spec {
  import opened LookupTable

  const PAD: bv8 := 0x3d  // '='

  /** The alphabet: A-Z, a-z, 0-9, '+', '/'. Meaningful for l < 64. */
  function Alphabet(l: bv8): bv8 {
    var hi, lo := l >> 4, l & 0xf;
    if hi == 0 then
      Entry(lo, 0x41, 0x42, 0x43, 0x44, 0x45, 0x46, 0x47, 0x48, 0x49, 0x4a, 0x4b, 0x4c, 0x4d, 0x4e, 0x4f, 0x50)
    else if hi == 1 then
      Entry(lo, 0x51, 0x52, 0x53, 0x54, 0x55, 0x56, 0x57, 0x58, 0x59, 0x5a, 0x61, 0x62, 0x63, 0x64, 0x65, 0x66)
    else if hi == 2 then
      Entry(lo, 0x67, 0x68, 0x69, 0x6a, 0x6b, 0x6c, 0x6d, 0x6e, 0x6f, 0x70, 0x71, 0x72, 0x73, 0x74, 0x75, 0x76)
    else
      Entry(lo, 0x77, 0x78, 0x79, 0x7a, 0x30, 0x31, 0x32, 0x33, 0x34, 0x35, 0x36, 0x37, 0x38, 0x39, 0x2b, 0x2f)
  }

  predicate IsUpper(c: bv8) { 0x41 <= c <= 0x5a }

  predicate IsLower(c: bv8) { 0x61 <= c <= 0x7a }

  predicate IsDigit(c: bv8) { 0x30 <= c <= 0x39 }

  /** The decoder's test: isalnum, '+' or '/'. */
  predicate InAlphabet(c: bv8) {
    IsUpper(c) || IsLower(c) || IsDigit(c) || c == 0x2b || c == 0x2f
  }

  /** The value of a character of the alphabet. */
  function Value(c: bv8): bv8 {
    if IsUpper(c) then c - 0x41
    else if IsLower(c) then c - 0x61 + 26
    else if IsDigit(c) then c - 0x30 + 52
    else if c == 0x2b then 62
    else 63
  }

  /** Table 1 of RFC 4648: A to Z, a to z, 0 to 9, plus and slash. */
  lemma AlphabetIs(l: bv8)
    requires l < 64
    ensures Alphabet(l) == if l < 26 then 65 + l else if l < 52 then 97 + (l - 26) else if l < 62 then 48 + (l - 52)
                           else if l == 62 then 43 else 47
  {}

  lemma AlphabetValues(l: bv8)
    requires l < 64
    ensures InAlphabet(Alphabet(l)) && Value(Alphabet(l)) == l
  {}

  lemma ValuesAlphabet(c: bv8)
    requires InAlphabet(c)
    ensures Value(c) < 64 && Alphabet(Value(c)) == c
  {}

  // ----- Groups: three bytes against four values of six bits -----

  datatype Bytes3 = Bytes3(b0: bv8, b1: bv8, b2: bv8)

  datatype Sextets = Sextets(s0: bv8, s1: bv8, s2: bv8, s3: bv8) {
    predicate InRange() {
      s0 < 64 && s1 < 64 && s2 < 64 && s3 < 64
    }
  }

  /** The encoder's arithmetic. */
  function Split(b: Bytes3): Sextets {
    Sextets((b.b0 & 0xfc) >> 2,
            ((b.b0 & 0x03) << 4) + ((b.b1 & 0xf0) >> 4),
            ((b.b1 & 0x0f) << 2) + ((b.b2 & 0xc0) >> 6),
            b.b2 & 0x3f)
  }

  /** The decoder's arithmetic. */
  function Join(s: Sextets): Bytes3 {
    Bytes3((s.s0 << 2) + ((s.s1 & 0x30) >> 4),
           ((s.s1 & 0xf) << 4) + ((s.s2 & 0x3c) >> 2),
           ((s.s2 & 0x3) << 6) + s.s3)
  }

  /** The 24-bit input group of section 4 of RFC 4648. */
  function Group24(b: Bytes3): bv24 {
    (b.b0 as bv24 << 16) | (b.b1 as bv24 << 8) | b.b2 as bv24
  }

  /** The four values are the four six-bit fields of the group, most significant first. */
  lemma SplitIsSixBitGroups(b: Bytes3)
    ensures Split(b) == Sextets(((Group24(b) >> 18) & 0x3f) as bv8, ((Group24(b) >> 12) & 0x3f) as bv8,
                                ((Group24(b) >> 6) & 0x3f) as bv8, (Group24(b) & 0x3f) as bv8)
  {}

  lemma JoinSplit(b: Bytes3)
    ensures Split(b).InRange() && Join(Split(b)) == b
  {}

  lemma SplitJoin(s: Sextets)
    requires s.InRange()
    ensures Split(Join(s)) == s
  {}

  // ----- Encoding -----

  function Chars(s: Sextets): (c: seq<bv8>)
    ensures |c| == 4
  {
    [Alphabet(s.s0), Alphabet(s.s1), Alphabet(s.s2), Alphabet(s.s3)]
  }

  /** Encoding of a last group of one or two bytes. */
  function EncodeTail(t: seq<bv8>): (c: seq<bv8>)
    requires |t| < 3
    ensures |c| == if t == [] then 0 else 4
  {
    if |t| == 0 then []
    else if |t| == 1 then Chars(Split(Bytes3(t[0], 0, 0)))[..2] + [PAD, PAD]
    else Chars(Split(Bytes3(t[0], t[1], 0)))[..3] + [PAD]
  }

  function Encode(s: seq<bv8>): (c: seq<bv8>)
    ensures |c| == (|s| + 2) / 3 * 4
  {
    if |s| < 3 then EncodeTail(s)
    else Chars(Split(Bytes3(s[0], s[1], s[2]))) + Encode(s[3..])
  }

  lemma {:induction false} EncodeAppend(s: seq<bv8>, t: seq<bv8>)
    requires |s| % 3 == 0
    ensures Encode(s + t) == Encode(s) + Encode(t)
  {
    hide Chars, Split;
    if s == [] {
      assert s + t == t;
    } else {
      EncodeAppend(s[3..], t);
      assert (s + t)[3..] == s[3..] + t;
    }
  }

  lemma CharsAreNoNul(s: Sextets)
    requires s.s0 < 64 && s.s1 < 64 && s.s2 < 64 && s.s3 < 64
    ensures 0 !in Chars(s)
  {
    AlphabetValues(s.s0);
    AlphabetValues(s.s1);
    AlphabetValues(s.s2);
    AlphabetValues(s.s3);
    hide Alphabet;
  }

  lemma {:induction false} EncodedHasNoNul(s: seq<bv8>)
    ensures 0 !in Encode(s)
  {
    if s != [] {
      var b := Bytes3(s[0], if |s| > 1 then s[1] else 0, if |s| > 2 then s[2] else 0);
      JoinSplit(b);
      CharsAreNoNul(Split(b));
      hide Split, Chars, Join;
      if |s| >= 3 {
        EncodedHasNoNul(s[3..]);
      }
    }
  }

  // ----- Decoding -----

  /** The characters before the first that is not in the alphabet. */
  function AlphabetPrefix(s: seq<bv8>): (p: seq<bv8>)
    ensures p <= s
    ensures forall i | 0 <= i < |p| :: InAlphabet(p[i])
    ensures |p| < |s| ==> !InAlphabet(s[|p|])
  {
    if s == [] || !InAlphabet(s[0]) then [] else [s[0]] + AlphabetPrefix(s[1..])
  }

  function BytesOf(b: Bytes3): (s: seq<bv8>)
    ensures |s| == 3
  {
    [b.b0, b.b1, b.b2]
  }

  /** Value of a character in the working buffer: unused places hold NUL, which stays 0. */
  function Translated(c: bv8): bv8 {
    if InAlphabet(c) then Value(c) else c
  }

  function DecodeGroup(c0: bv8, c1: bv8, c2: bv8, c3: bv8): Bytes3 {
    Join(Sextets(Translated(c0), Translated(c1), Translated(c2), Translated(c3)))
  }

  /** Decoding of a last group of fewer than four characters: one character carries no byte. */
  function DecodeTail(t: seq<bv8>): (s: seq<bv8>)
    requires |t| < 4
    ensures |s| == if t == [] then 0 else |t| - 1
  {
    if |t| <= 1 then []
    else if |t| == 2 then BytesOf(DecodeGroup(t[0], t[1], 0, 0))[..1]
    else BytesOf(DecodeGroup(t[0], t[1], t[2], 0))[..2]
  }

  function DecodeChars(t: seq<bv8>): (s: seq<bv8>)
    ensures |s| == |t| / 4 * 3 + if |t| % 4 == 0 then 0 else |t| % 4 - 1
  {
    if |t| < 4 then DecodeTail(t)
    else BytesOf(DecodeGroup(t[0], t[1], t[2], t[3])) + DecodeChars(t[4..])
  }

  /** The decoder's result depends on the alphabet prefix only. */
  function Decode(s: seq<bv8>): seq<bv8> {
    DecodeChars(AlphabetPrefix(s))
  }

  lemma FirstGroupDecoded(s: seq<bv8>)
    requires |s| >= 4
    ensures DecodeChars(s) == BytesOf(DecodeGroup(s[0], s[1], s[2], s[3])) + DecodeChars(s[4..])
  {
    hide DecodeGroup, BytesOf;
  }

  lemma {:induction false} DecodeAppend(s: seq<bv8>, t: seq<bv8>)
    requires |s| % 4 == 0
    ensures DecodeChars(s + t) == DecodeChars(s) + DecodeChars(t)
  {
    hide DecodeGroup, BytesOf, DecodeChars;
    if s == [] {
      assert s + t == t && DecodeChars(s) == [];
    } else {
      var u := s + t;
      DecodeAppend(s[4..], t);
      FirstGroupDecoded(s);
      FirstGroupDecoded(u);
      assert u[4..] == s[4..] + t;
    }
  }

  // ----- Round trips -----

  lemma TranslatedChars(s: Sextets)
    requires s.InRange()
    ensures var c := Chars(s);
            && (forall i | 0 <= i < 4 :: InAlphabet(c[i]))
            && Translated(c[0]) == s.s0 && Translated(c[1]) == s.s1
            && Translated(c[2]) == s.s2 && Translated(c[3]) == s.s3
  {
    hide Alphabet, InAlphabet, Value;
    AlphabetValues(s.s0);
    AlphabetValues(s.s1);
    AlphabetValues(s.s2);
    AlphabetValues(s.s3);
  }

  lemma ZeroSextets(a: bv8, b: bv8)
    ensures Split(Bytes3(a, 0, 0)).s2 == 0 && Split(Bytes3(a, b, 0)).s3 == 0
    ensures Translated(0) == 0 && !InAlphabet(PAD)
  {}

  lemma {:induction false} PrefixOf(a: seq<bv8>, rest: seq<bv8>)
    requires forall i | 0 <= i < |a| :: InAlphabet(a[i])
    requires rest != [] ==> !InAlphabet(rest[0])
    ensures AlphabetPrefix(a + rest) == a
  {
    hide InAlphabet;
    if a == [] {
      assert a + rest == rest;
    } else {
      PrefixOf(a[1..], rest);
      assert (a + rest)[1..] == a[1..] + rest;
    }
  }

  /** Nothing behind the first character outside the alphabet matters, and what is in front of it
      fixes the length: three bytes for every four characters, and one fewer than are left over. */
  lemma DecodeStopsAt(a: seq<bv8>, rest: seq<bv8>)
    requires forall i | 0 <= i < |a| :: InAlphabet(a[i])
    requires rest != [] ==> !InAlphabet(rest[0])
    ensures Decode(a + rest) == Decode(a)
    ensures var left := |a| % 4; |Decode(a + rest)| == 3 * (|a| / 4) + if left == 0 then 0 else left - 1
  {
    hide InAlphabet;
    PrefixOf(a, rest);
    PrefixOf(a, []);
    assert a + [] == a;
    hide DecodeChars;
  }

  lemma TailRoundTrip(t: seq<bv8>)
    requires |t| < 3
    ensures Decode(EncodeTail(t)) == t
  {
    hide InAlphabet, Split, Join, Alphabet, Value, Translated;
    if |t| == 1 {
      var b := Bytes3(t[0], 0, 0);
      var c := Chars(Split(b));
      JoinSplit(b);
      ZeroSextets(t[0], 0);
      TranslatedChars(Split(b));
      PrefixOf(c[..2], [PAD, PAD]);
    } else if |t| == 2 {
      var b := Bytes3(t[0], t[1], 0);
      var c := Chars(Split(b));
      JoinSplit(b);
      ZeroSextets(t[0], t[1]);
      TranslatedChars(Split(b));
      PrefixOf(c[..3], [PAD]);
    }
  }

  lemma {:induction false} PrefixSplits(a: seq<bv8>, s: seq<bv8>)
    requires forall i | 0 <= i < |a| :: InAlphabet(a[i])
    ensures AlphabetPrefix(a + s) == a + AlphabetPrefix(s)
  {
    hide InAlphabet;
    if a == [] {
      assert a + s == s;
    } else {
      PrefixSplits(a[1..], s);
      assert (a + s)[1..] == a[1..] + s;
    }
  }

  lemma EncodeOneGroup(b: Bytes3, t: seq<bv8>)
    ensures Encode(BytesOf(b) + t) == Chars(Split(b)) + Encode(t)
  {
    hide Split, Chars;
    assert (BytesOf(b) + t)[3..] == t;
  }

  lemma DecodeOneGroup(c: seq<bv8>, s: seq<bv8>)
    requires |c| == 4 && forall i | 0 <= i < 4 :: InAlphabet(c[i])
    ensures Decode(c + s) == BytesOf(DecodeGroup(c[0], c[1], c[2], c[3])) + Decode(s)
  {
    hide InAlphabet, DecodeGroup;
    PrefixSplits(c, s);
    assert (c + AlphabetPrefix(s))[4..] == AlphabetPrefix(s);
  }

  /** Decoding the encoder's output gives the bytes back, for every input. */
  lemma {:induction false} DecodeUndoesEncode(s: seq<bv8>)
    ensures Decode(Encode(s)) == s
  {
    if |s| < 3 {
      TailRoundTrip(s);
    } else {
      hide InAlphabet, Split, Join, DecodeGroup, Chars, Encode, Decode;
      var b := Bytes3(s[0], s[1], s[2]);
      JoinSplit(b);
      TranslatedChars(Split(b));
      GroupOfChars(b);
      DecodeUndoesEncode(s[3..]);
      EncodeOneGroup(b, s[3..]);
      DecodeOneGroup(Chars(Split(b)), Encode(s[3..]));
      assert s == BytesOf(b) + s[3..];
    }
  }

  lemma GroupOfChars(b: Bytes3)
    ensures var c := Chars(Split(b)); DecodeGroup(c[0], c[1], c[2], c[3]) == b
  {
    hide Split, Join, Alphabet, Translated;
    JoinSplit(b);
    TranslatedChars(Split(b));
  }

  // ----- Canonical strings, section 3.5 of RFC 4648: the pad bits are zero -----

  predicate CanonicalTail(c: seq<bv8>)
    requires |c| == 4
  {
    && InAlphabet(c[0]) && InAlphabet(c[1]) && c[3] == PAD
    && if c[2] == PAD then Value(c[1]) & 0x0f == 0 else InAlphabet(c[2]) && Value(c[2]) & 0x03 == 0
  }

  predicate Canonical(s: seq<bv8>) {
    if s == [] then true
    else if |s| < 4 then false
    else if |s| == 4 && s[3] == PAD then CanonicalTail(s)
    else InAlphabet(s[0]) && InAlphabet(s[1]) && InAlphabet(s[2]) && InAlphabet(s[3]) && Canonical(s[4..])
  }

  lemma CharsOfTranslated(c0: bv8, c1: bv8, c2: bv8, c3: bv8)
    requires InAlphabet(c0) && InAlphabet(c1) && InAlphabet(c2) && InAlphabet(c3)
    ensures Chars(Split(DecodeGroup(c0, c1, c2, c3))) == [c0, c1, c2, c3]
  {
    hide Alphabet, InAlphabet, Value, Split, Join;
    ValuesAlphabet(c0);
    ValuesAlphabet(c1);
    ValuesAlphabet(c2);
    ValuesAlphabet(c3);
    SplitJoin(Sextets(Value(c0), Value(c1), Value(c2), Value(c3)));
  }

  lemma ZeroPadBits(s: Sextets)
    requires s.InRange()
    ensures s.s1 & 0x0f == 0 && s.s2 == 0 && s.s3 == 0 ==> Join(s).b1 == 0 && Join(s).b2 == 0
    ensures s.s2 & 0x03 == 0 && s.s3 == 0 ==> Join(s).b2 == 0
  {}

  lemma TwoCharacterTail(c: seq<bv8>)
    requires |c| == 4 && CanonicalTail(c) && c[2] == PAD
    ensures Encode(Decode(c)) == c
  {
    hide Alphabet, InAlphabet, Value, Split, Join;
    ValuesAlphabet(c[0]);
    ValuesAlphabet(c[1]);
    ZeroSextets(0, 0);
    PrefixOf(c[..2], [PAD, PAD]);
    assert c == c[..2] + [PAD, PAD];
    var v := Sextets(Value(c[0]), Value(c[1]), 0, 0);
    ZeroPadBits(v);
    SplitJoin(v);
  }

  lemma ThreeCharacterTail(c: seq<bv8>)
    requires |c| == 4 && CanonicalTail(c) && c[2] != PAD
    ensures Encode(Decode(c)) == c
  {
    hide Alphabet, InAlphabet, Value, Split, Join;
    ValuesAlphabet(c[0]);
    ValuesAlphabet(c[1]);
    ValuesAlphabet(c[2]);
    ZeroSextets(0, 0);
    PrefixOf(c[..3], [PAD]);
    assert c == c[..3] + [PAD];
    var v := Sextets(Value(c[0]), Value(c[1]), Value(c[2]), 0);
    ZeroPadBits(v);
    SplitJoin(v);
  }

  lemma EmptyRoundTrip()
    ensures Encode(Decode([])) == []
  {}

  /** Encoding the decoding of a canonical string gives the string back. */
  lemma {:induction false} EncodeUndoesDecode(s: seq<bv8>)
    requires Canonical(s)
    ensures Encode(Decode(s)) == s
  {
    hide InAlphabet, Split, DecodeGroup, Chars, CanonicalTail, Encode, Decode;
    if s == [] {
      EmptyRoundTrip();
    } else if |s| == 4 && s[3] == PAD {
      if s[2] == PAD {
        TwoCharacterTail(s);
      } else {
        ThreeCharacterTail(s);
      }
    } else {
      var c := s[..4];
      var b := DecodeGroup(c[0], c[1], c[2], c[3]);
      CharsOfTranslated(c[0], c[1], c[2], c[3]);
      EncodeUndoesDecode(s[4..]);
      assert s == c + s[4..];
      DecodeOneGroup(c, s[4..]);
      EncodeOneGroup(b, Decode(s[4..]));
    }
  }

  lemma EncodedTailIsCanonical(t: seq<bv8>)
    requires |t| == 1 || |t| == 2
    ensures CanonicalTail(EncodeTail(t)) && EncodeTail(t)[3] == PAD
  {
    hide Alphabet, InAlphabet, Value;
    var b := if |t| == 1 then Bytes3(t[0], 0, 0) else Bytes3(t[0], t[1], 0);
    AlphabetValues(Split(b).s0);
    AlphabetValues(Split(b).s1);
    AlphabetValues(Split(b).s2);
    ZeroSextets(t[0], 0);
  }

  /** The encoder produces canonical strings only, so the two are inverse bijections. */
  lemma {:induction false} EncodedIsCanonical(s: seq<bv8>)
    ensures Canonical(Encode(s))
  {
    hide InAlphabet, Split, Chars, CanonicalTail;
    if s == [] {
    } else if |s| < 3 {
      EncodedTailIsCanonical(s);
    } else {
      var v := Split(Bytes3(s[0], s[1], s[2]));
      JoinSplit(Bytes3(s[0], s[1], s[2]));
      TranslatedChars(v);
      ZeroSextets(0, 0);
      EncodedIsCanonical(s[3..]);
      assert Encode(s)[4..] == Encode(s[3..]);
    }
  }

  // ----- Test vectors, section 10 of RFC 4648 -----

  lemma FirstVectors()
    ensures Encode([]) == []
    ensures Encode([0x66]) == [0x5a, 0x67, 0x3d, 0x3d]  // f
    ensures Encode([0x66, 0x6f]) == [0x5a, 0x6d, 0x38, 0x3d]  // fo
    ensures Encode([0x66, 0x6f, 0x6f]) == [0x5a, 0x6d, 0x39, 0x76]  // foo
  {}

  lemma LastVectors()
    ensures Encode([0x66, 0x6f, 0x6f, 0x62]) == [0x5a, 0x6d, 0x39, 0x76, 0x59, 0x67, 0x3d, 0x3d]  // foob
    ensures Encode([0x66, 0x6f, 0x6f, 0x62, 0x61]) == [0x5a, 0x6d, 0x39, 0x76, 0x59, 0x6d, 0x45, 0x3d]  // fooba
    ensures Encode([0x66, 0x6f, 0x6f, 0x62, 0x61, 0x72]) == [0x5a, 0x6d, 0x39, 0x76, 0x59, 0x6d, 0x46, 0x79]  // foobar
  {
    FirstVectors();
    EncodeOneGroup(Bytes3(0x66, 0x6f, 0x6f), [0x62]);
    assert [0x66, 0x6f, 0x6f, 0x62] == BytesOf(Bytes3(0x66, 0x6f, 0x6f)) + [0x62];
    EncodeOneGroup(Bytes3(0x66, 0x6f, 0x6f), [0x62, 0x61]);
    assert [0x66, 0x6f, 0x6f, 0x62, 0x61] == BytesOf(Bytes3(0x66, 0x6f, 0x6f)) + [0x62, 0x61];
    EncodeOneGroup(Bytes3(0x66, 0x6f, 0x6f), [0x62, 0x61, 0x72]);
    assert [0x66, 0x6f, 0x6f, 0x62, 0x61, 0x72] == BytesOf(Bytes3(0x66, 0x6f, 0x6f)) + [0x62, 0x61, 0x72];
  }
}
