/** The codec itself: loops over the input that collect a group, convert it and write it out,
    with capacity checks on the way. */
module Base64 {
  import opened Base64Spec
  import opened Printing

  /** The buffer from n on is as before. */
  predicate SameFrom(now: seq<bv8>, before: seq<bv8>, n: int) {
    && |now| == |before|
    && forall k | 0 <= k < |now| && n <= k :: now[k] == before[k]
  }

  /** The arithmetic of one group. The small group buffers of the codec never leave it, so they
      are local sequences here. */
  function SplitGroup(tmp: seq<bv8>): (buf: seq<bv8>)
    requires |tmp| == 3
    ensures |buf| == 4
  {
    var s := Split(Bytes3(tmp[0], tmp[1], tmp[2]));
    [s.s0, s.s1, s.s2, s.s3]
  }

  /** Writes the four characters of a group. */
  method WriteGroup(enc: array<bv8>, first: nat, buf: seq<bv8>)
    requires |buf| == 4 && first + 4 <= enc.Length
    modifies enc
    ensures enc[..first + 4] == old(enc[..first]) + Chars(Sextets(buf[0], buf[1], buf[2], buf[3]))
    ensures SameFrom(enc[..], old(enc[..]), first + 4)
  {
    hide Alphabet;
    ghost var group := Chars(Sextets(buf[0], buf[1], buf[2], buf[3]));
    var size, i := first, 0;
    while i < 4
      invariant 0 <= i <= 4 && size == first + i
      invariant enc[..size] == old(enc[..first]) + group[..i]
      invariant SameFrom(enc[..], old(enc[..]), size)
    {
      assert i == 0 || i == 1 || i == 2 || i == 3;
      enc[size] := Alphabet(buf[i]);
      size := size + 1;
      i := i + 1;
    }
  }

  /** Between two bytes: the groups up to done are written, and the next i bytes are in the group
      buffer. */
  predicate EncodeState(out: seq<bv8>, before: seq<bv8>, outLen: int, size: nat,
                        tmp: seq<bv8>, i: nat, s: seq<bv8>, done: nat) {
    && i < 3 && |tmp| == 3 && done % 3 == 0 && done + i <= |s| && tmp[..i] == s[done..done + i]
    && size <= |out| && size == done / 3 * 4 && (size == 0 || size <= outLen)
    && out[..size] == Encode(s[..done]) && SameFrom(out, before, size)
  }

  /** A full group is written as four characters, if there is room for them. */
  method EncodeGroup(enc: array<bv8>, outLen: int, group: seq<bv8>, first: nat,
                     ghost s: seq<bv8>, ghost done: nat, ghost before: seq<bv8>)
    returns (ok: bool, size: nat)
    requires outLen <= enc.Length && EncodeState(enc[..], before, outLen, first, group, 0, s, done)
    requires done + 3 <= |s| && group == s[done..done + 3]
    modifies enc
    ensures ok ==> EncodeState(enc[..], before, outLen, size, group, 0, s, done + 3)
    ensures !ok ==> outLen < |Encode(s)| && SameFrom(enc[..], before, outLen)
  {
    hide Split, Alphabet, Encode;
    var buf := SplitGroup(group);
    EncodeNextGroup(s, done);
    EncodedAtLeast(s, done);
    if outLen < first + 4 {
      return false, first;
    }
    WriteGroup(enc, first, buf);
    return true, first + 4;
  }

  /** The body of the main loop. */
  method TakeByte(b: bv8, enc: array<bv8>, outLen: int, group: seq<bv8>, count: nat, first: nat,
                  ghost s: seq<bv8>, ghost done: nat, ghost before: seq<bv8>)
    returns (ok: bool, size: nat, i: nat, tmp: seq<bv8>, ghost next: nat)
    requires outLen <= enc.Length && EncodeState(enc[..], before, outLen, first, group, count, s, done)
    requires done + count < |s| && b == s[done + count]
    modifies enc
    ensures ok ==> EncodeState(enc[..], before, outLen, size, tmp, i, s, next) && next + i == done + count + 1
    ensures !ok ==> outLen < |Encode(s)| && SameFrom(enc[..], before, outLen)
  {
    hide Encode, SameFrom;
    ok, size, i, tmp, next := true, first, count + 1, group[count := b], done;
    OneMoreInGroup(group, count, b, s, done);
    if i == 3 {
      assert tmp[..3] == tmp;
      ok, size := EncodeGroup(enc, outLen, tmp, first, s, done, before);
      i, next := 0, done + 3;
    }
  }

  /** The main loop: every third byte completes a group in tmp, which is written as four characters. */
  method EncodeLoop(src: array<bv8>, srcSize: nat, enc: array<bv8>, outLen: int)
    returns (ok: bool, size: nat, i: nat, tmp: seq<bv8>, ghost done: nat)
    requires srcSize <= src.Length && outLen <= enc.Length && enc != src
    modifies enc
    ensures ok ==> EncodeState(enc[..], old(enc[..]), outLen, size, tmp, i, src[..srcSize], done) && done + i == srcSize
    ensures !ok ==> outLen < |Encode(src[..srcSize])| && SameFrom(enc[..], old(enc[..]), outLen)
  {
    size, i, tmp, done := 0, 0, [0, 0, 0], 0;
    var left: nat := srcSize;
    ghost var s, before := src[..srcSize], enc[..];
    NothingEncoded(before, outLen, tmp, s);
    hide Encode, EncodeState, SameFrom;
    while left > 0
      invariant 0 <= left && left + done + i == srcSize
      invariant EncodeState(enc[..], before, outLen, size, tmp, i, s, done)
    {
      left := left - 1;
      ok, size, i, tmp, done := TakeByte(src[srcSize - left - 1], enc, outLen, tmp, i, size, s, done, before);
      if !ok {
        return;
      }
    }
    ok := true;
  }

  method EncodeGroups(src: array<bv8>, srcSize: nat, enc: array<bv8>, outLen: int)
    returns (ok: bool, size: nat, i: nat, tmp: seq<bv8>)
    requires srcSize <= src.Length && outLen <= enc.Length && enc != src
    modifies enc
    ensures SameFrom(enc[..], old(enc[..]), if ok then size else outLen)
    ensures ok ==> i < 3 && i <= srcSize && (srcSize - i) % 3 == 0
    ensures ok ==> size == (srcSize - i) / 3 * 4 && (size == 0 || size <= outLen)
    ensures ok ==> enc[..size] == Encode(src[..srcSize - i])
    ensures ok ==> |tmp| == 3 && tmp[..i] == src[srcSize - i..srcSize]
    ensures !ok ==> outLen < |Encode(src[..srcSize])|
  {
    hide Encode, EncodeState, SameFrom;
    ghost var s, before := src[..srcSize], enc[..];
    ghost var done;
    ok, size, i, tmp, done := EncodeLoop(src, srcSize, enc, outLen);
    if ok {
      AllGrouped(enc[..], before, outLen, size, tmp, i, s, done);
      assert s[..srcSize - i] == src[..srcSize - i] && s[srcSize - i..] == src[srcSize - i..srcSize];
    }
  }

  lemma NothingEncoded(out: seq<bv8>, outLen: int, tmp: seq<bv8>, s: seq<bv8>)
    requires |tmp| == 3
    ensures EncodeState(out, out, outLen, 0, tmp, 0, s, 0)
  {}

  lemma AllGrouped(out: seq<bv8>, before: seq<bv8>, outLen: int, size: nat, tmp: seq<bv8>, i: nat,
                   s: seq<bv8>, done: nat)
    requires EncodeState(out, before, outLen, size, tmp, i, s, done) && done + i == |s|
    ensures i < 3 && i <= |s| && (|s| - i) % 3 == 0 && size <= |out|
    ensures size == (|s| - i) / 3 * 4 && (size == 0 || size <= outLen)
    ensures out[..size] == Encode(s[..|s| - i]) && |tmp| == 3 && tmp[..i] == s[|s| - i..]
    ensures SameFrom(out, before, size)
  {
    hide Encode;
    assert done == |s| - i;
  }

  /** The remainder of one or two bytes, and its padding, with a capacity check for every character. */
  method EncodeRemainder(enc: array<bv8>, outLen: int, group: seq<bv8>, first: nat, count: nat)
    returns (ok: bool, size: nat)
    requires 1 <= count <= 2 && |group| == 3 && outLen <= enc.Length && (first == 0 || first <= outLen)
    modifies enc
    ensures ok ==> size == first + 4 <= outLen && enc[..size] == old(enc[..first]) + EncodeTail(group[..count])
    ensures !ok ==> outLen < first + 4
    ensures SameFrom(enc[..], old(enc[..]), if ok then size else outLen)
  {
    hide EncodeTail;
    ghost var tail := EncodeTail(group[..count]);
    var i, tmp := count, group;
    var j := i;
    while j < 3
      invariant count <= j <= 3 && |tmp| == 3
      invariant forall k | 0 <= k < j :: tmp[k] == if k < count then group[k] else 0
    {
      tmp := tmp[j := 0];
      j := j + 1;
    }
    assert tmp[..count] == group[..count];
    ok, size := PutRemainderChars(enc, outLen, tmp, first, count);
    while ok && i < 3
      invariant count <= i <= 3
      invariant ok ==> size == first + i + 1 && size <= outLen && enc[..size] == old(enc[..first]) + tail[..i + 1]
      invariant !ok ==> outLen < first + 4
      invariant SameFrom(enc[..], old(enc[..]), if ok then size else outLen)
    {
      i := i + 1;
      TailOfGroup(tmp, count);
      if outLen < size + 1 {
        return false, size;
      }
      enc[size] := PAD;
      size := size + 1;
    }
    assert tail[..4] == tail;
  }

  /** One character more than there are bytes in the remainder. */
  method PutRemainderChars(enc: array<bv8>, outLen: int, tmp: seq<bv8>, first: nat, count: nat)
    returns (ok: bool, size: nat)
    requires 1 <= count <= 2 && |tmp| == 3 && outLen <= enc.Length && (first == 0 || first <= outLen)
    requires forall k | count <= k < 3 :: tmp[k] == 0
    modifies enc
    ensures ok ==> size == first + count + 1 <= outLen
    ensures ok ==> enc[..size] == old(enc[..first]) + EncodeTail(tmp[..count])[..count + 1]
    ensures !ok ==> outLen < first + 4
    ensures SameFrom(enc[..], old(enc[..]), if ok then size else outLen)
  {
    hide EncodeTail, Alphabet, Split;
    var buf := SplitGroup(tmp);
    ghost var tail := EncodeTail(tmp[..count]);
    TailOfGroup(tmp, count);
    size := first;
    var j := 0;
    while j < count + 1
      invariant 0 <= j <= count + 1 && size == first + j && (size == 0 || size <= outLen)
      invariant enc[..size] == old(enc[..first]) + tail[..j]
      invariant SameFrom(enc[..], old(enc[..]), size)
    {
      if outLen < size + 1 {
        return false, size;
      }
      enc[size] := Alphabet(buf[j]);
      size := size + 1;
      j := j + 1;
    }
    return true, size;
  }

  /** The whole text, without its NUL. */
  method EncodeText(src: array<bv8>, srcSize: nat, enc: array<bv8>, outLen: int) returns (ok: bool, size: nat)
    requires srcSize <= src.Length && enc != src && outLen <= enc.Length
    modifies enc
    ensures ok ==> (size == 0 || size <= outLen) && enc[..size] == Encode(src[..srcSize])
    ensures !ok ==> outLen < |Encode(src[..srcSize])|
    ensures SameFrom(enc[..], old(enc[..]), if ok then size else outLen)
  {
    hide Encode, EncodeTail;
    var i, tmp;
    ok, size, i, tmp := EncodeGroups(src, srcSize, enc, outLen);
    if ok {
      ghost var s := src[..srcSize];
      EncodeLastGroup(s, srcSize - i);
      assert s[..srcSize - i] == src[..srcSize - i] && s[srcSize - i..] == src[srcSize - i..srcSize];
      if i > 0 {
        ok, size := EncodeRemainder(enc, outLen, tmp, size, i);
      }
    }
  }

  method B64Encode(src: array<bv8>, srcSize: nat, out: array?<bv8>, outLen: int) returns (r: int)
    requires srcSize <= src.Length
    requires out != null ==> out != src && outLen <= out.Length
    modifies out
    ensures out == null ==> r == -1
    ensures out != null ==> (r == -1 <==> |Encode(src[..srcSize])| >= outLen)
    ensures out != null && r != -1 ==> 0 <= r == |Encode(src[..srcSize])| < out.Length
    ensures out != null && r >= 0 ==> out[..r] == Encode(src[..srcSize]) && out[r] == 0
    ensures out != null && r >= 0 ==> forall k | r < k < out.Length :: out[k] == old(out[k])
    ensures out != null && r >= 0 ==> CString(out[..]) == Encode(src[..srcSize])
    ensures out != null && r < 0 ==> forall k | 0 <= k < out.Length && outLen <= k :: out[k] == old(out[k])
  {
    hide Encode, CString;
    if out == null {
      return -1;
    }
    var ok, size := EncodeText(src, srcSize, out, outLen);
    if !ok || outLen < size + 1 {
      return -1;
    }
    out[size] := 0;
    EncodedIsWholeString(src[..srcSize], out[..]);
    return size;
  }

  /** A text with a NUL behind it, and whatever stands behind that, is the string in the buffer unless it
      has a NUL of its own. */
  lemma WholeUpToNul(text: seq<bv8>, buf: seq<bv8>)
    requires |text| < |buf| && buf[..|text|] == text && buf[|text|] == 0
    ensures CString(buf) == text <==> 0 !in text
  {
    hide CString;
    var rest := buf[|text| + 1..];
    assert buf == text + [0] + rest;
    CStringEnds(text, rest);
    WholeCString(text);
  }

  lemma EncodedIsWholeString(s: seq<bv8>, buf: seq<bv8>)
    requires |Encode(s)| < |buf| && buf[..|Encode(s)|] == Encode(s) && buf[|Encode(s)|] == 0
    ensures CString(buf) == Encode(s)
  {
    EncodedHasNoNul(s);
    WholeUpToNul(Encode(s), buf);
  }

  // ----- Decoding -----

  /** Searches the table for a character and replaces it by its index. */
  method Translate(c: bv8) returns (v: bv8)
    ensures v == Translated(c)
  {
    hide Alphabet, Value, InAlphabet;
    if InAlphabet(c) {
      ValuesAlphabet(c);
    }
    var l: bv8 := 0;
    while l < 64
      invariant l <= 64
      invariant InAlphabet(c) ==> Value(c) >= l
      decreases 64 - l as int
    {
      AlphabetValues(l);
      if c == Alphabet(l) {
        return l;
      }
      l := l + 1;
    }
    return c;
  }

  method TranslateGroup(chars: seq<bv8>) returns (tmp: seq<bv8>)
    requires |chars| == 4
    ensures tmp == [Translated(chars[0]), Translated(chars[1]), Translated(chars[2]), Translated(chars[3])]
  {
    hide Translated;
    tmp := chars;
    var i := 0;
    while i < 4
      invariant 0 <= i <= 4 && |tmp| == 4
      invariant forall k | 0 <= k < 4 :: tmp[k] == if k < i then Translated(chars[k]) else chars[k]
    {
      var v := Translate(tmp[i]);
      tmp := tmp[i := v];
      i := i + 1;
    }
  }

  /** Translates the characters of a group and does the arithmetic. */
  method ConvertGroup(chars: seq<bv8>) returns (buf: seq<bv8>)
    requires |chars| == 4
    ensures buf == BytesOf(DecodeGroup(chars[0], chars[1], chars[2], chars[3]))
  {
    var tmp := TranslateGroup(chars);
    return BytesOf(Join(Sextets(tmp[0], tmp[1], tmp[2], tmp[3])));
  }

  /** Writes the first n bytes of a converted group. */
  method WriteBytes(dec: array<bv8>, first: nat, buf: seq<bv8>, n: nat)
    requires n <= |buf| && first + n <= dec.Length
    modifies dec
    ensures dec[..first + n] == old(dec[..first]) + buf[..n]
    ensures SameFrom(dec[..], old(dec[..]), first + n)
  {
    var size, i := first, 0;
    while i < n
      invariant 0 <= i <= n && size == first + i
      invariant dec[..size] == old(dec[..first]) + buf[..i]
      invariant SameFrom(dec[..], old(dec[..]), size)
    {
      dec[size] := buf[i];
      size := size + 1;
      i := i + 1;
    }
  }

  /** Converts a full group and writes its three bytes, if there is room for them. */
  method PutGroup(dec: array<bv8>, outLen: int, chars: seq<bv8>, size: nat) returns (ok: bool)
    requires |chars| == 4 && outLen <= dec.Length && size <= dec.Length
    modifies dec
    ensures ok <==> size + 3 <= outLen
    ensures ok ==> dec[..size + 3] == old(dec[..size]) + BytesOf(DecodeGroup(chars[0], chars[1], chars[2], chars[3]))
    ensures SameFrom(dec[..], old(dec[..]), if ok then size + 3 else size)
  {
    hide DecodeGroup;
    var buf := ConvertGroup(chars);
    if outLen < size + 3 {
      return false;
    }
    WriteBytes(dec, size, buf, 3);
    assert buf[..3] == buf;
    return true;
  }

  /** A full group of the main loop, and what it makes of the groups before it. */
  method FinishGroup(dec: array<bv8>, outLen: int, chars: seq<bv8>, size: nat, ghost p: seq<bv8>, ghost done: nat)
    returns (ok: bool)
    requires outLen <= dec.Length && size <= dec.Length
    requires done + 4 <= |p| && done % 4 == 0 && chars == p[done..done + 4]
    requires dec[..size] == DecodeChars(p[..done])
    modifies dec
    ensures ok ==> size + 3 <= outLen && dec[..size + 3] == DecodeChars(p[..done + 4])
    ensures !ok ==> outLen < |DecodeChars(p)|
    ensures SameFrom(dec[..], old(dec[..]), if ok then size + 3 else size)
  {
    hide DecodeChars, DecodeGroup, BytesOf;
    DecodeNextGroup(p, done);
    DecodedAtLeast(p, done);
    ok := PutGroup(dec, outLen, chars, size);
  }

  /** Between two characters: the groups up to done are written, and the next i characters are in the
      group buffer. */
  predicate DecodeState(out: seq<bv8>, before: seq<bv8>, outLen: int, size: nat,
                        tmp: seq<bv8>, i: nat, p: seq<bv8>, done: nat) {
    && i < 4 && |tmp| == 4 && done % 4 == 0 && done + i <= |p| && tmp[..i] == p[done..done + i]
    && size <= |out| && (size == 0 || size <= outLen)
    && out[..size] == DecodeChars(p[..done]) && SameFrom(out, before, size)
  }

  /** The body of the main loop, for a character of the alphabet. */
  method TakeCharacter(c: bv8, dec: array<bv8>, outLen: int, group: seq<bv8>, count: nat, first: nat,
                       ghost p: seq<bv8>, ghost done: nat, ghost before: seq<bv8>)
    returns (ok: bool, size: nat, i: nat, tmp: seq<bv8>, ghost next: nat)
    requires outLen <= dec.Length && DecodeState(dec[..], before, outLen, first, group, count, p, done)
    requires done + count < |p| && c == p[done + count]
    modifies dec
    ensures ok ==> DecodeState(dec[..], before, outLen, size, tmp, i, p, next) && next + i == done + count + 1
    ensures !ok ==> outLen < |DecodeChars(p)| && SameFrom(dec[..], before, outLen)
  {
    hide DecodeChars;
    size, i, tmp, next := first, count + 1, group[count := c], done;
    OneMoreInGroup(group, count, c, p, done);
    if i == 4 {
      assert tmp[..4] == tmp;
      ok := FinishGroup(dec, outLen, tmp, size, p, done);
      if !ok {
        return;
      }
      size := size + 3;
      i, next := 0, done + 4;
    }
    ok := true;
  }

  lemma OneMoreInGroup(group: seq<bv8>, count: nat, c: bv8, p: seq<bv8>, done: nat)
    requires count < |group| && done + count < |p| && c == p[done + count]
    requires group[..count] == p[done..done + count]
    ensures group[count := c][..count + 1] == p[done..done + count + 1]
  {
    assert group[count := c][..count + 1] == group[..count] + [c];
    assert p[done..done + count + 1] == p[done..done + count] + [c];
  }

  /** The main loop: characters up to the first outside the alphabet; every fourth completes a group. */
  method DecodeLoop(src: array<bv8>, srcSize: nat, dec: array<bv8>, outLen: int, ghost p: seq<bv8>)
    returns (ok: bool, size: nat, i: nat, tmp: seq<bv8>, ghost done: nat)
    requires srcSize <= src.Length && outLen <= dec.Length && dec != src && p == AlphabetPrefix(src[..srcSize])
    modifies dec
    ensures ok ==> DecodeState(dec[..], old(dec[..]), outLen, size, tmp, i, p, done) && done + i == |p|
    ensures !ok ==> outLen < |DecodeChars(p)| && SameFrom(dec[..], old(dec[..]), outLen)
  {
    hide InAlphabet, DecodeChars, AlphabetPrefix;
    size, i, tmp, done := 0, 0, [0, 0, 0, 0], 0;
    var left, j: nat := srcSize, 0;
    ghost var s, before := src[..srcSize], dec[..];
    NothingDecoded(before, outLen, tmp, p);
    hide DecodeState, SameFrom;
    while left > 0
      invariant 0 <= left && j + left == srcSize && done + i == j <= |p|
      invariant DecodeState(dec[..], before, outLen, size, tmp, i, p, done)
    {
      left := left - 1;
      InPrefix(s, j);
      if src[j] == PAD || !InAlphabet(src[j]) {
        break;
      }
      ok, size, i, tmp, done := TakeCharacter(src[j], dec, outLen, tmp, i, size, p, done, before);
      if !ok {
        return;
      }
      j := j + 1;
    }
    ok := true;
  }

  method DecodeGroups(src: array<bv8>, srcSize: nat, dec: array<bv8>, outLen: int)
    returns (ok: bool, size: nat, i: nat, tmp: seq<bv8>)
    requires srcSize <= src.Length && outLen <= dec.Length && dec != src
    modifies dec
    ensures SameFrom(dec[..], old(dec[..]), if ok then size else outLen)
    ensures ok ==> size <= dec.Length && (size == 0 || size <= outLen)
    ensures ok ==> var p := AlphabetPrefix(src[..srcSize]);
        && i < 4 && i <= |p| && (|p| - i) % 4 == 0
        && |tmp| == 4 && tmp[..i] == p[|p| - i..] && dec[..size] == DecodeChars(p[..|p| - i])
    ensures !ok ==> outLen < |Decode(src[..srcSize])|
  {
    hide DecodeChars, AlphabetPrefix, DecodeState, SameFrom;
    ghost var p, before := AlphabetPrefix(src[..srcSize]), dec[..];
    ghost var done;
    ok, size, i, tmp, done := DecodeLoop(src, srcSize, dec, outLen, p);
    if ok {
      AllCollected(dec[..], before, outLen, size, tmp, i, p, done);
    }
  }

  lemma NothingDecoded(out: seq<bv8>, outLen: int, tmp: seq<bv8>, p: seq<bv8>)
    requires |tmp| == 4
    ensures DecodeState(out, out, outLen, 0, tmp, 0, p, 0)
  {}

  lemma AllCollected(out: seq<bv8>, before: seq<bv8>, outLen: int, size: nat, tmp: seq<bv8>, i: nat,
                     p: seq<bv8>, done: nat)
    requires DecodeState(out, before, outLen, size, tmp, i, p, done) && done + i == |p|
    ensures i < 4 && i <= |p| && (|p| - i) % 4 == 0
    ensures |tmp| == 4 && tmp[..i] == p[|p| - i..] && size <= |out| && out[..size] == DecodeChars(p[..|p| - i])
    ensures (size == 0 || size <= outLen) && SameFrom(out, before, size)
  {
    assert done == |p| - i;
  }

  /** The remainder of one to three characters: one byte fewer than characters. */
  method DecodeRemainder(dec: array<bv8>, outLen: int, group: seq<bv8>, first: nat, count: nat)
    returns (ok: bool, size: nat)
    requires 1 <= count <= 3 && |group| == 4 && outLen <= dec.Length && first <= dec.Length
    modifies dec
    ensures ok <==> first + (count - 1) <= outLen
    ensures ok ==> size == first + (count - 1) && dec[..size] == old(dec[..first]) + DecodeTail(group[..count])
    ensures SameFrom(dec[..], old(dec[..]), if ok then size else outLen)
  {
    hide DecodeGroup;
    var i, tmp := count, group;
    var j := i;
    while j < 4
      invariant count <= j <= 4 && |tmp| == 4
      invariant forall k | 0 <= k < j :: tmp[k] == if k < count then group[k] else 0
    {
      tmp := tmp[j := 0];
      j := j + 1;
    }
    var buf := ConvertGroup(tmp);
    if outLen < first + (i - 1) {
      return false, first;
    }
    WriteBytes(dec, first, buf, i - 1);
    return true, first + (i - 1);
  }

  /** All the bytes, without their NUL. */
  method DecodeText(src: array<bv8>, srcSize: nat, dec: array<bv8>, outLen: int) returns (ok: bool, size: nat)
    requires srcSize <= src.Length && dec != src && outLen <= dec.Length
    modifies dec
    ensures ok ==> size <= dec.Length && (size == 0 || size <= outLen) && dec[..size] == Decode(src[..srcSize])
    ensures !ok ==> outLen <= |Decode(src[..srcSize])|
    ensures SameFrom(dec[..], old(dec[..]), if ok then size else outLen)
  {
    hide DecodeChars, DecodeTail, AlphabetPrefix;
    var i, tmp;
    ok, size, i, tmp := DecodeGroups(src, srcSize, dec, outLen);
    if ok {
      ghost var p := AlphabetPrefix(src[..srcSize]);
      DecodeLastGroup(p, |p| - i);
      if i > 0 {
        ok, size := DecodeRemainder(dec, outLen, tmp, size, i);
      }
    }
  }

  method B64Decode(src: array<bv8>, srcSize: nat, out: array?<bv8>, outLen: int) returns (r: int)
    requires srcSize <= src.Length
    requires out != null ==> out != src && outLen <= out.Length
    modifies out
    ensures out == null ==> r == -1
    ensures out != null ==> (r == -1 <==> |Decode(src[..srcSize])| >= outLen)
    ensures out != null && r != -1 ==> 0 <= r == |Decode(src[..srcSize])| < out.Length
    ensures out != null && r >= 0 ==> out[..r] == Decode(src[..srcSize]) && out[r] == 0
    ensures out != null && r >= 0 ==> forall k | r < k < out.Length :: out[k] == old(out[k])
    ensures out != null && r >= 0 ==> (CString(out[..]) == Decode(src[..srcSize]) <==> 0 !in Decode(src[..srcSize]))
    ensures out != null && r < 0 ==> forall k | 0 <= k < out.Length && outLen <= k :: out[k] == old(out[k])
  {
    hide Decode, CString;
    if out == null {
      return -1;
    }
    var ok, size := DecodeText(src, srcSize, out, outLen);
    if !ok || outLen < size + 1 {
      return -1;
    }
    out[size] := 0;
    WholeUpToNul(Decode(src[..srcSize]), out[..]);
    return size;
  }

  lemma EncodeNextGroup(s: seq<bv8>, done: nat)
    requires done + 3 <= |s| && done % 3 == 0
    ensures Encode(s[..done + 3]) == Encode(s[..done]) + Chars(Split(Bytes3(s[done], s[done + 1], s[done + 2])))
  {
    hide Split;
    var g := s[done..done + 3];
    assert s[..done + 3] == s[..done] + g;
    EncodeAppend(s[..done], g);
    assert g[3..] == [];
  }

  lemma EncodedAtLeast(s: seq<bv8>, done: nat)
    requires done < |s| && done % 3 == 0
    ensures |Encode(s)| >= done / 3 * 4 + 4
  {}

  lemma EncodeLastGroup(s: seq<bv8>, done: nat)
    requires done <= |s| < done + 3 && done % 3 == 0
    ensures Encode(s) == Encode(s[..done]) + EncodeTail(s[done..])
    ensures done == |s| ==> EncodeTail(s[done..]) == []
  {
    assert s == s[..done] + s[done..];
    EncodeAppend(s[..done], s[done..]);
  }

  /** Where a remainder's characters come from: the converted group, then padding. */
  lemma TailOfGroup(tmp: seq<bv8>, count: nat)
    requires |tmp| == 3 && 1 <= count <= 2
    requires forall k | count <= k < 3 :: tmp[k] == 0
    ensures var tail := EncodeTail(tmp[..count]);
            forall j | 0 <= j < 4 :: tail[j] == if j <= count then Alphabet(SplitGroup(tmp)[j]) else PAD
  {
    hide Split, Alphabet;
  }

  lemma InPrefix(s: seq<bv8>, j: nat)
    requires j < |s| && j <= |AlphabetPrefix(s)|
    ensures var p := AlphabetPrefix(s);
            if s[j] == PAD || !InAlphabet(s[j]) then j == |p| else j < |p| && p[j] == s[j]
  {}

  lemma DecodeNextGroup(p: seq<bv8>, done: nat)
    requires done + 4 <= |p| && done % 4 == 0
    ensures DecodeChars(p[..done + 4])
         == DecodeChars(p[..done]) + BytesOf(DecodeGroup(p[done], p[done + 1], p[done + 2], p[done + 3]))
  {
    hide DecodeGroup;
    var g := p[done..done + 4];
    assert p[..done + 4] == p[..done] + g;
    DecodeAppend(p[..done], g);
    assert g[4..] == [];
  }

  lemma DecodedAtLeast(p: seq<bv8>, done: nat)
    requires done + 4 <= |p| && done % 4 == 0
    ensures |DecodeChars(p)| >= |DecodeChars(p[..done])| + 3
  {}

  lemma DecodeLastGroup(p: seq<bv8>, n: nat)
    requires n <= |p| < n + 4 && n % 4 == 0
    ensures DecodeChars(p) == DecodeChars(p[..n]) + DecodeTail(p[n..])
    ensures n == |p| ==> DecodeChars(p) == DecodeChars(p[..n])
  {
    assert p == p[..n] + p[n..];
    DecodeAppend(p[..n], p[n..]);
    hide DecodeTail;
  }
}
