/** The scalar UTF-8 validator against the grammar in section 4 of RFC 3629. */
module Utf8Validator {

  // ----- the grammar -----

  predicate Tail(b: bv8) {
    0x80 <= b <= 0xBF
  }

  /** UTF8-char = UTF8-1 / UTF8-2 / UTF8-3 / UTF8-4 */
  predicate IsChar(c: seq<bv8>) {
    || (|c| == 1 && c[0] <= 0x7F)
    || (|c| == 2 && 0xC2 <= c[0] <= 0xDF && Tail(c[1]))
    || (|c| == 3 && Tail(c[2]) &&
        (|| (c[0] == 0xE0 && 0xA0 <= c[1] <= 0xBF)
         || (0xE1 <= c[0] <= 0xEC && Tail(c[1]))
         || (c[0] == 0xED && 0x80 <= c[1] <= 0x9F)
         || (0xEE <= c[0] <= 0xEF && Tail(c[1]))))
    || (|c| == 4 && Tail(c[2]) && Tail(c[3]) &&
        (|| (c[0] == 0xF0 && 0x90 <= c[1] <= 0xBF)
         || (0xF1 <= c[0] <= 0xF3 && Tail(c[1]))
         || (c[0] == 0xF4 && 0x80 <= c[1] <= 0x8F)))
  }

  function Concat(chars: seq<seq<bv8>>): seq<bv8> {
    if chars == [] then [] else chars[0] + Concat(chars[1..])
  }

  /** UTF8-octets = *( UTF8-char ) */
  ghost predicate Octets(s: seq<bv8>) {
    exists chars :: (forall i :: 0 <= i < |chars| ==> IsChar(chars[i])) && Concat(chars) == s
  }

  // ----- the grammar generates exactly the encodings of scalar values -----

  predicate IsScalar(cp: bv32) {
    cp <= 0x10FFFF && !(0xD800 <= cp <= 0xDFFF)
  }

  function Low(cp: bv32): bv8 {
    ((cp & 0x3F) | 0x80) as bv8
  }

  function Encode(cp: bv32): seq<bv8>
    requires cp <= 0x10FFFF
  {
    if cp < 0x80 then [cp as bv8]
    else if cp < 0x800 then [((cp >> 6) | 0xC0) as bv8, Low(cp)]
    else if cp < 0x10000 then [((cp >> 12) | 0xE0) as bv8, Low(cp >> 6), Low(cp)]
    else [((cp >> 18) | 0xF0) as bv8, Low(cp >> 12), Low(cp >> 6), Low(cp)]
  }

  function Two(a: bv8, b: bv8): bv32 {
    (((a & 0x1F) as bv32) << 6) | ((b & 0x3F) as bv32)
  }

  function Three(a: bv8, b: bv8, c: bv8): bv32 {
    (((a & 0x0F) as bv32) << 12) | (((b & 0x3F) as bv32) << 6) | ((c & 0x3F) as bv32)
  }

  function Four(a: bv8, b: bv8, c: bv8, d: bv8): bv32 {
    (((a & 0x07) as bv32) << 18) | (((b & 0x3F) as bv32) << 12) | (((c & 0x3F) as bv32) << 6) | ((d & 0x3F) as bv32)
  }

  function CodePoint(c: seq<bv8>): bv32
    requires 1 <= |c| <= 4
  {
    if |c| == 1 then c[0] as bv32
    else if |c| == 2 then Two(c[0], c[1])
    else if |c| == 3 then Three(c[0], c[1], c[2])
    else Four(c[0], c[1], c[2], c[3])
  }

  /** No overlong forms, no surrogates, nothing beyond U+10FFFF: a character is the encoding of its own code point. */
  lemma CharIsEncoding(c: seq<bv8>)
    requires IsChar(c)
    ensures IsScalar(CodePoint(c)) && Encode(CodePoint(c)) == c
  {
    hide Two, Three, Four, Encode;
    if |c| == 1 {
      OneBack(c[0]);
    } else if |c| == 2 {
      EncodeTwo(c[0], c[1]);
    } else if |c| == 3 {
      EncodeThree(c[0], c[1], c[2]);
    } else {
      EncodeFour(c[0], c[1], c[2], c[3]);
    }
  }

  lemma OneBack(a: bv8)
    requires a <= 0x7F
    ensures a as bv32 < 0x80 && Encode(a as bv32) == [a]
  {}

  lemma EncodeTwo(a: bv8, b: bv8)
    requires 0xC2 <= a <= 0xDF && Tail(b)
    ensures IsScalar(Two(a, b)) && Encode(Two(a, b)) == [a, b]
  {
    hide Two, Low;
    TwoBack(a, b);
  }

  lemma EncodeThree(a: bv8, b: bv8, c: bv8)
    requires 0xE0 <= a <= 0xEF && Tail(b) && Tail(c) && (a == 0xE0 ==> 0xA0 <= b) && (a == 0xED ==> b <= 0x9F)
    ensures IsScalar(Three(a, b, c)) && Encode(Three(a, b, c)) == [a, b, c]
  {
    hide Three, Low;
    ThreeBack(a, b, c);
  }

  lemma EncodeFour(a: bv8, b: bv8, c: bv8, d: bv8)
    requires 0xF0 <= a <= 0xF4 && Tail(b) && Tail(c) && Tail(d) && (a == 0xF0 ==> 0x90 <= b) && (a == 0xF4 ==> b <= 0x8F)
    ensures IsScalar(Four(a, b, c, d)) && Encode(Four(a, b, c, d)) == [a, b, c, d]
  {
    hide Four, Low;
    FourBack(a, b, c, d);
  }

  lemma TwoBack(a: bv8, b: bv8)
    requires 0xC2 <= a <= 0xDF && Tail(b)
    ensures 0x80 <= Two(a, b) < 0x800 && ((Two(a, b) >> 6) | 0xC0) as bv8 == a && Low(Two(a, b)) == b
  {}

  lemma ThreeBack(a: bv8, b: bv8, c: bv8)
    requires 0xE0 <= a <= 0xEF && Tail(b) && Tail(c) && (a == 0xE0 ==> 0xA0 <= b) && (a == 0xED ==> b <= 0x9F)
    ensures var cp := Three(a, b, c);
            && 0x800 <= cp < 0x10000 && !(0xD800 <= cp <= 0xDFFF)
            && ((cp >> 12) | 0xE0) as bv8 == a && Low(cp >> 6) == b && Low(cp) == c
  {}

  lemma FourBack(a: bv8, b: bv8, c: bv8, d: bv8)
    requires 0xF0 <= a <= 0xF4 && Tail(b) && Tail(c) && Tail(d) && (a == 0xF0 ==> 0x90 <= b) && (a == 0xF4 ==> b <= 0x8F)
    ensures var cp := Four(a, b, c, d);
            && 0x10000 <= cp <= 0x10FFFF
            && ((cp >> 18) | 0xF0) as bv8 == a && Low(cp >> 12) == b && Low(cp >> 6) == c && Low(cp) == d
  {}

  lemma EncodingIsChar(cp: bv32)
    requires IsScalar(cp)
    ensures IsChar(Encode(cp)) && CodePoint(Encode(cp)) == cp
  {
    hide Two, Three, Four, Low;
    if cp < 0x80 {
    } else if cp < 0x800 {
      TwoForth(cp);
    } else if cp < 0x10000 {
      ThreeForth(cp);
    } else {
      FourForth(cp);
    }
  }

  lemma TwoForth(cp: bv32)
    requires 0x80 <= cp < 0x800
    ensures var a := ((cp >> 6) | 0xC0) as bv8; 0xC2 <= a <= 0xDF && Tail(Low(cp)) && Two(a, Low(cp)) == cp
  {}

  lemma ThreeForth(cp: bv32)
    requires 0x800 <= cp < 0x10000 && !(0xD800 <= cp <= 0xDFFF)
    ensures var a, b := ((cp >> 12) | 0xE0) as bv8, Low(cp >> 6);
            && 0xE0 <= a <= 0xEF && Tail(b) && Tail(Low(cp)) && (a == 0xE0 ==> 0xA0 <= b) && (a == 0xED ==> b <= 0x9F)
            && Three(a, b, Low(cp)) == cp
  {}

  lemma FourForth(cp: bv32)
    requires 0x10000 <= cp <= 0x10FFFF
    ensures var a, b := ((cp >> 18) | 0xF0) as bv8, Low(cp >> 12);
            && 0xF0 <= a <= 0xF4 && Tail(b) && Tail(Low(cp >> 6)) && Tail(Low(cp))
            && (a == 0xF0 ==> 0x90 <= b) && (a == 0xF4 ==> b <= 0x8F)
            && Four(a, b, Low(cp >> 6), Low(cp)) == cp
  {
    hide Four;
    FourLead(cp);
    FourJoin(cp);
  }

  lemma FourLead(cp: bv32)
    requires 0x10000 <= cp <= 0x10FFFF
    ensures var a, b := ((cp >> 18) | 0xF0) as bv8, Low(cp >> 12);
            0xF0 <= a <= 0xF4 && (a == 0xF0 ==> 0x90 <= b) && (a == 0xF4 ==> b <= 0x8F)
  {}

  lemma FourJoin(cp: bv32)
    requires cp <= 0x10FFFF
    ensures Four(((cp >> 18) | 0xF0) as bv8, Low(cp >> 12), Low(cp >> 6), Low(cp)) == cp
  {}

  // ----- reading characters from the left -----

  /** The length that the first byte announces; 0 when no character starts so. */
  function Announced(b: bv8): nat {
    if b < 0x80 then 1 else if (b & 0xE0) == 0xC0 then 2 else if (b & 0xF0) == 0xE0 then 3
    else if (b & 0xF8) == 0xF0 then 4 else 0
  }

  /** s begins with a character of the announced length. */
  predicate StartsWithChar(s: seq<bv8>)
    requires s != []
  {
    var n := Announced(s[0]);
    0 < n <= |s| && IsChar(s[..n])
  }

  lemma CharLength(c: seq<bv8>)
    requires IsChar(c)
    ensures |c| == Announced(c[0])
  {}

  lemma {:induction false} ConcatSplit(c: seq<bv8>, s: seq<bv8>)
    requires IsChar(c)
    ensures Octets(c + s) <==> Octets(s)
  {
    if Octets(s) {
      var chars :| (forall i :: 0 <= i < |chars| ==> IsChar(chars[i])) && Concat(chars) == s;
      assert ([c] + chars)[1..] == chars;
      assert Concat([c] + chars) == c + s;
    }
    if Octets(c + s) {
      var chars :| (forall i :: 0 <= i < |chars| ==> IsChar(chars[i])) && Concat(chars) == c + s;
      FirstChar(chars, c, s);
    }
  }

  /** Any parse of c + s begins with c, since the first byte fixes the length. */
  lemma FirstChar(chars: seq<seq<bv8>>, c: seq<bv8>, s: seq<bv8>)
    requires IsChar(c) && (forall i :: 0 <= i < |chars| ==> IsChar(chars[i])) && Concat(chars) == c + s
    ensures chars != [] && chars[0] == c && Concat(chars[1..]) == s && Octets(s)
  {
    var d, rest := chars[0], Concat(chars[1..]);
    CharLength(c);
    CharLength(d);
    assert d[0] == (d + rest)[0] == (c + s)[0] == c[0];
    assert d == (d + rest)[..|d|] == (c + s)[..|c|] == c;
    assert rest == (d + rest)[|d|..] == (c + s)[|c|..] == s;
  }

  lemma Starts(s: seq<bv8>)
    requires s != []
    ensures Octets(s) <==> StartsWithChar(s) && Octets(s[Announced(s[0])..])
  {
    var n := Announced(s[0]);
    if StartsWithChar(s) {
      assert s == s[..n] + s[n..];
      ConcatSplit(s[..n], s[n..]);
    }
    if Octets(s) {
      var chars :| (forall i :: 0 <= i < |chars| ==> IsChar(chars[i])) && Concat(chars) == s;
      var c, rest := chars[0], Concat(chars[1..]);
      CharLength(c);
      assert c[0] == s[0] && s[..|c|] == c;
    }
  }

  lemma {:induction false} SkipAscii(s: seq<bv8>, n: nat)
    requires n <= |s| && forall i :: 0 <= i < n ==> s[i] < 0x80
    ensures Octets(s) <==> Octets(s[n..])
  {
    if n == 0 {
      assert s[0..] == s;
    } else {
      Starts(s);
      SkipAscii(s[1..], n - 1);
      assert s[1..][n - 1..] == s[n..];
    }
  }

  // ----- sixteen bytes at a time -----

  /** Eight bytes as one little-endian word. */
  function Word(s: seq<bv8>, p: nat): bv64
    requires p + 8 <= |s|
  {
    (s[p] as bv64) | ((s[p + 1] as bv64) << 8) | ((s[p + 2] as bv64) << 16) | ((s[p + 3] as bv64) << 24)
    | ((s[p + 4] as bv64) << 32) | ((s[p + 5] as bv64) << 40) | ((s[p + 6] as bv64) << 48) | ((s[p + 7] as bv64) << 56)
  }

  const HIGH_BITS: bv64 := 0x8080808080808080

  lemma WordIsAscii(s: seq<bv8>, p: nat)
    requires p + 8 <= |s|
    ensures Word(s, p) & HIGH_BITS == 0 <==> forall i :: p <= i < p + 8 ==> s[i] < 0x80
  {
    HighBits(s[p], s[p + 1], s[p + 2], s[p + 3], s[p + 4], s[p + 5], s[p + 6], s[p + 7]);
    assert (forall i :: p <= i < p + 8 ==> s[i] < 0x80) <==>
           s[p] < 0x80 && s[p + 1] < 0x80 && s[p + 2] < 0x80 && s[p + 3] < 0x80
           && s[p + 4] < 0x80 && s[p + 5] < 0x80 && s[p + 6] < 0x80 && s[p + 7] < 0x80;
  }

  lemma HighBits(a: bv8, b: bv8, c: bv8, d: bv8, e: bv8, f: bv8, g: bv8, h: bv8)
    ensures ((a as bv64) | ((b as bv64) << 8) | ((c as bv64) << 16) | ((d as bv64) << 24)
             | ((e as bv64) << 32) | ((f as bv64) << 40) | ((g as bv64) << 48) | ((h as bv64) << 56)) & HIGH_BITS == 0
            <==> a < 0x80 && b < 0x80 && c < 0x80 && d < 0x80 && e < 0x80 && f < 0x80 && g < 0x80 && h < 0x80
  {}

  lemma OrIsZero(v: bv64, w: bv64)
    ensures (v | w) & HIGH_BITS == 0 <==> v & HIGH_BITS == 0 && w & HIGH_BITS == 0
  {}

  // ----- the validator -----

  lemma TwoBytes(a: bv8, b: bv8)
    requires (a & 0xE0) == 0xC0
    ensures IsChar([a, b]) <==> (b & 0xC0) == 0x80 && !(Two(a, b) < 0x80 || 0x7FF < Two(a, b))
  {}

  lemma ThreeBytes(a: bv8, b: bv8, c: bv8)
    requires (a & 0xF0) == 0xE0
    ensures IsChar([a, b, c]) <==>
            && (b & 0xC0) == 0x80 && (c & 0xC0) == 0x80
            && var cp := Three(a, b, c); !(cp < 0x800 || 0xFFFF < cp || (0xD7FF < cp && cp < 0xE000))
  {
    hide Three;
    TailMask(b);
    TailMask(c);
    if Tail(b) && Tail(c) {
      ThreeRange(a, b, c);
    }
  }

  lemma ThreeRange(a: bv8, b: bv8, c: bv8)
    requires (a & 0xF0) == 0xE0 && Tail(b) && Tail(c)
    ensures Three(a, b, c) < 0x800 <==> a == 0xE0 && b < 0xA0
    ensures 0xD7FF < Three(a, b, c) < 0xE000 <==> a == 0xED && b > 0x9F
    ensures Three(a, b, c) <= 0xFFFF && 0xE0 <= a <= 0xEF
  {}

  lemma FourBytes(a: bv8, b: bv8, c: bv8, d: bv8)
    requires (a & 0xF8) == 0xF0
    ensures IsChar([a, b, c, d]) <==>
            && (b & 0xC0) == 0x80 && (c & 0xC0) == 0x80 && (d & 0xC0) == 0x80
            && var cp := Four(a, b, c, d); !(cp <= 0xFFFF || 0x10FFFF < cp)
  {
    hide Four;
    TailMask(b);
    TailMask(c);
    TailMask(d);
    if Tail(b) && Tail(c) && Tail(d) {
      FourRange(a, b, c, d);
    }
  }

  lemma TailMask(b: bv8)
    ensures Tail(b) <==> (b & 0xC0) == 0x80
  {}

  lemma FourRange(a: bv8, b: bv8, c: bv8, d: bv8)
    requires (a & 0xF8) == 0xF0 && Tail(b) && Tail(c) && Tail(d)
    ensures Four(a, b, c, d) > 0xFFFF <==> !(a == 0xF0 && b < 0x90)
    ensures Four(a, b, c, d) > 0x10FFFF <==> a > 0xF4 || (a == 0xF4 && b > 0x8F)
    ensures 0xF0 <= a <= 0xF7
  {}

  /** The validator accepts exactly what the grammar generates, at every length. */
  method ValidateUtf8(data: seq<bv8>) returns (ok: bool)
    ensures ok <==> Octets(data)
  {
    hide Octets, IsChar, Word, Two, Three, Four;
    var pos := 0;
    assert data[0..] == data;
    while pos < |data|
      invariant pos <= |data| && (Octets(data) <==> Octets(data[pos..]))
    {
      var next := pos + 16;
      if next <= |data| {
        var v := Word(data, pos) | Word(data, pos + 8);
        if v & HIGH_BITS == 0 {
          SixteenAscii(data, pos);
          pos := next;
          continue;
        }
      }
      var byte := data[pos];
      ghost var s := data[pos..];
      Starts(s);
      assert s[0] == byte;
      if byte < 0x80 {
        OneByte(s);
        assert s[1..] == data[pos + 1..];
        pos := pos + 1;
        continue;
      } else if (byte & 0xE0) == 0xC0 {
        next := pos + 2;
        if next > |data| { return false; }
        assert s[..2] == [byte, data[pos + 1]];
        TwoBytes(byte, data[pos + 1]);
        if (data[pos + 1] & 0xC0) != 0x80 { return false; }
        var cp := Two(byte, data[pos + 1]);
        if cp < 0x80 || 0x7FF < cp { return false; }
      } else if (byte & 0xF0) == 0xE0 {
        next := pos + 3;
        if next > |data| { return false; }
        assert s[..3] == [byte, data[pos + 1], data[pos + 2]];
        ThreeBytes(byte, data[pos + 1], data[pos + 2]);
        if (data[pos + 1] & 0xC0) != 0x80 { return false; }
        if (data[pos + 2] & 0xC0) != 0x80 { return false; }
        var cp := Three(byte, data[pos + 1], data[pos + 2]);
        if cp < 0x800 || 0xFFFF < cp || (0xD7FF < cp && cp < 0xE000) { return false; }
      } else if (byte & 0xF8) == 0xF0 {
        next := pos + 4;
        if next > |data| { return false; }
        assert s[..4] == [byte, data[pos + 1], data[pos + 2], data[pos + 3]];
        FourBytes(byte, data[pos + 1], data[pos + 2], data[pos + 3]);
        if (data[pos + 1] & 0xC0) != 0x80 { return false; }
        if (data[pos + 2] & 0xC0) != 0x80 { return false; }
        if (data[pos + 3] & 0xC0) != 0x80 { return false; }
        var cp := Four(byte, data[pos + 1], data[pos + 2], data[pos + 3]);
        if cp <= 0xFFFF || 0x10FFFF < cp { return false; }
      } else {
        return false;
      }
      assert s[next - pos..] == data[next..];
      pos := next;
    }
    NothingLeft(data[pos..]);
    return true;
  }

  lemma NothingLeft(s: seq<bv8>)
    requires s == []
    ensures Octets(s)
  {
    var none: seq<seq<bv8>> := [];
    assert Concat(none) == s;
  }

  lemma OneByte(s: seq<bv8>)
    requires s != [] && s[0] < 0x80
    ensures StartsWithChar(s) && Announced(s[0]) == 1
  {}

  lemma SixteenAscii(data: seq<bv8>, pos: nat)
    requires pos + 16 <= |data| && (Word(data, pos) | Word(data, pos + 8)) & HIGH_BITS == 0
    ensures Octets(data[pos..]) <==> Octets(data[pos + 16..])
  {
    hide Word, Octets;
    OrIsZero(Word(data, pos), Word(data, pos + 8));
    WordIsAscii(data, pos);
    WordIsAscii(data, pos + 8);
    var s := data[pos..];
    assert forall i :: 0 <= i < 16 ==> s[i] == data[pos + i];
    SkipAscii(s, 16);
    assert s[16..] == data[pos + 16..];
  }
}
