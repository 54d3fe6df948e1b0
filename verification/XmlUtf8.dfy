/** What the bytes written for a character reference spell, in the terms of section 4 of RFC 3629. */
module XmlUtf8 {
  import opened XmlText
  import V = Utf8Validator

  /** The number that a word holds. */
  ghost function Num(x: bv32): nat { x as int }
  ghost function Num8(x: bv8): nat { x as int }

  function ToByte(c: char): (b: bv8) {
    (c as int % 256) as bv8
  }

  lemma FromInt(n: nat)
    requires n < 256
    ensures Num8(n as bv8) == n
  {}

  lemma ToByteIs(c: char)
    ensures Num8(ToByte(c)) == c as int % 256
  {
    hide Num8;
    FromInt(c as int % 256);
  }

  /** The bytes that the chars of a text stand for. */
  function Bytes(w: string): (b: seq<bv8>)
    ensures |b| == |w| && forall k :: 0 <= k < |w| ==> b[k] == ToByte(w[k])
  {
    seq(|w|, k requires 0 <= k < |w| => ToByte(w[k]))
  }

  /** Unicode scalar values: no surrogates, nothing beyond U+10FFFF. */
  ghost predicate IsScalar(ch: nat) {
    ch <= 0x10FFFF && !(0xD800 <= ch <= 0xDFFF)
  }

  /** w is, byte by byte, the character of the grammar whose code point is ch. */
  ghost predicate Spells(w: string, ch: nat) {
    && (forall k :: 0 <= k < |w| ==> w[k] as int < 256)
    && V.IsChar(Bytes(w)) && Num(V.CodePoint(Bytes(w))) == ch
  }

  // ----- code points as numbers -----

  /** Words are joined from six bits at a time. */
  function Six(b: bv8): bv32 { (b & 0x3F) as bv32 }
  function Lead2(a: bv8): bv32 { (a & 0x1F) as bv32 }
  function Lead3(a: bv8): bv32 { (a & 0x0F) as bv32 }
  function Lead4(a: bv8): bv32 { (a & 0x07) as bv32 }

  function Join6(p: bv32, w: bv32): bv32 { (p << 6) | w }
  function Join12(p: bv32, w: bv32): bv32 { (p << 12) | w }
  function Join18(p: bv32, w: bv32): bv32 { (p << 18) | w }

  lemma Join6Is(p: bv32, w: bv32)
    requires p < 64 && w < 0x40
    ensures Num(Join6(p, w)) == Num(p) * 0x40 + Num(w) && Join6(p, w) < 0x1000
  {}

  lemma Join12Is(p: bv32, w: bv32)
    requires p < 64 && w < 0x1000
    ensures Num(Join12(p, w)) == Num(p) * 0x1000 + Num(w) && Join12(p, w) < 0x40000
  {}

  lemma Join18Is(p: bv32, w: bv32)
    requires p < 8 && w < 0x40000
    ensures Num(Join18(p, w)) == Num(p) * 0x40000 + Num(w)
  {}

  lemma TailIs(b: bv8)
    requires V.Tail(b)
    ensures Num8(b) == 0x80 + Num(Six(b)) && Six(b) < 0x40
  {}

  lemma LeadIs(a: bv8)
    ensures 0xC0 <= a <= 0xDF ==> Num8(a) == 0xC0 + Num(Lead2(a)) && Lead2(a) < 64
    ensures 0xE0 <= a <= 0xEF ==> Num8(a) == 0xE0 + Num(Lead3(a)) && Lead3(a) < 64
    ensures 0xF0 <= a <= 0xF7 ==> Num8(a) == 0xF0 + Num(Lead4(a)) && Lead4(a) < 8
  {}

  lemma Joined2(a: bv8, b: bv8)
    ensures V.Two(a, b) == Join6(Lead2(a), Six(b))
  {}

  lemma Joined3(a: bv8, b: bv8, c: bv8)
    ensures V.Three(a, b, c) == Join12(Lead3(a), Join6(Six(b), Six(c)))
  {
    hide Lead3, Six, V.Three;
    Joined3Is(a, b, c);
    Regroup(Lead3(a) << 12, Six(b) << 6, Six(c));
  }

  lemma Joined3Is(a: bv8, b: bv8, c: bv8)
    ensures V.Three(a, b, c) == ((Lead3(a) << 12) | (Six(b) << 6)) | Six(c)
  {}

  lemma Joined4(a: bv8, b: bv8, c: bv8, d: bv8)
    ensures V.Four(a, b, c, d) == Join18(Lead4(a), Join12(Six(b), Join6(Six(c), Six(d))))
  {
    hide Lead4, Six, V.Four;
    Joined4Is(a, b, c, d);
    var x, y, z, t := Lead4(a) << 18, Six(b) << 12, Six(c) << 6, Six(d);
    Regroup(x | y, z, t);
    Regroup(x, y, z | t);
  }

  lemma Joined4Is(a: bv8, b: bv8, c: bv8, d: bv8)
    ensures V.Four(a, b, c, d) == (((Lead4(a) << 18) | (Six(b) << 12)) | (Six(c) << 6)) | Six(d)
  {}

  lemma Regroup(x: bv32, y: bv32, z: bv32)
    ensures (x | y) | z == x | (y | z)
  {}

  lemma TwoIs(a: bv8, b: bv8)
    requires 0xC0 <= a <= 0xDF && V.Tail(b)
    ensures Num(V.Two(a, b)) == (Num8(a) - 0xC0) * 0x40 + (Num8(b) - 0x80)
  {
    hide *;
    LeadIs(a);
    TailIs(b);
    Join6Is(Lead2(a), Six(b));
    Joined2(a, b);
  }

  lemma ThreeIs(a: bv8, b: bv8, c: bv8)
    requires 0xE0 <= a <= 0xEF && V.Tail(b) && V.Tail(c)
    ensures Num(V.Three(a, b, c)) == (Num8(a) - 0xE0) * 0x1000 + (Num8(b) - 0x80) * 0x40 + (Num8(c) - 0x80)
  {
    hide *;
    LeadIs(a);
    TailIs(b);
    TailIs(c);
    Join6Is(Six(b), Six(c));
    Join12Is(Lead3(a), Join6(Six(b), Six(c)));
    Joined3(a, b, c);
  }

  lemma FourIs(a: bv8, b: bv8, c: bv8, d: bv8)
    requires 0xF0 <= a <= 0xF7 && V.Tail(b) && V.Tail(c) && V.Tail(d)
    ensures Num(V.Four(a, b, c, d))
            == (Num8(a) - 0xF0) * 0x40000 + (Num8(b) - 0x80) * 0x1000 + (Num8(c) - 0x80) * 0x40 + (Num8(d) - 0x80)
  {
    hide *;
    LeadIs(a);
    TailIs(b);
    TailIs(c);
    TailIs(d);
    Join6Is(Six(c), Six(d));
    Join12Is(Six(b), Join6(Six(c), Six(d)));
    Join18Is(Lead4(a), Join12(Six(b), Join6(Six(c), Six(d))));
    Joined4(a, b, c, d);
  }

  // ----- what Utf8 computes -----

  /** The bounds of the grammar, as numbers. */
  lemma Bounds(b: bv8)
    ensures (b <= 0x7F <==> Num8(b) <= 0x7F) && (b <= 0x8F <==> Num8(b) <= 0x8F) && (b <= 0x9F <==> Num8(b) <= 0x9F)
    ensures (b <= 0xBF <==> Num8(b) <= 0xBF) && (0x80 <= b <==> 0x80 <= Num8(b)) && (0x90 <= b <==> 0x90 <= Num8(b))
    ensures (0xA0 <= b <==> 0xA0 <= Num8(b)) && (0xC2 <= b <==> 0xC2 <= Num8(b)) && (b <= 0xDF <==> Num8(b) <= 0xDF)
  {}

  lemma LeadBounds(b: bv8)
    ensures (b == 0xE0 <==> Num8(b) == 0xE0) && (0xE1 <= b <==> 0xE1 <= Num8(b)) && (b <= 0xEC <==> Num8(b) <= 0xEC)
    ensures (b == 0xED <==> Num8(b) == 0xED) && (0xEE <= b <==> 0xEE <= Num8(b)) && (b <= 0xEF <==> Num8(b) <= 0xEF)
    ensures (b == 0xF0 <==> Num8(b) == 0xF0) && (0xF1 <= b <==> 0xF1 <= Num8(b)) && (b <= 0xF3 <==> Num8(b) <= 0xF3)
    ensures b == 0xF4 <==> Num8(b) == 0xF4
  {}

  lemma ByteIs(n: nat)
    requires n < 256
    ensures Byte(n) as int == n && Num8(ToByte(Byte(n))) == n
  {
    hide Num8, ToByte;
    ToByteIs(Byte(n));
  }

  lemma OneIs(a: bv8)
    ensures Num(a as bv32) == Num8(a)
  {}

  lemma CharOne(a: bv8)
    requires Num8(a) < 0x80
    ensures V.IsChar([a]) && Num(V.CodePoint([a])) == Num8(a)
  {
    hide Num, Num8;
    Bounds(a);
    OneIs(a);
  }

  lemma CharTwo(a: bv8, b: bv8)
    requires 0xC2 <= Num8(a) <= 0xDF && 0x80 <= Num8(b) <= 0xBF
    ensures V.IsChar([a, b]) && Num(V.CodePoint([a, b])) == (Num8(a) - 0xC0) * 0x40 + (Num8(b) - 0x80)
  {
    hide Num, Num8, V.Two;
    Bounds(a);
    Bounds(b);
    TwoIs(a, b);
  }

  lemma CharThree(a: bv8, b: bv8, c: bv8)
    requires 0xE0 <= Num8(a) <= 0xEF && 0x80 <= Num8(b) <= 0xBF && 0x80 <= Num8(c) <= 0xBF
    requires (Num8(a) == 0xE0 ==> 0xA0 <= Num8(b)) && (Num8(a) == 0xED ==> Num8(b) <= 0x9F)
    ensures V.IsChar([a, b, c])
    ensures Num(V.CodePoint([a, b, c])) == (Num8(a) - 0xE0) * 0x1000 + (Num8(b) - 0x80) * 0x40 + (Num8(c) - 0x80)
  {
    hide Num, Num8, V.Three;
    LeadBounds(a);
    Bounds(b);
    Bounds(c);
    ThreeIs(a, b, c);
  }

  lemma CharFour(a: bv8, b: bv8, c: bv8, d: bv8)
    requires 0xF0 <= Num8(a) <= 0xF4 && 0x80 <= Num8(b) <= 0xBF && 0x80 <= Num8(c) <= 0xBF && 0x80 <= Num8(d) <= 0xBF
    requires (Num8(a) == 0xF0 ==> 0x90 <= Num8(b)) && (Num8(a) == 0xF4 ==> Num8(b) <= 0x8F)
    ensures V.IsChar([a, b, c, d])
    ensures Num(V.CodePoint([a, b, c, d]))
            == (Num8(a) - 0xF0) * 0x40000 + (Num8(b) - 0x80) * 0x1000 + (Num8(c) - 0x80) * 0x40 + (Num8(d) - 0x80)
  {
    hide Num, Num8, V.Four;
    LeadBounds(a);
    Bounds(b);
    Bounds(c);
    Bounds(d);
    FourIs(a, b, c, d);
  }

  /** The groups of six bits that a code is cut into. */
  lemma Sixes(ch: nat)
    ensures ch == ch / 0x40 * 0x40 + ch % 0x40 && ch / 0x40 == ch / 0x1000 * 0x40 + ch / 0x40 % 0x40
    ensures ch / 0x1000 == ch / 0x40000 * 0x40 + ch / 0x1000 % 0x40
  {}

  /** The bytes of a scalar value are the one character of the grammar whose code point it is; no other code gives such. */
  lemma Utf8IsEncoding(ch: nat)
    ensures Spells(Utf8(ch), ch) <==> IsScalar(ch)
  {
    if IsScalar(ch) {
      ScalarSpelled(ch);
    } else if Spells(Utf8(ch), ch) {
      V.CharIsEncoding(Bytes(Utf8(ch)));
      ScalarNumber(V.CodePoint(Bytes(Utf8(ch))));
    }
  }

  lemma ScalarNumber(cp: bv32)
    requires V.IsScalar(cp)
    ensures IsScalar(Num(cp))
  {}

  lemma ScalarSpelled(ch: nat)
    requires IsScalar(ch)
    ensures Spells(Utf8(ch), ch)
  {
    hide *;
    ScalarIs(ch);
    if ch < 0x80 {
      SpelledOne(ch);
    } else if ch < 0x800 {
      SpelledTwo(ch);
    } else if ch < 0x10000 {
      SpelledThree(ch);
    } else {
      SpelledFour(ch);
    }
  }

  lemma ScalarIs(ch: nat)
    requires IsScalar(ch)
    ensures ch <= 0x10FFFF && !(0xD800 <= ch <= 0xDFFF)
  {}

  lemma SpelledOne(ch: nat)
    requires ch < 0x80
    ensures Spells(Utf8(ch), ch)
  {
    hide Byte, ToByte, Num, Num8, V.IsChar, V.CodePoint;
    var b := Bytes(Utf8(ch));
    ByteIs(ch);
    CharOne(b[0]);
    assert b == [b[0]];
  }

  lemma SpelledTwo(ch: nat)
    requires 0x80 <= ch < 0x800
    ensures Spells(Utf8(ch), ch)
  {
    hide Byte, ToByte, Num, Num8, V.IsChar, V.CodePoint;
    Sixes(ch);
    var b := Bytes(Utf8(ch));
    ByteIs(0xC0 + ch / 64);
    ByteIs(0x80 + ch % 64);
    CharTwo(b[0], b[1]);
    assert b == [b[0], b[1]];
  }

  lemma ThreeGroups(ch: nat, x: nat, y: nat, z: nat)
    requires 0x800 <= ch < 0x10000 && !(0xD800 <= ch <= 0xDFFF) && x == ch / 4096 && y == ch / 64 % 64 && z == ch % 64
    ensures x < 16 && y < 64 && z < 64 && ch == x * 0x1000 + y * 0x40 + z
    ensures (x == 0 ==> y >= 0x20) && (x == 0xD ==> y <= 0x1F)
  {
    Sixes(ch);
  }

  lemma SpelledThree(ch: nat)
    requires 0x800 <= ch < 0x10000 && !(0xD800 <= ch <= 0xDFFF)
    ensures Spells(Utf8(ch), ch)
  {
    hide Byte, Spells;
    var x, y, z := ch / 4096, ch / 64 % 64, ch % 64;
    ThreeGroups(ch, x, y, z);
    ThreeSpelled(Utf8(ch), ch, x, y, z);
  }

  lemma ThreeSpelled(w: string, ch: nat, x: nat, y: nat, z: nat)
    requires w == [Byte(0xE0 + x), Byte(0x80 + y), Byte(0x80 + z)]
    requires x < 16 && y < 64 && z < 64 && ch == x * 0x1000 + y * 0x40 + z
    requires (x == 0 ==> y >= 0x20) && (x == 0xD ==> y <= 0x1F)
    ensures Spells(w, ch)
  {
    hide *;
    var b0, b1, b2 := ToByte(w[0]), ToByte(w[1]), ToByte(w[2]);
    ByteIs(0xE0 + x);
    ByteIs(0x80 + y);
    ByteIs(0x80 + z);
    CharThree(b0, b1, b2);
    assert Bytes(w) == [b0, b1, b2];
    IsSpelled(w, ch);
  }

  lemma FourGroups(ch: nat, x: nat, y: nat, z: nat, t: nat)
    requires 0x10000 <= ch <= 0x10FFFF && x == ch / 0x40000 && y == ch / 4096 % 64 && z == ch / 64 % 64 && t == ch % 64
    ensures x <= 4 && x % 16 == x && y < 64 && z < 64 && t < 64 && ch == x * 0x40000 + y * 0x1000 + z * 0x40 + t
    ensures (x == 0 ==> y >= 0x10) && (x == 4 ==> y <= 0xF)
  {
    Sixes(ch);
  }

  lemma SpelledFour(ch: nat)
    requires 0x10000 <= ch <= 0x10FFFF
    ensures Spells(Utf8(ch), ch)
  {
    hide Byte, Spells;
    var x, y, z, t := ch / 0x40000, ch / 4096 % 64, ch / 64 % 64, ch % 64;
    FourGroups(ch, x, y, z, t);
    FourSpelled(Utf8(ch), ch, x, y, z, t);
  }

  lemma FourSpelled(w: string, ch: nat, x: nat, y: nat, z: nat, t: nat)
    requires w == [Byte(0xF0 + x), Byte(0x80 + y), Byte(0x80 + z), Byte(0x80 + t)]
    requires x <= 4 && y < 64 && z < 64 && t < 64 && ch == x * 0x40000 + y * 0x1000 + z * 0x40 + t
    requires (x == 0 ==> y >= 0x10) && (x == 4 ==> y <= 0xF)
    ensures Spells(w, ch)
  {
    hide *;
    var b0, b1, b2, b3 := ToByte(w[0]), ToByte(w[1]), ToByte(w[2]), ToByte(w[3]);
    ByteIs(0xF0 + x);
    ByteIs(0x80 + y);
    ByteIs(0x80 + z);
    ByteIs(0x80 + t);
    CharFour(b0, b1, b2, b3);
    assert Bytes(w) == [b0, b1, b2, b3];
    IsSpelled(w, ch);
  }

  lemma IsSpelled(w: string, ch: nat)
    requires (forall k :: 0 <= k < |w| ==> w[k] as int < 256) && V.IsChar(Bytes(w)) && Num(V.CodePoint(Bytes(w))) == ch
    ensures Spells(w, ch)
  {}

  /** No other bytes spell it. */
  lemma SpelledOnce(w: string, ch: nat)
    requires Spells(w, ch)
    ensures w == Utf8(ch)
  {
    hide *;
    SpellsChar(w, ch);
    V.CharIsEncoding(Bytes(w));
    ScalarNumber(V.CodePoint(Bytes(w)));
    ScalarSpelled(ch);
    SpellsChar(Utf8(ch), ch);
    V.CharIsEncoding(Bytes(Utf8(ch)));
    SameNumber(V.CodePoint(Bytes(w)), V.CodePoint(Bytes(Utf8(ch))));
    SameBytes(w, Utf8(ch));
  }

  lemma SpellsChar(w: string, ch: nat)
    requires Spells(w, ch)
    ensures V.IsChar(Bytes(w)) && 1 <= |Bytes(w)| <= 4 && Num(V.CodePoint(Bytes(w))) == ch
    ensures forall k :: 0 <= k < |w| ==> w[k] as int < 256
  {}

  lemma SameBytes(v: string, w: string)
    requires Bytes(v) == Bytes(w) && (forall k :: 0 <= k < |v| ==> v[k] as int < 256) && forall k :: 0 <= k < |w| ==> w[k] as int < 256
    ensures v == w
  {
    hide ToByte;
    assert |v| == |Bytes(v)| == |w|;
    forall k | 0 <= k < |v| ensures v[k] == w[k] {
      assert Bytes(v)[k] == Bytes(w)[k];
      ToByteIs(v[k]);
      ToByteIs(w[k]);
    }
  }

  lemma SameNumber(x: bv32, y: bv32)
    requires Num(x) == Num(y)
    ensures x == y
  {
    assert Num(x) as bv32 == x && Num(y) as bv32 == y;
  }
}
