/** Attribute values and character data, decoded in place in a NUL-terminated buffer. */
module XmlReader {
  import opened XmlText
  import opened XmlGap
  import XmlUtf8

  // ----- references -----

  method ReadNumber(a: array<char>, s: nat, from: nat, base: nat) returns (code: nat, next: nat, ok: bool)
    requires s <= from < a.Length && a[a.Length - 1] == '\0' && (base == 10 || base == 16)
    ensures var r := Number(a[s..], from - s, base, 0);
            next == s + r.next && (ok <==> r.decoded.Some?) && (ok ==> r.decoded.value == Utf8(code))
    ensures from <= next < a.Length
  {
    var t := a[s..];
    code, next := 0, from;
    ok := false;
    while true
      invariant from <= next < a.Length && Number(t, from - s, base, 0) == Number(t, next - s, base, code)
      decreases a.Length - next
    {
      var ch := a[next];
      assert Peek(t, next - s) == ch;
      var d := Digit(ch, base);
      if d.Some? {
        code := (base * code + d.value) % WORD;
      } else if ch == ';' {
        break;
      } else {
        return;
      }
      next := next + 1;
    }
    next := next + 1;
    ok := true;
  }

  /** Compares the name after an '&' with a literal, one byte at a time. */
  method MatchName(a: array<char>, s: nat, lit: string) returns (next: nat)
    requires s + 2 < a.Length && a[a.Length - 1] == '\0' && |lit| >= 2 && '\0' !in lit
    ensures next == s + MatchEnd(a[s..], lit, 2) && s + 2 <= next && (next < a.Length || next == s + |lit|)
    ensures next <= a.Length
  {
    var t := a[s..];
    next := s + 2;
    while next - s < |lit| && a[next] == lit[next - s]
      invariant s + 2 <= next <= s + |lit| && next < a.Length
      invariant MatchEnd(t, lit, 2) == MatchEnd(t, lit, next - s)
    {
      assert Peek(t, next - s) == a[next];
      assert lit[next - s] in lit;
      next := next + 1;
    }
    assert Peek(t, next - s) == a[next];
  }

  /** The code that the reference at s stands for, or -1, and where reading stopped. */
  method ReadReference(a: array<char>, s: nat) returns (code: int, next: nat)
    requires s < a.Length && a[s] == '&' && a[a.Length - 1] == '\0'
    ensures var r := Reference(a[s..]);
            next == s + r.next && (code >= 0 <==> r.decoded.Some?) && (code >= 0 ==> r.decoded.value == Utf8(code))
    ensures code >= -1
  {
    hide Number, MatchEnd, Utf8;
    code := -1;
    var t := a[s..];
    var c := a[s + 1];
    assert Peek(t, 1) == c && (c != '\0' ==> Peek(t, 2) == a[s + 2]);
    Ascii();
    if c == '#' {
      var ok, n;
      if a[s + 2] == 'x' {
        assert Peek(t, 3) == a[s + 3];
        if a[s + 3] == ';' {
          return code, s + 3;
        }
        n, next, ok := ReadNumber(a, s, s + 3, 16);
      } else {
        if a[s + 2] == ';' {
          return code, s + 2;
        }
        n, next, ok := ReadNumber(a, s, s + 2, 10);
      }
      if ok {
        code := n;
      }
    } else if c == 'a' {
      if a[s + 2] == 'm' {
        next := MatchName(a, s, "&amp;");
        code := if next == s + 5 then '&' as int else -1;
      } else if a[s + 2] == 'p' {
        next := MatchName(a, s, "&apos;");
        code := if next == s + 6 then '\'' as int else -1;
      } else {
        next := s + 2;
      }
    } else if c == 'g' {
      next := MatchName(a, s, "&gt;");
      code := if next == s + 4 then '>' as int else -1;
    } else if c == 'l' {
      next := MatchName(a, s, "&lt;");
      code := if next == s + 4 then '<' as int else -1;
    } else if c == 'q' {
      next := MatchName(a, s, "&quot;");
      code := if next == s + 6 then '"' as int else -1;
    } else {
      next := s + 1;
    }
  }

  lemma Ascii()
    ensures Utf8('&' as int) == ['&'] && Utf8('\'' as int) == ['\''] && Utf8('>' as int) == ['>']
    ensures Utf8('<' as int) == ['<'] && Utf8('"' as int) == ['"']
  {}

  /** Writes the bytes of a code; those of a scalar value are its character in UTF-8. */
  method WriteUtf8(a: array<char>, s: nat, ch: nat) returns (next: nat)
    requires s + |Utf8(ch)| <= a.Length
    modifies a
    ensures next == s + |Utf8(ch)| && a[s..next] == Utf8(ch) && SameOutside(a[..], old(a[..]), s, next)
    ensures XmlUtf8.IsScalar(ch) <==> XmlUtf8.Spells(a[s..next], ch)
  {
    hide Byte, XmlUtf8.IsScalar, XmlUtf8.Spells;
    XmlUtf8.Utf8IsEncoding(ch);
    if ch < 0x80 {
      a[s] := Byte(ch);
      next := s + 1;
    } else if ch < 0x800 {
      a[s] := Byte(0xC0 + ch / 64);
      a[s + 1] := Byte(0x80 + ch % 64);
      next := s + 2;
    } else if ch < 0x10000 {
      a[s] := Byte(0xE0 + ch / 4096);
      a[s + 1] := Byte(0x80 + ch / 64 % 64);
      a[s + 2] := Byte(0x80 + ch % 64);
      next := s + 3;
    } else {
      a[s] := Byte(0xF0 + ch / 0x40000 % 16);
      a[s + 1] := Byte(0x80 + ch / 4096 % 64);
      a[s + 2] := Byte(0x80 + ch / 64 % 64);
      a[s + 3] := Byte(0x80 + ch % 64);
      next := s + 4;
    }
  }

  // ----- one move -----

  /** What is behind s in the buffer has not been touched, nor what lies before the text. */
  ghost predicate Ahead(a: seq<char>, b: seq<char>, begin: nat, s: nat) {
    |a| == |b| && begin <= s <= |a| && a[..begin] == b[..begin] && a[s..] == b[s..]
  }

  lemma AheadOfChange(a: seq<char>, c: seq<char>, b: seq<char>, begin: nat, s: nat, next: nat)
    requires Ahead(a, b, begin, s) && |c| == |a| && s <= next <= |a| && c[..begin] == a[..begin] && c[next..] == a[next..]
    ensures Ahead(c, b, begin, next)
  {
    assert a[next..] == a[s..][next - s..] && b[next..] == b[s..][next - s..];
  }

  /** Writing w over the bytes from s, inside what has been read. */
  lemma Written(a: seq<char>, c: seq<char>, end: int, size: nat, begin: nat, s: nat, next: nat, out: string, w: string)
    requires Holds(a, end, size, begin, s, out) && |c| == |a| && s + |w| == next <= |a|
    requires c[..s] == a[..s] && c[s..next] == w
    ensures Holds(c, end, size, begin, next, out + w) && c[..begin] == a[..begin]
  {
    hide Holds;
    GapBounds(a, end, size, begin, s, out);
    HoldsSame(a, c, end, size, begin, s, out);
    Append(c, end, size, begin, s, next, out);
    assert c[..begin] == c[..s][..begin] && a[..begin] == a[..s][..begin];
  }

  /** A reference is replaced by its bytes; anything else after an '&' stays as it is. */
  method ConvertEscape(a: array<char>, g: Gap, s: nat, ghost begin: nat, ghost out: string) returns (next: nat)
    requires s < a.Length && a[s] == '&' && a[a.Length - 1] == '\0' && Holds(a[..], g.end, g.size, begin, s, out)
    modifies a, g
    ensures var r := Reference(old(a[s..]));
            && next == s + r.next && s < next < a.Length
            && Holds(a[..], g.end, g.size, begin, next, out + (if r.decoded.Some? then r.decoded.value else old(a[s..])[..r.next]))
    ensures a[next..] == old(a[next..]) && a[..begin] == old(a[..begin])
  {
    hide Reference, Utf8, Holds;
    ghost var b, t := a[..], a[s..];
    ReferenceShrinks(t);
    GapBounds(b, g.end, g.size, begin, s, out);
    var code, stre := ReadReference(a, s);
    StopsBeforeNul(t);
    if code >= 0 {
      ghost var w := Utf8(code);
      var w1 := WriteUtf8(a, s, code);
      ghost var c := a[..];
      assert c[s..w1] == w;
      assert c[stre..] == c[w1..][stre - w1..] && b[stre..] == b[w1..][stre - w1..];
      Written(b, c, g.end, g.size, begin, s, w1, out, w);
      next := g.Push(a, w1, stre - w1, begin, out + w);
      assert a[..][stre..] == a[..][w1..][stre - w1..];
    } else {
      next := stre;
      Append(b, g.end, g.size, begin, s, next, out);
      assert b[s..next] == t[..next - s];
    }
  }

  /** Reading a reference stops at the NUL at the latest, and never passes it. */
  lemma StopsBeforeNul(t: string)
    requires t != "" && t[0] == '&' && t[|t| - 1] == '\0'
    ensures Reference(t).next < |t|
  {
    if Peek(t, 1) == '#' {
      if Peek(t, 2) == 'x' {
        if Peek(t, 3) != ';' { NumberBeforeNul(t, 3, 16, 0); }
      } else if Peek(t, 2) != ';' {
        NumberBeforeNul(t, 2, 10, 0);
      }
    } else {
      if |t| > 2 {
        MatchBeforeNul(t, "&amp;", 2);
        MatchBeforeNul(t, "&apos;", 2);
        MatchBeforeNul(t, "&gt;", 2);
        MatchBeforeNul(t, "&lt;", 2);
        MatchBeforeNul(t, "&quot;", 2);
      }
    }
  }

  lemma {:induction false} NumberBeforeNul(t: string, j: nat, base: nat, acc: nat)
    requires t != "" && t[|t| - 1] == '\0' && j < |t|
    ensures Number(t, j, base, acc).next < |t|
    decreases |t| - j
  {
    var d := Digit(Peek(t, j), base);
    if d.Some? {
      NumberBeforeNul(t, j + 1, base, (base * acc + d.value) % WORD);
    }
  }

  lemma {:induction false} MatchBeforeNul(t: string, lit: string, k: nat)
    requires t != "" && t[|t| - 1] == '\0' && k < |t| && k <= |lit| && '\0' !in lit
    ensures MatchEnd(t, lit, k) < |t|
    decreases |lit| - k
  {
    if k < |lit| && Peek(t, k) == lit[k] {
      assert lit[k] in lit;
      MatchBeforeNul(t, lit, k + 1);
    }
  }

  /** One blank or line end, rewritten in place; the second byte of "\r\n" goes into the gap. */
  method ConvertBlank(a: array<char>, g: Gap, s: nat, to: char, ghost begin: nat, ghost out: string) returns (next: nat)
    requires s < a.Length && a[s] != '\0' && a[a.Length - 1] == '\0' && Holds(a[..], g.end, g.size, begin, s, out)
    modifies a, g
    ensures next == s + LineEnd(old(a[s..])) && s < next < a.Length
    ensures Holds(a[..], g.end, g.size, begin, next, out + [to])
    ensures a[next..] == old(a[next..]) && a[..begin] == old(a[..begin])
  {
    hide Holds;
    ghost var b, t := a[..], a[s..];
    GapBounds(b, g.end, g.size, begin, s, out);
    var wasReturn := a[s] == '\r';
    a[s] := to;
    next := s + 1;
    assert Peek(t, 1) == a[next];
    Written(b, a[..], g.end, g.size, begin, s, next, out, [to]);
    if wasReturn && a[next] == '\n' {
      ghost var c := a[..];
      next := g.Push(a, next, 1, begin, out + [to]);
      assert a[..][next..] == a[..][s + 1..][1..] && c[next..] == c[s + 1..][1..];
    }
  }

  /** One piece of input that is not a terminator. */
  method Convert(a: array<char>, g: Gap, s: nat, m: Mode, ghost begin: nat, ghost out: string) returns (next: nat)
    requires s < a.Length && a[s] != '\0' && a[a.Length - 1] == '\0' && Holds(a[..], g.end, g.size, begin, s, out)
    modifies a, g
    ensures var v := Step(old(a[s..]), m);
            next == s + v.next && s < next < a.Length && Holds(a[..], g.end, g.size, begin, next, out + v.out)
    ensures a[next..] == old(a[next..]) && a[..begin] == old(a[..begin])
  {
    hide Holds, Reference, LineEnd;
    ghost var t := a[s..];
    assert t[0] == a[s];
    if m.blanks == Wconv && IsSpace(a[s]) {
      next := ConvertBlank(a, g, s, ' ', begin, out);
    } else if m.blanks == Eol && a[s] == '\r' {
      next := ConvertBlank(a, g, s, '\n', begin, out);
    } else if m.escapes && a[s] == '&' {
      next := ConvertEscape(a, g, s, begin, out);
    } else {
      next := s + 1;
      Append(a[..], g.end, g.size, begin, s, next, out);
      assert a[..][s..next] == [t[0]];
    }
  }

  // ----- whole texts -----

  /** What was decoded so far, followed by what the rest decodes to, is what everything decodes to. */
  ghost predicate SoFar(t: string, stop: char, m: Mode, out: string, n: nat) {
    n <= |t| && var r := Decode(t[n..], stop, m); Decode(t, stop, m) == Decoded(out + r.text, n + r.end)
  }

  lemma SoFarStart(t: string, stop: char, m: Mode)
    ensures SoFar(t, stop, m, "", 0)
  {
    assert t[0..] == t;
  }

  lemma SoFarStep(t: string, stop: char, m: Mode, out: string, n: nat)
    requires SoFar(t, stop, m, out, n) && n < |t| && t[n] != stop && t[n] != '\0'
    ensures var v := Step(t[n..], m); SoFar(t, stop, m, out + v.out, n + v.next)
  {
    hide Decode, Step;
    var u := t[n..];
    var v := Step(u, m);
    DecodeNext(u, stop, m);
    assert u[v.next..] == t[n + v.next..];
    var r := Decode(u[v.next..], stop, m);
    assert out + (v.out + r.text) == out + v.out + r.text;
  }

  lemma DecodeNext(u: string, stop: char, m: Mode)
    requires u != "" && u[0] != stop && u[0] != '\0'
    ensures var v := Step(u, m);
            var r := Decode(u[v.next..], stop, m); Decode(u, stop, m) == Decoded(v.out + r.text, v.next + r.end)
  {
    hide Step;
  }

  lemma SoFarEnd(t: string, stop: char, m: Mode, out: string, n: nat)
    requires SoFar(t, stop, m, out, n) && n < |t| && (t[n] == stop || t[n] == '\0')
    ensures Decode(t, stop, m) == Decoded(out, n)
  {
    assert out + "" == out;
  }

  /** The state of decoding b[begin..] in place: reading has come to s, and `out` is what was decoded so far. */
  ghost predicate InPlace(a: seq<char>, end: int, size: nat, b: seq<char>, begin: nat, s: nat, stop: char, m: Mode, out: string) {
    && Holds(a, end, size, begin, s, out) && Ahead(a, b, begin, s) && s < |a| && a[|a| - 1] == '\0'
    && SoFar(b[begin..], stop, m, out, s - begin)
  }

  lemma InPlaceStart(b: seq<char>, begin: nat, stop: char, m: Mode)
    requires begin < |b| && b[|b| - 1] == '\0'
    ensures InPlace(b, -1, 0, b, begin, begin, stop, m, "")
  {
    hide SoFar;
    SoFarStart(b[begin..], stop, m);
  }

  /** At s, the buffer still shows what was there at first. */
  lemma InPlaceAt(a: seq<char>, end: int, size: nat, b: seq<char>, begin: nat, s: nat, stop: char, m: Mode, out: string)
    requires InPlace(a, end, size, b, begin, s, stop, m, out)
    ensures |a| == |b| && begin <= s < |a| && a[s] == b[begin..][s - begin] && a[s..] == b[begin..][s - begin..] && a[s..] == b[s..]
    ensures a[|a| - 1] == '\0' && Holds(a, end, size, begin, s, out) && Ahead(a, b, begin, s)
    ensures a[..begin] == b[..begin] && SoFar(b[begin..], stop, m, out, s - begin)
  {
    hide Holds, SoFar;
    assert a[s] == a[s..][0] && b[s] == b[s..][0];
  }

  lemma InPlaceStep(a: seq<char>, c: seq<char>, end: int, size: nat, end': int, size': nat, b: seq<char>, begin: nat, s: nat,
                    next: nat, stop: char, m: Mode, out: string, v: Move)
    requires InPlace(a, end, size, b, begin, s, stop, m, out) && a[s] != stop && a[s] != '\0' && v == Step(a[s..], m)
    requires next == s + v.next && next < |a| && |c| == |a| && c[..begin] == a[..begin] && c[next..] == a[next..]
    requires Holds(c, end', size', begin, next, out + v.out)
    ensures InPlace(c, end', size', b, begin, next, stop, m, out + v.out)
  {
    hide Holds, SoFar, InPlace, Step;
    InPlaceAt(a, end, size, b, begin, s, stop, m, out);
    AheadOfChange(a, c, b, begin, s, next);
    SoFarStep(b[begin..], stop, m, out, s - begin);
    assert c[|c| - 1] == c[next..][|c| - 1 - next] == a[next..][|c| - 1 - next];
    InPlaceIs(c, end', size', b, begin, next, stop, m, out + v.out);
  }

  lemma InPlaceIs(a: seq<char>, end: int, size: nat, b: seq<char>, begin: nat, s: nat, stop: char, m: Mode, out: string)
    requires Holds(a, end, size, begin, s, out) && Ahead(a, b, begin, s) && s < |a| && a[|a| - 1] == '\0'
    requires SoFar(b[begin..], stop, m, out, s - begin)
    ensures InPlace(a, end, size, b, begin, s, stop, m, out)
  {}

  /** A byte that decodes to itself is passed over. */
  lemma PassOver(a: seq<char>, end: int, size: nat, b: seq<char>, begin: nat, s: nat, stop: char, m: Mode, out: string)
    requires InPlace(a, end, size, b, begin, s, stop, m, out) && a[s] != stop && a[s] != '\0'
    requires Step(a[s..], m) == Move([a[s]], 1)
    ensures s + 1 < |a| && InPlace(a, end, size, b, begin, s + 1, stop, m, out + [a[s]])
  {
    hide Holds, SoFar, InPlace, Step;
    InPlaceAt(a, end, size, b, begin, s, stop, m, out);
    Append(a, end, size, begin, s, s + 1, out);
    assert a[s..s + 1] == [a[s]];
    InPlaceStep(a, a, end, size, end, size, b, begin, s, s + 1, stop, m, out, Move([a[s]], 1));
  }

  method Advance(a: array<char>, g: Gap, s: nat, m: Mode, stop: char, ghost b: seq<char>, ghost begin: nat, ghost out: string)
    returns (next: nat, ghost out': string)
    requires InPlace(a[..], g.end, g.size, b, begin, s, stop, m, out) && a.Length == |b|
    requires s < a.Length && a[s] != stop && a[s] != '\0'
    modifies a, g
    ensures InPlace(a[..], g.end, g.size, b, begin, next, stop, m, out') && next > s
  {
    hide Holds, SoFar, InPlace, Step;
    ghost var c, end, size, u := a[..], g.end, g.size, a[s..];
    InPlaceAt(c, end, size, b, begin, s, stop, m, out);
    assert c[s..] == u;
    next := Convert(a, g, s, m, begin, out);
    out' := out + Step(u, m).out;
    InPlaceStep(c, a[..], end, size, g.end, g.size, b, begin, s, next, stop, m, out, Step(u, m));
  }

  /** At the terminator, everything is decoded. */
  lemma InPlaceEnd(a: seq<char>, end: int, size: nat, b: seq<char>, begin: nat, s: nat, stop: char, m: Mode, out: string)
    requires InPlace(a, end, size, b, begin, s, stop, m, out) && (a[s] == stop || a[s] == '\0')
    ensures Decode(b[begin..], stop, m) == Decoded(out, s - begin) && Peek(b[begin..], s - begin) == a[s]
  {
    hide Holds, SoFar, InPlace, Step, Decode;
    InPlaceAt(a, end, size, b, begin, s, stop, m, out);
    SoFarEnd(b[begin..], stop, m, out, s - begin);
  }

  /** Ending the decoded text with a NUL touches nothing behind the terminator. */
  lemma Ended(c: seq<char>, d: seq<char>, b: seq<char>, begin: nat, e: nat, s: nat, out: string)
    requires begin <= e <= s < |c| && |c| == |b| && d == c[e := '\0'] && c[begin..e] == out
    requires c[..begin] == b[..begin] && c[s..] == b[s..]
    ensures d[begin..e] == out && d[e] == '\0' && d[..begin] == b[..begin] && d[s + 1..] == b[s + 1..]
  {
    assert d[s + 1..] == c[s..][1..] && b[s + 1..] == b[s..][1..];
  }

  /** The bytes an attribute scan stops at. */
  predicate IsParseAttr(c: char, m: Mode) {
    || c == '\0' || c == '&' || c == '\r' || c == '\'' || c == '"'
    || (m.blanks == Wconv && (c == '\n' || c == '\t'))
  }

  lemma PlainAttr(t: string, m: Mode)
    requires t != "" && !IsParseAttr(t[0], m)
    ensures Step(t, m) == Move([t[0]], 1)
  {}

  /** An attribute value up to its closing quote; -1 when the buffer ends first. The text is left at `begin`,
      ended by a NUL, and what follows the quote is untouched. */
  method ParseAttribute(a: array<char>, begin: nat, quote: char, m: Mode) returns (next: int)
    requires begin < a.Length && a[a.Length - 1] == '\0' && (quote == '"' || quote == '\'')
    modifies a
    ensures var t := old(a[begin..]); var d := Decode(t, quote, m);
            if Peek(t, d.end) == '\0' then next == -1
            else
              && next == begin + d.end + 1 <= a.Length
              && a[begin..begin + |d.text|] == d.text && a[begin + |d.text|] == '\0'
              && a[next..] == old(a[next..])
    ensures a[..begin] == old(a[..begin])
  {
    hide Holds, Decode, Step, SoFar, InPlace, Ahead, IsSpace;
    ghost var b := a[..];
    var g := new Gap();
    var s := begin;
    ghost var out := "";
    InPlaceStart(b, begin, quote, m);
    while true
      invariant fresh(g) && s < a.Length && InPlace(a[..], g.end, g.size, b, begin, s, quote, m, out)
      decreases a.Length - s
    {
      while !IsParseAttr(a[s], m)
        invariant s < a.Length && InPlace(a[..], g.end, g.size, b, begin, s, quote, m, out)
        decreases a.Length - s
      {
        PlainAttr(a[..][s..], m);
        PassOver(a[..], g.end, g.size, b, begin, s, quote, m, out);
        out := out + [a[s]];
        s := s + 1;
      }
      InPlaceAt(a[..], g.end, g.size, b, begin, s, quote, m, out);
      if a[s] == quote {
        InPlaceEnd(a[..], g.end, g.size, b, begin, s, quote, m, out);
        var e := g.Flush(a, s, begin, out);
        ghost var c := a[..];
        a[e] := '\0';
        Ended(c, a[..], b, begin, e, s, out);
        return s + 1;
      } else if a[s] == '\0' {
        InPlaceEnd(a[..], g.end, g.size, b, begin, s, quote, m, out);
        return -1;
      } else {
        s, out := Advance(a, g, s, m, quote, b, begin, out);
        InPlaceAt(a[..], g.end, g.size, b, begin, s, quote, m, out);
      }
    }
  }

  predicate IsParsePcdata(c: char) {
    c == '\0' || c == '&' || c == '\r' || c == '<'
  }

  lemma PlainPcdata(t: string, m: Mode)
    requires t != "" && !IsParsePcdata(t[0]) && m.blanks != Wconv
    ensures Step(t, m) == Move([t[0]], 1)
  {}

  method Trim(a: array<char>, begin: nat, from: nat) returns (end: nat)
    requires begin <= from <= a.Length
    ensures begin <= end <= from && a[begin..end] == TrimEnd(a[begin..from])
  {
    end := from;
    while end > begin && IsSpace(a[end - 1])
      invariant begin <= end <= from && TrimEnd(a[begin..end]) == TrimEnd(a[begin..from])
    {
      assert a[begin..end][..end - begin - 1] == a[begin..end - 1];
      end := end - 1;
    }
  }

  /** Character data up to a '<' or the end of the buffer. */
  method ParsePcdata(a: array<char>, begin: nat, trim: bool, m: Mode) returns (next: nat)
    requires begin < a.Length && a[a.Length - 1] == '\0' && m.blanks != Wconv
    modifies a
    ensures var t := old(a[begin..]); var d := Decode(t, '<', m);
            var text := if trim then TrimEnd(d.text) else d.text;
            && next == begin + d.end + (if Peek(t, d.end) == '<' then 1 else 0) && next <= a.Length
            && begin + |text| < a.Length && a[begin..begin + |text|] == text && a[begin + |text|] == '\0'
            && (Peek(t, d.end) == '<' ==> a[next..] == old(a[next..]))
    ensures a[..begin] == old(a[..begin])
  {
    hide Holds, Decode, Step, SoFar, InPlace, Ahead, TrimEnd, IsSpace;
    ghost var b := a[..];
    var g := new Gap();
    var s := begin;
    ghost var out := "";
    InPlaceStart(b, begin, '<', m);
    while true
      invariant fresh(g) && s < a.Length && InPlace(a[..], g.end, g.size, b, begin, s, '<', m, out)
      decreases a.Length - s
    {
      while !IsParsePcdata(a[s])
        invariant s < a.Length && InPlace(a[..], g.end, g.size, b, begin, s, '<', m, out)
        decreases a.Length - s
      {
        PlainPcdata(a[..][s..], m);
        PassOver(a[..], g.end, g.size, b, begin, s, '<', m, out);
        out := out + [a[s]];
        s := s + 1;
      }
      InPlaceAt(a[..], g.end, g.size, b, begin, s, '<', m, out);
      if a[s] == '<' || a[s] == '\0' {
        InPlaceEnd(a[..], g.end, g.size, b, begin, s, '<', m, out);
        next := if a[s] == '<' then s + 1 else s;
        var end := g.Flush(a, s, begin, out);
        if trim {
          end := Trim(a, begin, end);
        }
        ghost var c := a[..];
        a[end] := '\0';
        Ended(c, a[..], b, begin, end, s, if trim then TrimEnd(out) else out);
        return;
      }
      s, out := Advance(a, g, s, m, '<', b, begin, out);
      InPlaceAt(a[..], g.end, g.size, b, begin, s, '<', m, out);
    }
  }
}
