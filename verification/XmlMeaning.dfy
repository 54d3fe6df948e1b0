/** What decoding and printing amount to, told by the characters alone. */
module XmlMeaning {
  import opened Wrappers
  import opened XmlText
  import opened XmlUtf8
  import opened IntegerText
  import P = XmlPrinter

  // ----- references -----

  const NAMES: seq<(string, string)> :=
    [("&amp;", "&"), ("&lt;", "<"), ("&gt;", ">"), ("&quot;", "\""), ("&apos;", "'")]

  /** s is a numeric reference: what introduces it, digits of the base, and a semicolon. */
  ghost predicate IsNumeric(s: string, intro: string, base: nat, digits: string) {
    digits != "" && AllDigits(digits, base, |digits|) && s == intro + digits + ";"
  }

  /** s is a reference to v: one of the five names, or a number in decimal or hexadecimal, taken modulo 2^32. */
  ghost predicate Refers(s: string, v: string) {
    || (s, v) in NAMES
    || (exists d :: IsNumeric(s, "&#", 10, d) && v == Utf8(Value(d, 10, |d|) % 0x1_0000_0000))
    || (exists d :: IsNumeric(s, "&#x", 16, d) && v == Utf8(Value(d, 16, |d|) % 0x1_0000_0000))
  }

  lemma NumberStep(t: string, j: nat, base: nat, acc: nat, d: nat)
    requires Digit(Peek(t, j), base) == Some(d)
    ensures Number(t, j, base, acc) == Number(t, j + 1, base, (base * acc + d) % WORD)
  {}

  lemma {:induction false} NumberFrom(t: string, j: nat, base: nat, k: nat)
    requires j <= |t| && AllDigits(t[j..], base, k)
    ensures Number(t, j, base, 0) == Number(t, j + k, base, Value(t[j..], base, k) % WORD)
  {
    hide Digit, Number, Value;
    var u := t[j..];
    ValueNone(u, base);
    if k > 0 {
      NumberFrom(t, j, base, k - 1);
      assert u[k - 1] == t[j + k - 1];
      var d := Digit(u[k - 1], base).value;
      NumberStep(t, j + k - 1, base, Value(u, base, k - 1) % WORD, d);
      ValueNext(u, base, k - 1);
      Wraps(base, Value(u, base, k - 1), d);
    }
  }

  lemma Wraps(base: nat, v: nat, d: nat)
    ensures (base * (v % WORD) + d) % WORD == (base * v + d) % WORD
  {
    var q := v / WORD;
    assert v == WORD * q + v % WORD;
    Multiples(base * (v % WORD) + d, base * q, base * v + d);
  }

  lemma Multiples(x: nat, k: nat, y: nat)
    requires y == x + k * WORD
    ensures y % WORD == x % WORD
  {}

  /** A number is read to the end of its digits, and is a reference if a semicolon follows. */
  lemma NumberIs(t: string, j: nat, base: nat)
    requires j <= |t| && (base == 10 || base == 16)
    ensures var n := RunLength(t[j..], base);
            Number(t, j, base, 0) ==
              if Peek(t, j + n) == ';' then Ref(Some(Utf8(RunValue(t[j..], base) % WORD)), j + n + 1) else Ref(None, j + n)
  {
    hide Digit, Utf8;
    var u := t[j..];
    var n := RunLength(u, base);
    NumberFrom(t, j, base, n);
    if j + n < |t| {
      assert u[n] == t[j + n];
    } else {
      NulIsNoDigit(base);
    }
    SemicolonIsNoDigit(base);
  }

  lemma NulIsNoDigit(base: nat)
    ensures Digit('\0', base).None?
  {}

  lemma SemicolonIsNoDigit(base: nat)
    ensures Digit(';', base).None?
  {}

  /** A reference that t begins with is read as such. */
  lemma ReferredRead(t: string, n: nat, v: string)
    requires n <= |t| && Refers(t[..n], v)
    ensures t != "" && t[0] == '&' && Reference(t) == Ref(Some(v), n)
  {
    hide Reference, Refers, Utf8;
    RefersCases(t[..n], v);
    var s := t[..n];
    if (s, v) in NAMES {
      assert t == s + t[n..];
      NamedRead(s, v, t[n..]);
    } else if exists d :: IsNumeric(s, "&#", 10, d) && v == Utf8(Value(d, 10, |d|) % WORD) {
      var d :| IsNumeric(s, "&#", 10, d) && v == Utf8(Value(d, 10, |d|) % WORD);
      NumericRead(t, n, "&#", 10, d);
    } else {
      var d :| IsNumeric(s, "&#x", 16, d) && v == Utf8(Value(d, 16, |d|) % WORD);
      NumericRead(t, n, "&#x", 16, d);
    }
  }

  lemma RefersCases(s: string, v: string)
    ensures Refers(s, v) <==>
            || (s, v) in NAMES
            || (exists d :: IsNumeric(s, "&#", 10, d) && v == Utf8(Value(d, 10, |d|) % WORD))
            || (exists d :: IsNumeric(s, "&#x", 16, d) && v == Utf8(Value(d, 16, |d|) % WORD))
  {
    hide IsNumeric, Utf8, Value;
  }

  lemma NamedRead(s: string, v: string, rest: string)
    requires (s, v) in NAMES
    ensures s + rest != "" && (s + rest)[0] == '&' && Reference(s + rest) == Ref(Some(v), |s|)
  {
    hide Reference;
    var k :| 0 <= k < |NAMES| && NAMES[k] == (s, v);
    P.NamedBack(s, v[0], rest);
    assert v == [v[0]];
  }

  /** Where the pieces of a numeric reference lie. */
  lemma Shape(t: string, n: nat, intro: string, d: string)
    requires n <= |t| && t[..n] == intro + d + ";"
    ensures n == |intro| + |d| + 1 && t[|intro|..] == d + ([';'] + t[n..]) && t[..|intro|] == intro
  {
    assert t == t[..n] + t[n..];
  }

  lemma NumberRead(t: string, j: nat, base: nat, d: string, rest: string)
    requires j <= |t| && (base == 10 || base == 16) && AllDigits(d, base, |d|) && t[j..] == d + rest
    requires rest == "" || Digit(rest[0], base).None?
    ensures Number(t, j, base, 0) ==
              if rest != "" && rest[0] == ';' then Ref(Some(Utf8(Value(d, base, |d|) % WORD)), j + |d| + 1) else Ref(None, j + |d|)
  {
    hide Digit, Utf8, Value, RunValue, RunLength, Number;
    RunIs(d + rest, base, |d|) by { ValueOfPrefix(d, rest, base, |d|); }
    DigitsFirst(d, rest, base);
    NumberIs(t, j, base);
    if rest != "" {
      assert t[j + |d|] == t[j..][|d|];
    }
  }

  lemma NumericRead(t: string, n: nat, intro: string, base: nat, d: string)
    requires n <= |t| && IsNumeric(t[..n], intro, base, d)
    requires (intro, base) in {("&#", 10), ("&#x", 16)}
    ensures t != "" && t[0] == '&' && Reference(t) == Ref(Some(Utf8(Value(d, base, |d|) % WORD)), n)
  {
    hide Digit, Utf8, Value, Number, Reference;
    var j := |intro|;
    Shape(t, n, intro, d);
    SemicolonIsNoDigit(base);
    NumberRead(t, j, base, d, [';'] + t[n..]);
    assert t[j] == t[j..][0] == d[0];
    DigitIsPlain(d[0], base);
    assert t[0] == t[..j][0] && t[1] == t[..j][1] && (j == 3 ==> t[2] == t[..j][2]);
    IntroRead(t, base, j);
  }

  lemma IntroRead(t: string, base: nat, j: nat)
    requires |t| > j >= 2 && t[0] == '&' && t[1] == '#' && t[j] != ';'
    requires if base == 10 then j == 2 && t[2] != 'x' else base == 16 && j == 3 && t[2] == 'x'
    ensures Reference(t) == Number(t, j, base, 0)
  {
    hide Number;
  }

  /** What is read as a reference is one. */
  lemma ReadRefers(t: string)
    requires t != "" && t[0] == '&' && Reference(t).decoded.Some?
    ensures var r := Reference(t); r.next <= |t| && Refers(t[..r.next], r.decoded.value)
  {
    hide Number, Named, Refers;
    var c, d := Peek(t, 1), Peek(t, 2);
    if c == '#' {
      if d == 'x' {
        ReadNumeric(t, 3, 16, "&#x");
      } else {
        ReadNumeric(t, 2, 10, "&#");
      }
    } else if c == 'a' && d == 'm' {
      ReadName(t, "&amp;", '&', 0);
    } else if c == 'a' {
      ReadName(t, "&apos;", '\'', 4);
    } else if c == 'g' {
      ReadName(t, "&gt;", '>', 2);
    } else if c == 'l' {
      ReadName(t, "&lt;", '<', 1);
    } else {
      ReadName(t, "&quot;", '"', 3);
    }
  }

  lemma {:induction false} MatchIs(t: string, lit: string, k: nat)
    requires k <= |lit| && MatchEnd(t, lit, k) == |lit| && '\0' !in lit
    ensures forall i :: k <= i < |lit| ==> i < |t| && t[i] == lit[i]
    decreases |lit| - k
  {
    if k < |lit| {
      assert lit[k] in lit;
      MatchIs(t, lit, k + 1);
    }
  }

  lemma ReadName(t: string, lit: string, c: char, k: nat)
    requires k < |NAMES| && NAMES[k] == (lit, [c]) && |t| > 1 && t[..2] == lit[..2] && Named(t, lit, c).decoded.Some?
    ensures var r := Named(t, lit, c); r.next <= |t| && Refers(t[..r.next], r.decoded.value)
  {
    hide MatchEnd;
    MatchIs(t, lit, 2);
    assert t[0] == t[..2][0] && t[1] == t[..2][1];
    assert t[..|lit|] == lit && (lit, [c]) in NAMES;
  }

  lemma ReadNumeric(t: string, j: nat, base: nat, intro: string)
    requires j < |t| && (intro, base) in {("&#", 10), ("&#x", 16)} && t[..j] == intro && t[j] != ';'
    requires Number(t, j, base, 0).decoded.Some?
    ensures var r := Number(t, j, base, 0); r.next <= |t| && Refers(t[..r.next], r.decoded.value)
  {
    hide Digit, Utf8, Number, Value, Refers;
    NumberIs(t, j, base);
    var n := RunLength(t[j..], base);
    var d, rest := t[j..][..n], t[j..][n..];
    assert t[j..] == d + rest;
    assert rest != "" ==> rest[0] == t[j..][n];
    NumberRead(t, j, base, d, rest);
    assert t[j + n] == rest[0] == ';';
    Assembled(t, j, n, intro, d);
    assert IsNumeric(t[..j + n + 1], intro, base, d);
    RefersCases(t[..j + n + 1], Utf8(Value(d, base, |d|) % WORD));
  }

  lemma Assembled(t: string, j: nat, n: nat, intro: string, d: string)
    requires j + n < |t| && t[..j] == intro && t[j..][..n] == d && t[j + n] == ';'
    ensures t[..j + n + 1] == intro + d + ";"
  {}

  // ----- decoding, piece by piece -----

  ghost predicate AnyReference(t: string) {
    exists n: nat, v :: n <= |t| && Refers(t[..n], v)
  }

  /** The n bytes that t begins with turn into `out`: a reference into what it refers to, white space and line ends into
      what the mode says, and any other byte, an '&' that begins no reference included, into itself. */
  ghost predicate Piece(t: string, m: Mode, out: string, n: nat)
    requires t != "" && n <= |t|
  {
    if m.escapes && t[0] == '&' && AnyReference(t) then Refers(t[..n], out)
    else if (m.blanks == Wconv && t[0] in BLANKS) || (m.blanks == Eol && t[0] == '\r') then
      out == (if m.blanks == Wconv then " " else "\n") && n == (if "\r\n" <= t then 2 else 1)
    else out == [t[0]] && n == 1
  }

  ghost function Then(out: string, n: nat, r: Decoded): Decoded {
    Decoded(out + r.text, n + r.end)
  }

  /** A byte that means itself wherever it stands. */
  predicate Quiet(c: char) {
    !IsSpace(c) && c != '&' && c != '<' && c != '"' && c != '\'' && c != '\0'
  }

  lemma {:induction false} QuietRun(t: string, n: nat, stop: char, m: Mode)
    requires n <= |t| && (forall k :: 0 <= k < n ==> Quiet(t[k])) && stop in {'<', '"', '\''}
    ensures Decode(t, stop, m) == Then(t[..n], n, Decode(t[n..], stop, m))
  {
    hide Decode;
    if n == 0 {
      assert t[0..] == t && t[..0] == "";
    } else {
      QuietStep(t, m);
      P.DecodeOne(t, stop, m, [t[0]], 1);
      QuietRun(t[1..], n - 1, stop, m);
      assert t[1..][n - 1..] == t[n..] && [t[0]] + t[1..][..n - 1] == t[..n];
      var r := Decode(t[n..], stop, m);
      assert [t[0]] + (t[1..][..n - 1] + r.text) == t[..n] + r.text;
    }
  }

  lemma QuietStep(t: string, m: Mode)
    requires t != "" && Quiet(t[0])
    ensures Step(t, m) == Move([t[0]], 1)
  {}

  lemma DigitIsQuiet(c: char, base: nat)
    requires Digit(c, base).Some?
    ensures Quiet(c)
  {}

  /** What was looked at and is no reference holds no other ampersand, nor anything else that is special. */
  lemma LookedAtIsQuiet(t: string)
    requires t != "" && t[0] == '&' && Reference(t).decoded.None?
    ensures var n := Reference(t).next; 1 <= n <= |t| && forall k :: 1 <= k < n ==> Quiet(t[k])
  {
    hide Number, MatchEnd;
    ReferenceShrinks(t);
    var c, d := Peek(t, 1), Peek(t, 2);
    if c == '#' {
      if d == 'x' {
        if Peek(t, 3) != ';' { DigitsQuiet(t, 3, 16); }
      } else if d != ';' {
        DigitsQuiet(t, 2, 10);
      }
    } else if c == 'a' && d == 'm' {
      MatchedQuiet(t, "&amp;", 2);
    } else if c == 'a' && d == 'p' {
      MatchedQuiet(t, "&apos;", 2);
    } else if c == 'g' {
      MatchedQuiet(t, "&gt;", 2);
    } else if c == 'l' {
      MatchedQuiet(t, "&lt;", 2);
    } else if c == 'q' {
      MatchedQuiet(t, "&quot;", 2);
    }
  }

  lemma DigitsQuiet(t: string, j: nat, base: nat)
    requires j <= |t| && (base == 10 || base == 16) && Number(t, j, base, 0).decoded.None?
    ensures var n := Number(t, j, base, 0).next; j <= n <= |t| && forall k :: j <= k < n ==> Quiet(t[k])
  {
    hide Digit, Number, Quiet;
    NumberIs(t, j, base);
    var u := t[j..];
    forall k | j <= k < j + RunLength(u, base) ensures Quiet(t[k]) {
      assert u[k - j] == t[k];
      DigitIsQuiet(t[k], base);
    }
  }

  lemma {:induction false} MatchedQuiet(t: string, lit: string, k: nat)
    requires 2 <= k <= |lit| && k <= |t| && forall i :: 2 <= i < |lit| ==> Quiet(lit[i])
    ensures var n := MatchEnd(t, lit, k); k <= n <= |t| && forall i :: k <= i < n ==> Quiet(t[i])
    decreases |lit| - k
  {
    if k < |lit| && Peek(t, k) == lit[k] {
      MatchedQuiet(t, lit, k + 1);
    }
  }

  /** Decoding takes one piece after another, up to the stop byte, a NUL or the end. */
  lemma DecodeMeans(t: string, stop: char, m: Mode, out: string, n: nat)
    requires t != "" && t[0] != stop && t[0] != '\0' && n <= |t| && Piece(t, m, out, n) && stop in {'<', '"', '\''}
    ensures Decode(t, stop, m) == Then(out, n, Decode(t[n..], stop, m))
  {
    hide Decode, Refers, Reference, LineEnd;
    BlankMeans(t[0]);
    if m.escapes && t[0] == '&' {
      if AnyReference(t) {
        ReferenceDecoded(t, n, out, stop, m);
      } else {
        if Reference(t).decoded.Some? { ReadRefers(t); }
        LoneAmpersand(t, stop, m);
      }
    } else {
      LineEndIs(t);
      P.DecodeOne(t, stop, m, out, n);
    }
  }

  lemma LineEndIs(t: string)
    requires t != ""
    ensures LineEnd(t) == if "\r\n" <= t then 2 else 1
  {}

  lemma LoneAmpersand(t: string, stop: char, m: Mode)
    requires t != "" && t[0] == '&' && m.escapes && Reference(t).decoded.None? && stop in {'<', '"', '\''}
    ensures Decode(t, stop, m) == Then("&", 1, Decode(t[1..], stop, m))
  {
    hide Decode, Reference, Quiet, Step;
    LookedAtIsQuiet(t);
    var n := Reference(t).next;
    UnreadStep(t, m);
    P.DecodeOne(t, stop, m, t[..n], n);
    forall k | 0 <= k < n - 1 ensures Quiet(t[1..][k]) {
      assert t[1..][k] == t[k + 1];
    }
    QuietRun(t[1..], n - 1, stop, m);
    Rejoin(t, n, Decode(t[n..], stop, m).text);
  }

  lemma UnreadStep(t: string, m: Mode)
    requires t != "" && t[0] == '&' && m.escapes && Reference(t).decoded.None? && Reference(t).next <= |t|
    ensures Step(t, m) == Move(t[..Reference(t).next], Reference(t).next)
  {
    hide Reference;
  }

  lemma Rejoin(t: string, n: nat, more: string)
    requires 1 <= n <= |t| && t[0] == '&'
    ensures t[1..][n - 1..] == t[n..] && "&" + (t[1..][..n - 1] + more) == t[..n] + more
  {}

  lemma DecodeEnds(t: string, stop: char, m: Mode)
    requires t == "" || t[0] == stop || t[0] == '\0'
    ensures Decode(t, stop, m) == Decoded("", 0)
  {}

  /** A decimal or hexadecimal reference to a scalar value decodes to its character in UTF-8, whatever follows. */
  lemma CharacterDecoded(digits: string, hex: bool, ch: nat, rest: string, stop: char, m: Mode) returns (w: string)
    requires m.escapes && IsScalar(ch) && stop in {'<', '"', '\''}
    requires var base := if hex then 16 else 10;
             digits != "" && AllDigits(digits, base, |digits|) && Value(digits, base, |digits|) == ch
    ensures Spells(w, ch)
    ensures var s := (if hex then "&#x" else "&#") + digits + ";"; Decode(s + rest, stop, m) == Then(w, |s|, Decode(rest, stop, m))
  {
    hide *;
    w := Utf8(ch);
    Utf8IsEncoding(ch);
    var s := (if hex then "&#x" else "&#") + digits + ";";
    NumberRefers(digits, hex, ch);
    assert (s + rest)[..|s|] == s && (s + rest)[|s|..] == rest;
    ReferenceDecoded(s + rest, |s|, w, stop, m);
  }

  lemma NumberRefers(digits: string, hex: bool, ch: nat)
    requires IsScalar(ch)
    requires var base := if hex then 16 else 10;
             digits != "" && AllDigits(digits, base, |digits|) && Value(digits, base, |digits|) == ch
    ensures Refers((if hex then "&#x" else "&#") + digits + ";", Utf8(ch))
  {
    hide Utf8, Value, AllDigits;
    assert ch % 0x1_0000_0000 == ch;
    assert IsNumeric((if hex then "&#x" else "&#") + digits + ";", if hex then "&#x" else "&#", if hex then 16 else 10, digits);
  }

  lemma ReferenceDecoded(t: string, n: nat, v: string, stop: char, m: Mode)
    requires n <= |t| && Refers(t[..n], v) && m.escapes && stop in {'<', '"', '\''}
    ensures Decode(t, stop, m) == Then(v, n, Decode(t[n..], stop, m))
  {
    hide Decode, Refers, Reference;
    ReferredRead(t, n, v);
    P.DecodeOne(t, stop, m, v, n);
  }

  // ----- trimming and printing -----

  /** Trimming takes away all white space at the end and nothing else. */
  lemma {:induction false} TrimMeans(s: string)
    ensures var t := TrimEnd(s);
            && t <= s && (forall k :: |t| <= k < |s| ==> s[k] in BLANKS) && (t != "" ==> t[|t| - 1] !in BLANKS)
  {
    if s != "" {
      BlankMeans(s[|s| - 1]);
      TrimMeans(s[..|s| - 1]);
    }
  }

  /** What is printed for each byte: references for what would end or begin markup, and for control characters, of which in
      text the tab and the line ends are not special; everything else as it is. */
  lemma PrintMeans(c: char, place: P.Place, f: P.Format)
    ensures var e, control := P.Escaped(c, place, f), c < ' ' && (place.InText? ==> c !in {'\t', '\n', '\r'});
            && (c == '&' ==> e == "&amp;") && (c == '<' ==> e == "&lt;") && (c == '>' && place.InText? ==> e == "&gt;")
            && (c == '"' && place.InAttribute? && !f.single ==> e == "&quot;")
            && (c == '\'' && place.InAttribute? && f.single ==> e == "&apos;")
            && (control ==> e == if f.skip then "" else "&#" + ["0123"[c as int / 10], "0123456789"[c as int % 10]] + ";")
            && var special := if place.InText? then {'&', '<', '>'} else {'&', '<', if f.single then '\'' else '"'};
               !control && c !in special ==> e == [c]
  {
    if c < ' ' {
      var hi, lo := c as int / 10, c as int % 10;
      assert "0123"[hi] == (hi + '0' as int) as char;
      assert "0123456789"[lo] == (lo + '0' as int) as char;
    }
  }
}
