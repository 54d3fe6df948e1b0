/** Printing text with references, and reading it back. */
module XmlPrinter {
  import opened Wrappers
  import opened XmlText

  datatype Place = InAttribute | InText

  /** single: attribute values stand between single quotes; skip: control characters are left out. */
  datatype Format = Format(single: bool, skip: bool)

  predicate IsControl(c: char, place: Place) {
    c < ' ' && (place == InText ==> c != '\t' && c != '\n' && c != '\r')
  }

  /** The bytes that are not printed as they are. */
  predicate IsSpecial(c: char, place: Place) {
    || IsControl(c, place) || c == '&' || c == '<'
    || (if place == InText then c == '>' else c == '"' || c == '\'')
  }

  function CodeReference(c: char): string
    requires c < ' '
  {
    "&#" + [(c as int / 10 + '0' as int) as char, (c as int % 10 + '0' as int) as char] + ";"
  }

  /** What is printed for one byte. */
  function Escaped(c: char, place: Place, f: Format): string {
    if !IsSpecial(c, place) then [c]
    else if c == '&' then "&amp;"
    else if c == '<' then "&lt;"
    else if c == '>' then "&gt;"
    else if c == '"' then (if f.single then "\"" else "&quot;")
    else if c == '\'' then (if f.single then "&apos;" else "'")
    else if f.skip then "" else CodeReference(c)
  }

  function Printed(v: string, place: Place, f: Format): string {
    if v == "" then "" else Printed(v[..|v| - 1], place, f) + Escaped(v[|v| - 1], place, f)
  }

  /** Prints runs of usual bytes at once and special bytes one by one. */
  method TextOutputEscaped(v: string, place: Place, f: Format) returns (out: string)
    ensures out == Printed(v, place, f)
  {
    hide Escaped, IsSpecial;
    out := "";
    var s := 0;
    while s < |v|
      invariant s <= |v| && out == Printed(v[..s], place, f)
    {
      var prev := s;
      ghost var before := out;
      while s < |v| && !IsSpecial(v[s], place)
        invariant prev <= s <= |v| && before + v[prev..s] == Printed(v[..s], place, f)
      {
        UsualByte(v[s], place, f);
        assert v[..s + 1][..s] == v[..s];
        assert v[prev..s + 1] == v[prev..s] + [v[s]];
        s := s + 1;
      }
      out := out + v[prev..s];
      if s < |v| {
        assert v[..s + 1][..s] == v[..s];
        out := out + Escaped(v[s], place, f);
        s := s + 1;
      }
    }
    assert v[..|v|] == v;
  }

  lemma UsualByte(c: char, place: Place, f: Format)
    requires !IsSpecial(c, place)
    ensures Escaped(c, place, f) == [c]
  {}

  // ----- what is left when control characters are skipped -----

  function Shown(v: string, place: Place, skip: bool): string {
    if v == "" then "" else
      Shown(v[..|v| - 1], place, skip) + (if skip && IsControl(v[|v| - 1], place) then "" else [v[|v| - 1]])
  }

  lemma {:induction false} PrintedAppend(v: string, w: string, place: Place, f: Format)
    ensures Printed(v + w, place, f) == Printed(v, place, f) + Printed(w, place, f)
  {
    hide Escaped;
    if w == "" {
      assert v + w == v;
    } else {
      PrintedAppend(v, w[..|w| - 1], place, f);
      assert (v + w)[..|v + w| - 1] == v + w[..|w| - 1];
    }
  }

  lemma {:induction false} SkipIsDrop(v: string, place: Place, f: Format)
    ensures Printed(v, place, f) == Printed(Shown(v, place, f.skip), place, f.(skip := false))
  {
    hide IsControl, Printed, Escaped;
    PrintedSteps(v, place, f);
    PrintedSteps("", place, f.(skip := false));
    if v != "" {
      var init, last := v[..|v| - 1], v[|v| - 1];
      var f0 := f.(skip := false);
      SkipIsDrop(init, place, f);
      var one := if f.skip && IsControl(last, place) then "" else [last];
      PrintedAppend(Shown(init, place, f.skip), one, place, f0);
      PrintedSteps(one, place, f0);
      if one != "" {
        assert one[..0] == "";
      }
      SkipOne(last, place, f);
    }
  }

  lemma PrintedSteps(v: string, place: Place, f: Format)
    ensures Printed(v, place, f) == if v == "" then "" else Printed(v[..|v| - 1], place, f) + Escaped(v[|v| - 1], place, f)
  {}

  lemma SkipOne(c: char, place: Place, f: Format)
    ensures Escaped(c, place, f) == if f.skip && IsControl(c, place) then "" else Escaped(c, place, f.(skip := false))
  {}

  // ----- reading back -----

  lemma {:induction false} MatchWhole(lit: string, rest: string, k: nat)
    requires k <= |lit|
    ensures MatchEnd(lit + rest, lit, k) == |lit|
    decreases |lit| - k
  {
    if k < |lit| {
      MatchWhole(lit, rest, k + 1);
    }
  }

  lemma NamedBack(lit: string, value: char, rest: string)
    requires (lit, value) in {("&amp;", '&'), ("&lt;", '<'), ("&gt;", '>'), ("&quot;", '"'), ("&apos;", '\'')}
    ensures Reference(lit + rest) == Ref(Some([value]), |lit|)
  {
    hide MatchEnd;
    MatchWhole(lit, rest, 2);
    var t := lit + rest;
    assert t[0] == lit[0] && t[1] == lit[1] && t[2] == lit[2];
  }

  lemma CodeBack(c: char, rest: string)
    requires c < ' '
    ensures Reference(CodeReference(c) + rest) == Ref(Some([c]), 5)
  {
    hide Number, Utf8;
    var t := CodeReference(c) + rest;
    var hi, lo := c as int / 10, c as int % 10;
    assert t[0] == '&' && t[1] == '#' && t[2] == (hi + '0' as int) as char && t[3] == (lo + '0' as int) as char && t[4] == ';';
    NumberDigit(t, 2, 0, hi);
    NumberDigit(t, 3, hi, lo);
    NumberEnd(t, 4, c as int);
    Utf8One(c);
  }

  lemma NumberDigit(t: string, j: nat, acc: nat, d: nat)
    requires j < |t| && d < 10 && t[j] == (d + '0' as int) as char && acc < 100
    ensures Number(t, j, 10, acc) == Number(t, j + 1, 10, 10 * acc + d)
  {}

  lemma NumberEnd(t: string, j: nat, acc: nat)
    requires j < |t| && t[j] == ';'
    ensures Number(t, j, 10, acc) == Ref(Some(Utf8(acc)), j + 1)
  {}

  lemma Utf8One(c: char)
    requires c < ' '
    ensures Utf8(c as int) == [c]
  {}

  /** A printed byte is read back as one move, unless it is a line end that is normalised. */
  lemma StepBack(c: char, place: Place, f: Format, rest: string, m: Mode)
    requires c != '\0' && m.escapes && !f.skip
    requires m.blanks == AsIs || place == InAttribute || (c != '\r' && (m.blanks == Wconv ==> !IsSpace(c)))
    ensures var e := Escaped(c, place, f); e != "" && Step(e + rest, m) == Move([c], |e|)
  {
    hide Reference;
    var e := Escaped(c, place, f);
    if IsSpecial(c, place) {
      if c == '&' || c == '<' || c == '>' || (c == '"' && !f.single) || (c == '\'' && f.single) {
        NamedBack(e, c, rest);
      } else if c != '"' && c != '\'' {
        CodeBack(c, rest);
      }
    }
    assert (e + rest)[0] == e[0];
  }

  /** The byte that ends what is printed. */
  function Stop(place: Place, f: Format): char {
    if place == InText then '<' else if f.single then '\'' else '"'
  }

  lemma NotStopped(c: char, place: Place, f: Format)
    requires c != '\0' && !f.skip
    ensures var e := Escaped(c, place, f); e != "" && e[0] != Stop(place, f) && e[0] != '\0'
  {}

  /** Printing any NUL-free attribute value and reading it back gives that value, in every mode that decodes
      references; so does text, in a mode that keeps line ends or when it holds no '\r'. */
  lemma {:induction false} RoundTrip(v: string, place: Place, f: Format, rest: string, m: Mode)
    requires '\0' !in v && m.escapes && !f.skip
    requires place == InAttribute || m.blanks == AsIs || (m.blanks == Eol && '\r' !in v)
    ensures Decode(Printed(v, place, f) + [Stop(place, f)] + rest, Stop(place, f), m) == Decoded(v, |Printed(v, place, f)|)
  {
    hide Step, Escaped;
    var stop := Stop(place, f);
    var p := Printed(v, place, f);
    if v == "" {
      assert p + [stop] + rest == [stop] + rest;
    } else {
      var c, tail := v[0], v[1..];
      assert v == [c] + tail;
      PrintedAppend([c], tail, place, f);
      assert [c][..0] == "";
      var e, q := Escaped(c, place, f), Printed(tail, place, f);
      assert p == e + q;
      var more := q + [stop] + rest;
      assert p + [stop] + rest == e + more;
      StepBack(c, place, f, more, m);
      NotStopped(c, place, f);
      RoundTrip(tail, place, f, rest, m);
      assert (e + more)[|e|..] == more;
      DecodeOne(e + more, stop, m, [c], |e|);
    }
  }

  lemma DecodeOne(t: string, stop: char, m: Mode, out: string, n: nat)
    requires t != "" && t[0] != stop && t[0] != '\0' && Step(t, m) == Move(out, n) && n <= |t|
    ensures Decode(t, stop, m) == Decoded(out + Decode(t[n..], stop, m).text, n + Decode(t[n..], stop, m).end)
  {}

  // ----- character data with line ends -----

  /** Text with "\r\n" and lone '\r' turned into '\n'. */
  function LineEnds(v: string): string {
    if v == "" then ""
    else if v[0] == '\r' then "\n" + LineEnds(v[LineEnd(v)..])
    else [v[0]] + LineEnds(v[1..])
  }

  /** Printed text read back with line ends converted is the text with its line ends converted. */
  lemma {:induction false} RoundTripLineEnds(v: string, f: Format, rest: string)
    requires '\0' !in v && !f.skip
    ensures Decode(Printed(v, InText, f) + ['<'] + rest, '<', Mode(Eol, true)) == Decoded(LineEnds(v), |Printed(v, InText, f)|)
    decreases |v|
  {
    hide Step, Escaped, Printed;
    var m, p := Mode(Eol, true), Printed(v, InText, f);
    if v == "" {
      PrintedNothing(f);
      assert p + ['<'] + rest == ['<'] + rest;
    } else {
      var n := if v[0] == '\r' then LineEnd(v) else 1;
      var head, tail := v[..n], v[n..];
      assert v == head + tail;
      PrintedAppend(head, tail, InText, f);
      var e, q := Printed(head, InText, f), Printed(tail, InText, f);
      var more := q + ['<'] + rest;
      assert p + ['<'] + rest == e + more;
      if v[0] == '\r' {
        ReturnBack(v, n, f, rest);
      } else {
        PrintedByte(v[0], f);
        assert head == [v[0]];
        StepBack(v[0], InText, f, more, m);
        NotStopped(v[0], InText, f);
      }
      RoundTripLineEnds(tail, f, rest);
      assert (e + more)[|e|..] == more;
      DecodeOne(e + more, '<', m, if v[0] == '\r' then "\n" else [v[0]], |e|);
    }
  }

  lemma PrintedNothing(f: Format)
    ensures Printed("", InText, f) == ""
  {}

  lemma PrintedByte(c: char, f: Format)
    ensures Printed([c], InText, f) == Escaped(c, InText, f)
  {
    assert [c][..0] == "";
  }

  /** A carriage return, with the line feed behind it if there is one, is printed as it is and read as one line feed. */
  lemma ReturnBack(v: string, n: nat, f: Format, rest: string)
    requires v != "" && v[0] == '\r' && n == LineEnd(v) && n <= |v| && !f.skip
    ensures var e, q := Printed(v[..n], InText, f), Printed(v[n..], InText, f);
            var t := e + (q + ['<'] + rest);
            && |e| == n && t[0] == '\r' && Step(t, Mode(Eol, true)) == Move("\n", n)
  {
    hide Printed;
    var q := Printed(v[n..], InText, f);
    PrintedByte('\r', f);
    PrintedByte('\n', f);
    if n == 2 {
      assert v[..2] == ['\r'] + ['\n'];
      PrintedAppend(['\r'], ['\n'], InText, f);
    } else {
      assert v[..1] == ['\r'];
      NextPrinted(v[1..], f);
      var t := ['\r'] + (q + ['<'] + rest);
      assert Peek(t, 1) == (q + ['<'] + rest)[0];
    }
  }

  /** What is printed begins with a line feed only where the text does. */
  lemma NextPrinted(w: string, f: Format)
    requires !f.skip
    ensures var q := Printed(w, InText, f); q != "" && q[0] == '\n' ==> w != "" && w[0] == '\n'
  {
    if w != "" {
      assert w == [w[0]] + w[1..];
      PrintedAppend([w[0]], w[1..], InText, f);
      PrintedByte(w[0], f);
    } else {
      PrintedNothing(f);
    }
  }

  lemma {:induction false} LineEndsHaveNoReturn(v: string)
    ensures '\r' !in LineEnds(v)
    ensures '\r' !in v ==> LineEnds(v) == v
    decreases |v|
  {
    if v != "" {
      if v[0] == '\r' {
        LineEndsHaveNoReturn(v[LineEnd(v)..]);
      } else {
        LineEndsHaveNoReturn(v[1..]);
        assert v == [v[0]] + v[1..];
      }
    }
  }

  lemma {:induction false} TrimShorter(s: string)
    ensures |TrimEnd(s)| <= |s|
    ensures TrimEnd(s) == s <==> s == "" || !IsSpace(s[|s| - 1])
    ensures forall c :: c in TrimEnd(s) ==> c in s
  {
    if s != "" && IsSpace(s[|s| - 1]) {
      TrimShorter(s[..|s| - 1]);
    }
  }

  /** Character data comes back unchanged exactly when line ends are kept or there is no '\r', and nothing is trimmed
      or the text does not end in white space. */
  lemma TextRoundTripExactly(v: string, f: Format, rest: string, m: Mode, trim: bool)
    requires '\0' !in v && !f.skip && m.escapes && m.blanks != Wconv
    ensures var d := Decode(Printed(v, InText, f) + ['<'] + rest, '<', m).text;
            (if trim then TrimEnd(d) else d) == v <==>
            (m.blanks == AsIs || '\r' !in v) && (trim ==> v == "" || !IsSpace(v[|v| - 1]))
  {
    hide Decode, Printed, TrimEnd, LineEnds;
    if m.blanks == AsIs {
      RoundTrip(v, InText, f, rest, m);
      TrimShorter(v);
    } else {
      RoundTripLineEnds(v, f, rest);
      LineEndsHaveNoReturn(v);
      TrimShorter(LineEnds(v));
    }
  }
}
