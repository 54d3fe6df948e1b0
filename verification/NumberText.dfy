/** Number literals as text, and the binary64 word a literal is converted to. */
module NumberText {
  import opened Wrappers
  import opened Powers
  import opened Digits
  import opened DecimalText

  /** The parts of a number literal: whole digits, digits after a point, and an exponent. */
  datatype Literal = Literal(whole: seq<nat>, fraction: Option<seq<nat>>, exponent: Option<Exponent>)
  datatype Exponent = Exponent(upper: bool, sign: Sign, digits: seq<nat>)
  datatype Sign = Plus | Minus | NoSign

  ghost predicate WellFormed(l: Literal) {
    && AllDigits(l.whole)
    && (l.fraction.Some? ==> AllDigits(l.fraction.value))
    && (l.exponent.Some? ==> AllDigits(l.exponent.value.digits))
  }

  function Chars(ds: seq<nat>): (s: string)
    requires AllDigits(ds)
    ensures |s| == |ds| && forall i :: 0 <= i < |s| ==> IsDigit(s[i]) && DigitOf(s[i]) == ds[i]
  {
    seq(|ds|, i requires 0 <= i < |ds| => '0' + ds[i] as char)
  }

  function SignChars(s: Sign): string {
    match s
    case Plus => "+"
    case Minus => "-"
    case NoSign => ""
  }

  ghost function FractionText(l: Literal): string
    requires WellFormed(l)
  {
    if l.fraction.Some? then "." + Chars(l.fraction.value) else ""
  }

  ghost function ExponentText(l: Literal): string
    requires WellFormed(l)
  {
    if l.exponent.None? then "" else ExponentChars(l.exponent.value)
  }

  ghost function ExponentChars(e: Exponent): string
    requires AllDigits(e.digits)
  {
    [if e.upper then 'E' else 'e'] + SignChars(e.sign) + Chars(e.digits)
  }

  ghost function Text(l: Literal): string
    requires WellFormed(l)
  {
    Chars(l.whole) + FractionText(l) + ExponentText(l)
  }

  ghost function FractionDigits(l: Literal): seq<nat> {
    if l.fraction.Some? then l.fraction.value else []
  }

  ghost function ExponentValue(l: Literal): int {
    if l.exponent.None? then 0 else
      var n := ToNat(l.exponent.value.digits);
      if l.exponent.value.sign == Minus then 0 - n else n
  }

  /** The number a literal denotes: its digits, scaled by the exponent less the digits after the point. */
  ghost function LiteralValue(l: Literal): real {
    ToNat(l.whole + FractionDigits(l)) as real * Ten(ExponentValue(l) - |FractionDigits(l)|)
  }

  lemma {:induction false} RunEndAt(s: string, p: nat, q: nat)
    requires p <= q && (forall i :: p <= i < q ==> IsDigit(At(s, i))) && !IsDigit(At(s, q))
    ensures RunEnd(s, p) == q
    decreases q - p
  {
    if p < q { RunEndAt(s, p + 1, q); }
  }

  lemma {:induction false} MantissaRun(s: string, a: nat, p: nat, ds: seq<nat>)
    requires a <= p && forall i :: 0 <= i < |ds| ==> IsDigit(At(s, p + i)) && DigitOf(At(s, p + i)) == ds[i]
    ensures Mantissa(s, a, p + |ds|) == Mantissa(s, a, p) + ds
  {
    if ds != [] {
      var init := ds[..|ds| - 1];
      MantissaRun(s, a, p, init);
      MantissaStep(s, a, p + |init|);
      assert ds[|init|] == DigitOf(At(s, p + |init|)) && IsDigit(At(s, p + |init|));
      assert ds == init + [ds[|ds| - 1]];
    }
  }

  /** `t` stands at p in the NUL-terminated text s. */
  ghost predicate Occurs(s: string, p: nat, t: string) {
    forall i :: 0 <= i < |t| ==> At(s, p + i) == t[i]
  }

  lemma OccursSplit(s: string, p: nat, a: string, b: string)
    requires Occurs(s, p, a + b)
    ensures Occurs(s, p, a) && Occurs(s, p + |a|, b)
  {
    forall i | 0 <= i < |a| ensures At(s, p + i) == a[i] { assert (a + b)[i] == a[i]; }
    forall i | 0 <= i < |b| ensures At(s, p + |a| + i) == b[i] { assert (a + b)[|a| + i] == b[i]; }
  }

  lemma OccursWhole(s: string)
    ensures Occurs(s, 0, s)
  {}

  /** A run of digit characters, up to the first other character. */
  lemma RunOfChars(s: string, a: nat, p: nat, ds: seq<nat>)
    requires AllDigits(ds) && a <= p && Occurs(s, p, Chars(ds)) && !IsDigit(At(s, p + |ds|))
    ensures RunEnd(s, p) == p + |ds| && Mantissa(s, a, p + |ds|) == Mantissa(s, a, p) + ds
    ensures ds != [] ==> IsDigit(At(s, p))
  {
    var cs := Chars(ds);
    assert forall i :: 0 <= i < |ds| ==> At(s, p + i) == cs[i];
    forall i | p <= i < p + |ds| ensures IsDigit(At(s, i)) {
      assert At(s, p + (i - p)) == cs[i - p];
    }
    RunEndAt(s, p, p + |ds|);
    MantissaRun(s, a, p, ds);
  }

  /** Where the parts of a literal stand in its text, and what follows each. */
  lemma Layout(l: Literal)
    requires WellFormed(l)
    ensures var s, w, m := Text(l), |l.whole|, |l.whole| + |FractionText(l)|;
            && Occurs(s, 0, Chars(l.whole)) && Occurs(s, w, FractionText(l)) && Occurs(s, m, ExponentText(l))
            && At(s, m + |ExponentText(l)|) == '\0'
  {
    var s := Text(l);
    OccursWhole(s);
    OccursSplit(s, 0, Chars(l.whole) + FractionText(l), ExponentText(l));
    OccursSplit(s, 0, Chars(l.whole), FractionText(l));
  }

  /** The character after the mantissa is an exponent mark or the end. */
  lemma AfterMantissa(l: Literal)
    requires WellFormed(l)
    ensures At(Text(l), |l.whole| + |FractionText(l)|) ==
            if l.exponent.None? then '\0' else if l.exponent.value.upper then 'E' else 'e'
  {
    Layout(l);
    hide Text, Chars, FractionText, At;
  }

  /** The scanner finds the mantissa of a literal where the text has it. */
  lemma ScanMantissa(l: Literal)
    requires WellFormed(l) && (l.whole == [] ==> l.fraction.Some?)
    ensures WholeStart(Text(l)) == 0 && MantissaEnd(Text(l)) == |l.whole| + |FractionText(l)|
    ensures MantissaDigits(Text(l)) == l.whole + FractionDigits(l) && FractionLength(Text(l)) == |FractionDigits(l)|
  {
    Layout(l);
    AfterMantissa(l);
    if l.fraction.Some? {
      ScanFraction(Text(l), l.whole, l.fraction.value);
    } else {
      ScanWhole(Text(l), l.whole);
    }
  }

  lemma ScanWhole(s: string, whole: seq<nat>)
    requires AllDigits(whole) && whole != [] && Occurs(s, 0, Chars(whole))
    requires !IsDigit(At(s, |whole|)) && At(s, |whole|) != '.'
    ensures WholeStart(s) == 0 && MantissaEnd(s) == |whole| && MantissaDigits(s) == whole && FractionLength(s) == 0
  {
    hide RunEnd, Mantissa, Chars, At, DigitOf, Occurs;
    RunOfChars(s, 0, 0, whole);
    MantissaStep(s, 0, 0);
  }

  lemma ScanFraction(s: string, whole: seq<nat>, f: seq<nat>)
    requires AllDigits(whole) && AllDigits(f) && Occurs(s, 0, Chars(whole)) && Occurs(s, |whole|, "." + Chars(f))
    requires !IsDigit(At(s, |whole| + 1 + |f|))
    ensures WholeStart(s) == 0 && MantissaEnd(s) == |whole| + 1 + |f|
    ensures MantissaDigits(s) == whole + f && FractionLength(s) == |f|
  {
    OccursSplit(s, |whole|, ".", Chars(f));
    assert "."[0] == At(s, |whole| + 0) == '.';
    hide RunEnd, Mantissa, Chars, At, DigitOf, Occurs;
    RunOfChars(s, 0, 0, whole);
    MantissaStep(s, 0, 0);
    MantissaStep(s, 0, |whole|);
    RunOfChars(s, 0, |whole| + 1, f);
  }

  lemma ScanExponent(l: Literal)
    requires WellFormed(l) && MantissaEnd(Text(l)) == |l.whole| + |FractionText(l)|
    ensures Signed(Text(l), ToNat(ExponentDigits(Text(l)))) == ExponentValue(l)
    ensures l.exponent.Some? ==> HasExponent(Text(l)) && ExponentDigits(Text(l)) == l.exponent.value.digits
  {
    hide ToNat, MantissaEnd, Text, FractionText, ExponentChars, Mantissa, RunEnd, Chars, Occurs, At;
    Layout(l);
    AfterMantissa(l);
    if l.exponent.Some? {
      ExponentAt(Text(l), MantissaEnd(Text(l)), l.exponent.value);
    }
  }

  lemma ExponentAt(s: string, m: nat, e: Exponent)
    requires AllDigits(e.digits)
    requires Occurs(s, m, ExponentChars(e)) && At(s, m + |ExponentChars(e)|) == '\0'
    ensures var p := SignEnd(s, m + 1); Mantissa(s, p, RunEnd(s, p)) == e.digits
    ensures At(s, m + 1) == '-' <==> e.sign == Minus
  {
    hide RunEnd, Mantissa, Chars, DigitOf;
    var mark := [if e.upper then 'E' else 'e'];
    OccursSplit(s, m, mark + SignChars(e.sign), Chars(e.digits));
    OccursSplit(s, m, mark, SignChars(e.sign));
    var p := m + 1 + |SignChars(e.sign)|;
    if e.sign != NoSign { assert At(s, m + 1 + 0) == SignChars(e.sign)[0]; }
    hide At, Occurs;
    RunOfChars(s, p, p, e.digits);
    MantissaStep(s, p, p);
  }

  /** What the parser takes the text of a literal to mean is what the literal denotes. */
  lemma TextMeansLiteral(l: Literal)
    requires WellFormed(l) && (l.whole == [] ==> l.fraction.Some?)
    ensures Magnitude(Text(l)) == LiteralValue(l)
  {
    hide ToNat, MantissaEnd, RunEnd, Mantissa, Text, Ten, FractionText, FractionLength;
    ScanMantissa(l);
    ScanExponent(l);
    var all := l.whole + FractionDigits(l);
    ValueDef(all, |all| - |FractionDigits(l)| + ExponentValue(l));
  }
}
