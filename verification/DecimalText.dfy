/** Reading the text of a number into a 768-digit decimal. */
module DecimalText {
  import opened Powers
  import opened Digits
  import opened DecimalShift
  import opened DecimalNumber
  import opened DecimalToBinary

  const EXPONENT_CAP: nat := 0x10000
  /** Texts this long keep every 32-bit count in range. */
  const MAX_TEXT: nat := 0x8000_0000 - 10 * EXPONENT_CAP
  const TWO_31: nat := 0x8000_0000

  /** The character at p of a NUL-terminated text. */
  function At(s: string, p: nat): char {
    if p < |s| then s[p] else '\0'
  }

  predicate IsDigit(c: char) {
    '0' <= c <= '9'
  }

  function DigitOf(c: char): (d: nat)
    ensures IsDigit(c) ==> d <= 9
  {
    if IsDigit(c) then (c as int) - ('0' as int) else 0
  }

  lemma DigitNonzero(c: char)
    requires IsDigit(c)
    ensures DigitOf(c) == 0 <==> c == '0'
  {}

  predicate IsSign(c: char) {
    c == '-' || c == '+'
  }

  // ----- what the text means -----

  /** Where the run of digits that starts at p ends. */
  function RunEnd(s: string, p: nat): (e: nat)
    ensures p <= e && (p <= |s| ==> e <= |s|) && !IsDigit(At(s, e))
    ensures forall i :: p <= i < e ==> IsDigit(At(s, i))
    decreases |s| - p
  {
    if IsDigit(At(s, p)) then RunEnd(s, p + 1) else p
  }

  /** The digits of s[a..p], a decimal point among them ignored. */
  function Mantissa(s: string, a: nat, p: nat): (ds: seq<nat>)
    requires a <= p
    ensures AllDigits(ds) && |ds| <= p - a
  {
    if p == a then [] else
      var ds := Mantissa(s, a, p - 1);
      if At(s, p - 1) == '.' then ds else ds + [DigitOf(At(s, p - 1))]
  }

  function SignEnd(s: string, p: nat): (e: nat)
    ensures p <= e <= p + 1
  {
    if IsSign(At(s, p)) then p + 1 else p
  }

  function WholeStart(s: string): nat { SignEnd(s, 0) }

  function WholeEnd(s: string): nat { RunEnd(s, WholeStart(s)) }

  /** Where the digits after the decimal point end, or the whole part if there is no point. */
  function MantissaEnd(s: string): (e: nat)
    ensures WholeStart(s) <= WholeEnd(s) <= e
  {
    if At(s, WholeEnd(s)) == '.' then RunEnd(s, WholeEnd(s) + 1) else WholeEnd(s)
  }

  function FractionLength(s: string): nat {
    if At(s, WholeEnd(s)) == '.' then MantissaEnd(s) - (WholeEnd(s) + 1) else 0
  }

  predicate HasExponent(s: string) {
    At(s, MantissaEnd(s)) == 'e' || At(s, MantissaEnd(s)) == 'E'
  }

  function ExponentStart(s: string): nat { SignEnd(s, MantissaEnd(s) + 1) }

  function ExponentDigits(s: string): seq<nat> {
    Mantissa(s, ExponentStart(s), RunEnd(s, ExponentStart(s)))
  }

  function Signed(s: string, n: nat): int {
    if !HasExponent(s) then 0 else if At(s, MantissaEnd(s) + 1) == '-' then 0 - n else n
  }

  function MantissaDigits(s: string): seq<nat> {
    Mantissa(s, WholeStart(s), MantissaEnd(s))
  }

  /** The number written with the exponent e: its digits times 10^(e - digits after the point). */
  ghost function WithExponent(s: string, e: int): real {
    Value(MantissaDigits(s), |MantissaDigits(s)| - FractionLength(s) + e)
  }

  /** The magnitude of the number the text denotes. */
  ghost function Magnitude(s: string): real {
    WithExponent(s, Signed(s, ToNat(ExponentDigits(s))))
  }

  lemma RunStep(s: string, p: nat)
    ensures RunEnd(s, p) == if IsDigit(At(s, p)) then RunEnd(s, p + 1) else p
    ensures IsDigit(At(s, p)) ==> p < |s|
  {}

  lemma MantissaStep(s: string, a: nat, p: nat)
    requires a <= p
    ensures Mantissa(s, a, a) == []
    ensures Mantissa(s, a, p + 1) ==
            if At(s, p) == '.' then Mantissa(s, a, p) else Mantissa(s, a, p) + [DigitOf(At(s, p))]
  {}

  // ----- the exponent, which stops growing at a cap -----

  /** What the exponent loop makes of the digits. */
  function Capped(ds: seq<nat>): nat {
    if ds == [] then 0 else
      var n := Capped(ds[..|ds| - 1]);
      if n < EXPONENT_CAP then 10 * n + ds[|ds| - 1] else n
  }

  /** Digits are ignored only once the exponent has reached the cap. */
  lemma {:induction false} CappedExact(ds: seq<nat>)
    requires AllDigits(ds)
    ensures Capped(ds) == ToNat(ds) || (EXPONENT_CAP <= Capped(ds) <= ToNat(ds))
    ensures Capped(ds) < 10 * EXPONENT_CAP
    ensures Capped(ds) == ToNat(ds) <== ToNat(ds) < 10 * EXPONENT_CAP
  {
    if ds != [] {
      CappedExact(ds[..|ds| - 1]);
    }
  }

  lemma CappedEmpty()
    ensures Capped([]) == 0
  {}

  lemma CappedStep(ds: seq<nat>, d: nat)
    ensures Capped(ds + [d]) == if Capped(ds) < EXPONENT_CAP then 10 * Capped(ds) + d else Capped(ds)
  {
    assert (ds + [d])[..|ds|] == ds;
  }

  /** The number the parser is left with. */
  ghost function CappedMagnitude(s: string): real {
    WithExponent(s, Signed(s, Capped(ExponentDigits(s))))
  }

  // ----- the parser -----

  /** The digits read so far, without leading zeros: counted in full, stored up to the 768th. */
  ghost predicate Reads(d: Decimal, kept: seq<nat>, all: seq<nat>)
    reads d`numDigits, d.digits
  {
    && d.digits.Length == MAX_DIGITS && AllDigits(kept) && d.numDigits == |kept|
    && (forall j :: 0 <= j < |kept| && j < MAX_DIGITS ==> d.digits[j] == kept[j])
    && (kept != [] ==> kept[0] != 0)
    && ToNat(kept) == ToNat(all) && |kept| <= |all| && kept == all[|all| - |kept|..]
  }

  /** One digit more: stored if it fits, counted in any case. */
  method KeepDigit(d: Decimal, digit: nat, ghost kept: seq<nat>, ghost all: seq<nat>)
    requires Reads(d, kept, all) && digit <= 9 && (kept == [] ==> digit != 0)
    modifies d`numDigits, d.digits
    ensures Reads(d, kept + [digit], all + [digit])
  {
    hide ToNat;
    ToNatAppend(kept, digit);
    ToNatAppend(all, digit);
    if d.numDigits < MAX_DIGITS {
      d.digits[d.numDigits] := digit;
    }
    d.numDigits := d.numDigits + 1;
  }

  /** The run of digits from p: counted, and stored while they fit. */
  method ReadDigits(s: string, a: nat, p0: nat, d: Decimal, ghost kept0: seq<nat>) returns (p: nat, ghost kept: seq<nat>)
    requires a <= p0 <= |s| && Reads(d, kept0, Mantissa(s, a, p0)) && (kept0 == [] ==> At(s, p0) != '0')
    modifies d`numDigits, d.digits
    ensures p == RunEnd(s, p0) <= |s| && Reads(d, kept, Mantissa(s, a, p)) && |kept| == |kept0| + p - p0
    ensures d.numDigits == |kept|
  {
    hide ToNat, RunEnd, Mantissa, DigitOf;
    p, kept := p0, kept0;
    RunStep(s, p);
    while IsDigit(At(s, p))
      invariant p0 <= p <= |s| && RunEnd(s, p) == RunEnd(s, p0)
      invariant Reads(d, kept, Mantissa(s, a, p)) && |kept| == |kept0| + p - p0
      invariant kept == [] ==> At(s, p) != '0'
      decreases |s| - p
    {
      var digit := DigitOf(At(s, p));
      MantissaStep(s, a, p);
      RunStep(s, p);
      RunStep(s, p + 1);
      DigitNonzero(At(s, p));
      KeepDigit(d, digit, kept, Mantissa(s, a, p));
      kept := kept + [digit];
      p := p + 1;
    }
  }

  /** Leading zeros are passed over. */
  method SkipZeros(s: string, a: nat, p0: nat, d: Decimal) returns (p: nat)
    requires a <= p0 <= |s| && Reads(d, [], Mantissa(s, a, p0))
    ensures p0 <= p <= RunEnd(s, p0) == RunEnd(s, p) && p <= |s| && At(s, p) != '0'
    ensures Reads(d, [], Mantissa(s, a, p)) && |Mantissa(s, a, p)| == |Mantissa(s, a, p0)| + p - p0
  {
    hide ToNat, RunEnd, Mantissa;
    p := p0;
    ToNatEmpty();
    RunStep(s, p);
    while At(s, p) == '0'
      invariant p0 <= p <= |s| && RunEnd(s, p) == RunEnd(s, p0)
      invariant Reads(d, [], Mantissa(s, a, p)) && |Mantissa(s, a, p)| == |Mantissa(s, a, p0)| + p - p0
      decreases |s| - p
    {
      ToNatAppend(Mantissa(s, a, p), 0);
      MantissaStep(s, a, p);
      RunStep(s, p);
      RunStep(s, p + 1);
      p := p + 1;
    }
  }

  lemma ToNatEmpty()
    ensures ToNat([]) == 0
  {}

  ghost predicate AllZeroFrom(ds: seq<nat>, m: nat) {
    m <= |ds| && forall i :: m <= i < |ds| ==> ds[i] == 0
  }

  /** Counts the zeros at the end of the mantissa, passing over the decimal point. */
  method TrailingZeros(s: string, a: nat, p: nat) returns (zeros: nat)
    requires a <= p <= |s| && ToNat(Mantissa(s, a, p)) != 0
    requires forall i :: a <= i < p ==> IsDigit(At(s, i)) || At(s, i) == '.'
    ensures var ds := Mantissa(s, a, p); zeros < |ds| && AllZeroFrom(ds, |ds| - zeros) && ds[|ds| - zeros - 1] != 0
  {
    hide ToNat;
    var r := p;
    zeros := 0;
    ghost var ds := Mantissa(s, a, p);
    NonzeroSomewhere(ds);
    while r > a && (At(s, r - 1) == '0' || At(s, r - 1) == '.')
      invariant a <= r <= p && zeros <= |ds| && Mantissa(s, a, r) == ds[..|ds| - zeros]
      invariant AllZeroFrom(ds, |ds| - zeros)
    {
      if At(s, r - 1) == '0' {
        zeros := zeros + 1;
      }
      r := r - 1;
    }
  }

  lemma NonzeroSomewhere(ds: seq<nat>)
    requires ToNat(ds) != 0
    ensures !AllZeroFrom(ds, 0)
  {
    ToNatZero(ds);
  }

  /** The exponent loop: the sign is read already. */
  method ReadExponent(s: string, p0: nat) returns (n: nat, p: nat)
    requires p0 <= |s|
    ensures p == RunEnd(s, p0) && n == Capped(Mantissa(s, p0, p))
  {
    hide RunEnd, Mantissa, Capped, DigitOf;
    p, n := p0, 0;
    RunStep(s, p);
    MantissaStep(s, p0, p);
    CappedEmpty();
    while IsDigit(At(s, p))
      invariant p0 <= p <= |s| && RunEnd(s, p) == RunEnd(s, p0)
      invariant n == Capped(Mantissa(s, p0, p)) && n < 10 * EXPONENT_CAP
      decreases |s| - p
    {
      var digit := DigitOf(At(s, p));
      CappedStep(Mantissa(s, p0, p), digit);
      MantissaStep(s, p0, p);
      RunStep(s, p);
      RunStep(s, p + 1);
      if n < EXPONENT_CAP {
        n := 10 * n + digit;
      }
      p := p + 1;
    }
  }

  lemma ReadsNothing(d: Decimal)
    requires d.digits.Length == MAX_DIGITS && d.numDigits == 0
    ensures Reads(d, [], [])
  {}

  lemma SignEndFits(s: string, p: nat)
    ensures p <= |s| ==> SignEnd(s, p) <= |s|
  {}

  lemma PointFitsText(s: string, p: nat)
    requires At(s, p) == '.'
    ensures p < |s|
  {}

  /** Whole part and fraction, after the sign. */
  method ReadMantissa(s: string, d: Decimal) returns (p: nat, ghost kept: seq<nat>)
    requires d.digits.Length == MAX_DIGITS && d.numDigits == 0 && d.point == 0 && |s| <= MAX_TEXT
    modifies d`numDigits, d`point, d.digits
    ensures p == MantissaEnd(s) <= |s| && d.point == 0 - FractionLength(s)
    ensures Reads(d, kept, MantissaDigits(s))
    ensures forall i :: WholeStart(s) <= i < p ==> IsDigit(At(s, i)) || At(s, i) == '.'
  {
    hide ToNat, RunEnd, Mantissa, Reads, At;
    var a := WholeStart(s);
    MantissaStep(s, a, a);
    ReadsNothing(d);
    SignEndFits(s, 0);
    p := SkipZeros(s, a, a, d);
    p, kept := ReadDigits(s, a, p, d, []);
    if At(s, p) == '.' {
      MantissaStep(s, a, p);
      PointFitsText(s, p);
      p := p + 1;
      var firstAfterPeriod := p;
      if d.numDigits == 0 {
        p := SkipZeros(s, a, p, d);
      }
      p, kept := ReadDigits(s, a, p, d, kept);
      d.point := firstAfterPeriod - p;
    }
  }

  /** The exponent part, if there is one. */
  method ReadExponentPart(s: string) returns (exponent: int)
    requires MantissaEnd(s) <= |s|
    ensures exponent == Signed(s, Capped(ExponentDigits(s)))
  {
    hide RunEnd, Mantissa, Capped, MantissaEnd;
    var p := MantissaEnd(s);
    exponent := 0;
    if At(s, p) == 'e' || At(s, p) == 'E' {
      p := p + 1;
      var negExp := false;
      if At(s, p) == '-' {
        negExp := true;
        p := p + 1;
      } else if At(s, p) == '+' {
        p := p + 1;
      }
      var expNumber: int;
      expNumber, p := ReadExponent(s, p);
      exponent := if negExp then 0 - expNumber else expNumber;
    }
  }

  /** Reads sign, digits, fraction and exponent. The decimal stands for the number written, with
      the exponent as the loop capped it. */
  method ParseDecimal(s: string) returns (d: Decimal)
    requires |s| <= MAX_TEXT
    ensures fresh(d) && fresh(d.digits) && StandsFor(d, CappedMagnitude(s))
    ensures d.negative == (At(s, 0) == '-')
  {
    hide ToNat, Value, Ten, RunEnd, Mantissa, Capped, MantissaEnd, FractionLength, Signed, ExponentDigits, ExponentStart;
    d := new Decimal();
    d.negative := At(s, 0) == '-';
    var p;
    ghost var kept;
    p, kept := ReadMantissa(s, d);
    ghost var all, base := MantissaDigits(s), d.point;
    ghost var core := DropZeros(s, p, d, all, kept);
    var exponent := ReadExponentPart(s);
    d.point := d.point + exponent;
    CappedRange(s);
    assert 0 - TWO_31 <= d.point < TWO_31;
    CoreStandsFor(all, kept, core, base + exponent);
    assert d.Ds() == core[..d.numDigits];
    assert CappedMagnitude(s) == Value(all, |all| + base + exponent);
  }

  /** Counts the digits into the point, forgets final zeros, and caps the count at 768. */
  method DropZeros(s: string, p: nat, d: Decimal, ghost all: seq<nat>, ghost kept: seq<nat>) returns (ghost core: seq<nat>)
    requires WholeStart(s) <= p <= |s| && all == Mantissa(s, WholeStart(s), p) && Reads(d, kept, all)
    requires forall i :: WholeStart(s) <= i < p ==> IsDigit(At(s, i)) || At(s, i) == '.'
    requires !d.truncated
    modifies d`numDigits, d`point, d`truncated
    ensures core <= kept && AllZero(kept[|core|..]) && (core != [] ==> core[|core| - 1] != 0 && core[0] != 0)
    ensures d.numDigits == (if |core| > MAX_DIGITS then MAX_DIGITS else |core|)
    ensures d.truncated <==> |core| > MAX_DIGITS
    ensures d.point == old(d.point) + |kept| && d.digits[..d.numDigits] == core[..d.numDigits]
  {
    hide ToNat, Mantissa;
    core := kept;
    if d.numDigits > 0 {
      NonzeroKept(kept);
      var zeros := TrailingZeros(s, WholeStart(s), p);
      core := CoreOf(all, kept, zeros);
      d.point := d.point + d.numDigits;
      d.numDigits := d.numDigits - zeros;
    }
    if d.numDigits > MAX_DIGITS {
      d.numDigits := MAX_DIGITS;
      d.truncated := true;
    }
  }

  lemma CappedRange(s: string)
    ensures var e := Signed(s, Capped(ExponentDigits(s))); -10 * EXPONENT_CAP < e < 10 * EXPONENT_CAP
    ensures |MantissaDigits(s)| <= MantissaEnd(s) && FractionLength(s) <= MantissaEnd(s)
  {
    hide RunEnd, Mantissa, Capped;
    CappedExact(ExponentDigits(s));
  }

  lemma NonzeroKept(kept: seq<nat>)
    requires AllDigits(kept) && kept != [] && kept[0] != 0
    ensures ToNat(kept) != 0
  {
    ToNatZero(kept);
  }

  /** The kept digits without their final zeros. */
  ghost function CoreOf(all: seq<nat>, kept: seq<nat>, zeros: nat): (core: seq<nat>)
    requires |kept| <= |all| && kept == all[|all| - |kept|..] && kept != [] && kept[0] != 0
    requires zeros < |all| && AllZeroFrom(all, |all| - zeros) && all[|all| - zeros - 1] != 0
    ensures zeros < |kept| && core == kept[..|kept| - zeros] && core[|core| - 1] != 0
    ensures AllZero(kept[|core|..])
  {
    assert all[|all| - |kept|] == kept[0];
    kept[..|kept| - zeros]
  }

  /** The core digits, cut to 768, with the point where it belongs, stand for the number. */
  lemma CoreStandsFor(all: seq<nat>, kept: seq<nat>, core: seq<nat>, e: int)
    requires AllDigits(kept) && ToNat(kept) == ToNat(all) && core <= kept && AllZero(kept[|core|..])
    requires core != [] ==> core[|core| - 1] != 0
    ensures var m := if |core| > MAX_DIGITS then MAX_DIGITS else |core|;
            var x, point := Value(all, |all| + e), |kept| + e;
            && Value(core[..m], point) <= x < Value(core[..m], point) + Ten(point - MAX_DIGITS)
            && (|core| > MAX_DIGITS <==> Value(core[..m], point) != x)
            && (core == [] ==> x == 0.0)
  {
    hide ToNat, Value, Ten;
    var m, point := if |core| > MAX_DIGITS then MAX_DIGITS else |core|, |kept| + e;
    SameValue(all, kept, e);
    assert kept[..|core|] == core && AllDigits(core);
    ValueTake(kept, |core|, point);
    ValueTake(core, m, point);
    if |core| > MAX_DIGITS {
      assert core[m..][|core| - 1 - m] != 0;
    } else {
      assert core[..m] == core;
    }
    assert Ten(point - MAX_DIGITS) > 0.0;
    if core == [] { ZeroValue(core, point); }
  }

  lemma SameValue(all: seq<nat>, kept: seq<nat>, e: int)
    requires ToNat(kept) == ToNat(all)
    ensures Value(all, |all| + e) == Value(kept, |kept| + e)
  {
    hide ToNat, Ten;
  }
}
