/** From the text of a number to its binary64 word, and how far the exponent cap is harmless. */
module TextToFloat {
  import opened Wrappers
  import opened Powers
  import opened Digits
  import opened DecimalShift
  import opened Rounding
  import opened Estimates
  import opened Binary64
  import opened DecimalToBinary
  import opened DecimalText
  import opened NumberText

  const TWO_63: nat := 0x8000_0000_0000_0000

  /** The 64-bit word with the given fields, which do not overlap. */
  function Pack(negative: bool, a: AdjustedMantissa): int {
    a.mantissa + a.power2 * TWO_52 + (if negative then TWO_63 else 0)
  }

  /** The fraction and exponent fields of a word. */
  function Unpack(word: nat): AdjustedMantissa {
    AdjustedMantissa(word % TWO_52, word / TWO_52 % 2048)
  }

  /** The word gives the fields back. */
  lemma PackFields(negative: bool, a: AdjustedMantissa)
    requires Finite(a) || a == INFINITY
    ensures var w := Pack(negative, a); 0 <= w < TWO_64 && Unpack(w) == a && (negative <==> w >= TWO_63)
  {}

  lemma RoundedFields(x: real, a: AdjustedMantissa)
    requires CorrectlyRounded(x, a)
    ensures Finite(a) || a == INFINITY
  {
    hide Decode, Finite;
  }

  /** Half of the smallest subnormal: up to here everything rounds to zero. */
  ghost predicate Vanishes(x: real) {
    x <= Two(-1075)
  }

  /** When the capped exponent reads a text as the same binary64 number: the exponent is below 655360 or not there, or the
      mantissa is zero, or the smaller of the two readings already overflows, or the larger one still vanishes. */
  ghost predicate ReadingsMeet(s: string) {
    var x, y := CappedMagnitude(s), Magnitude(s);
    || ToNat(ExponentDigits(s)) < 10 * EXPONENT_CAP || !HasExponent(s) || ToNat(MantissaDigits(s)) == 0
    || (if At(s, MantissaEnd(s) + 1) == '-' then Overflows(y) || Vanishes(x) else Overflows(x) || Vanishes(y))
  }

  /** Either the exponent is below 655360 or the mantissa has at most 65000 digits. */
  predicate CapHarmless(s: string) {
    ToNat(ExponentDigits(s)) < 10 * EXPONENT_CAP || |MantissaDigits(s)| <= 65000
  }

  /** Text to word: the number the text denotes, with its exponent capped, correctly rounded; and
      the number itself exactly when the two readings meet. */
  method FromChars(s: string) returns (word: nat)
    requires |s| <= MAX_TEXT
    ensures var negative := At(s, 0) == '-'; var body := if negative then s[1..] else s;
            && word < TWO_64 && (word >= TWO_63 <==> negative)
            && CorrectlyRounded(CappedMagnitude(body), Unpack(word))
            && (CorrectlyRounded(Magnitude(body), Unpack(word)) <==> ReadingsMeet(body))
  {
    hide ToNat, CappedMagnitude, Magnitude, CorrectlyRounded, ReadingsMeet, Pack, Unpack;
    var negative := At(s, 0) == '-';
    var first := s;
    if negative {
      first := s[1..];
    }
    var d := ParseDecimal(first);
    var am := ComputeFloat(d, CappedMagnitude(first));
    RoundedFields(CappedMagnitude(first), am);
    PackFields(negative, am);
    word := Pack(negative, am);
    CapExact(first, am);
  }

  /** What the parser rounds is the number the text denotes exactly when the readings meet. */
  lemma CapExact(s: string, a: AdjustedMantissa)
    requires CorrectlyRounded(CappedMagnitude(s), a)
    ensures CorrectlyRounded(Magnitude(s), a) <==> ReadingsMeet(s)
  {
    hide ToNat, RunEnd, Mantissa, MantissaEnd, CorrectlyRounded, Capped, WithExponent, Two, Ten, Overflows, Vanishes, At;
    var ds := ExponentDigits(s);
    CappedExact(ds);
    CappedPrefix(ds);
    if Capped(ds) != ToNat(ds) && HasExponent(s) {
      var c: int, e: int := Signed(s, Capped(ds)), Signed(s, ToNat(ds));
      if ToNat(MantissaDigits(s)) == 0 {
        ZeroMantissa(s, c);
        ZeroMantissa(s, e);
      } else if At(s, MantissaEnd(s) + 1) == '-' {
        Rescaled(s, e, c);
        FarReadings(Magnitude(s), CappedMagnitude(s), a);
      } else {
        Rescaled(s, c, e);
        FarReadings(CappedMagnitude(s), Magnitude(s), a);
      }
    }
  }

  /** An exponent that the cap changes is at least ten times what is left of it. */
  lemma {:induction false} CappedPrefix(ds: seq<nat>)
    requires AllDigits(ds)
    ensures Capped(ds) != ToNat(ds) ==> ToNat(ds) >= 10 * Capped(ds) >= 10 * EXPONENT_CAP
  {
    if ds != [] {
      CappedExact(ds[..|ds| - 1]);
    }
  }

  /** Two readings whose exponents differ by at least 2100. */
  lemma Rescaled(s: string, c: int, e: int)
    requires ToNat(MantissaDigits(s)) > 0 && e - c >= 2100
    ensures 0.0 < WithExponent(s, c) && WithExponent(s, c) * Two(2100) <= WithExponent(s, e)
  {
    hide *;
    var ds := MantissaDigits(s);
    var q := c - FractionLength(s);
    WithExponentDef(s, c);
    WithExponentDef(s, e);
    ValueDef(ds, |ds| - FractionLength(s) + c);
    ValueDef(ds, |ds| - FractionLength(s) + e);
    TenAdd(q, e - c);
    TenPast(e - c);
    ScaleAlgebra(ToNat(ds), Ten(q), Ten(e - c), Two(2100), WithExponent(s, c), WithExponent(s, e));
  }

  lemma TenPast(n: int)
    requires n >= 2100
    ensures Ten(n) >= Two(2100)
  {
    hide *;
    TenMonotone(2100, n);
    TenOverTwo(2100);
  }

  lemma {:induction false} TenOverTwo(n: nat)
    ensures Ten(n) >= Two(n) > 0.0
  {
    hide *;
    if n == 0 {
      TenZero();
      TwoZero();
    } else {
      TenOverTwo(n - 1);
      TenStep(n - 1);
      TwoStep(n - 1);
    }
  }

  lemma ScaleAlgebra(n: nat, u: real, t: real, w: real, x: real, y: real)
    requires n > 0 && u > 0.0 && t >= w > 0.0 && x == n as real * u && y == n as real * (u * t)
    ensures 0.0 < x && x * w <= y
  {
    assert y == x * t;
    TimesAtMostReal(w, t, x);
  }

  /** Two numbers so far apart round alike only when both overflow or both vanish. */
  lemma FarReadings(lo: real, hi: real, a: AdjustedMantissa)
    requires 0.0 < lo && lo * Two(2100) <= hi && (CorrectlyRounded(lo, a) || CorrectlyRounded(hi, a))
    ensures CorrectlyRounded(lo, a) && CorrectlyRounded(hi, a) <==> Overflows(lo) || Vanishes(hi)
  {
    TwoPositives();
    hide Two, Decode, Finite;
    Larger(lo, Two(2100), hi);
    if Overflows(lo) {
    } else if Vanishes(hi) {
      TinyIsZero(lo);
      TinyIsZero(hi);
      if CorrectlyRounded(lo, a) { TinyOnlyZero(lo, a); }
      if CorrectlyRounded(hi, a) { TinyOnlyZero(hi, a); }
    } else if CorrectlyRounded(lo, a) && CorrectlyRounded(hi, a) {
      RoundedNear(lo, hi, a);
    }
  }

  lemma Larger(lo: real, t: real, hi: real)
    requires lo > 0.0 && t >= 1.0 && lo * t <= hi
    ensures lo <= hi
  {
    TimesAtMostReal(1.0, t, lo);
  }

  lemma TwoPositives()
    ensures Two(2100) >= 1.0 && Two(-1075) > 0.0 && Two(1024) > 0.0
  {
    TwoMonotone(0, 2100);
    TwoZero();
  }

  lemma RoundedNear(lo: real, hi: real, a: AdjustedMantissa)
    requires 0.0 < lo && lo * Two(2100) <= hi && CorrectlyRounded(lo, a) && CorrectlyRounded(hi, a)
    ensures Overflows(lo) || Vanishes(hi)
  {
    hide Two, Decode;
    if !Overflows(lo) {
      FiniteIsNotInfinite(a);
      assert !Overflows(hi) && hi < Two(1024) by { BelowLimit(hi); }
      if a == AdjustedMantissa(0, 0) {
        RoundsToZero(hi);
      } else {
        ZeroDecodes();
        NonzeroDecode(a);
        assert lo >= Decode(a) / 2.0 by { assert Finite(AdjustedMantissa(0, 0)); }
        TwoStep(-1075);
        TwoPositives();
        TwoAdd(-1075, 2100);
        TwoMonotone(1024, 1025);
        TooFar(lo, hi, Two(-1075), Two(2100), Two(1025));
      }
    }
  }

  lemma TooFar(lo: real, hi: real, unit: real, t: real, limit: real)
    requires lo >= unit && t > 0.0 && unit * t == limit && lo * t <= hi
    ensures hi >= limit
  {
    TimesAtMostReal(unit, lo, t);
  }

  lemma BelowLimit(x: real)
    ensures !Overflows(x) ==> x < Two(1024)
  {
    assert Two(970) > 0.0;
  }

  /** What rounds to zero is at most half of the smallest subnormal. */
  lemma RoundsToZero(x: real)
    requires 0.0 < x && !Overflows(x) && CorrectlyRounded(x, AdjustedMantissa(0, 0))
    ensures Vanishes(x)
  {
    hide Two, Decode;
    var one := AdjustedMantissa(1, 0);
    ZeroDecodes();
    OneDecodes();
    TwoStep(-1075);
    assert Finite(one);
  }

  lemma OneDecodes()
    ensures Decode(AdjustedMantissa(1, 0)) == Two(-1074)
  {
    MultipleDef(1, -1074);
  }

  /** A short mantissa or a moderate exponent is enough. */
  lemma CapHarmlessMeets(s: string)
    requires CapHarmless(s)
    ensures ReadingsMeet(s)
  {
    hide ToNat, RunEnd, Mantissa, MantissaEnd, Capped, WithExponent, Two, Ten, At;
    var ds := ExponentDigits(s);
    CappedExact(ds);
    if ToNat(ds) >= 10 * EXPONENT_CAP && HasExponent(s) && ToNat(MantissaDigits(s)) != 0 {
      if At(s, MantissaEnd(s) + 1) == '-' {
        TinyExponent(s, Signed(s, Capped(ds)));
      } else {
        HugeExponent(s, Signed(s, Capped(ds)), INFINITY);
      }
    }
  }

  lemma ZeroMantissa(s: string, e: int)
    requires ToNat(MantissaDigits(s)) == 0
    ensures WithExponent(s, e) == 0.0
  {
    hide ToNat, Ten, MantissaDigits;
  }

  lemma FractionIsPart(s: string)
    ensures FractionLength(s) <= |MantissaDigits(s)|
  {
    var w := WholeEnd(s);
    if At(s, w) == '.' {
      FractionCounted(s, WholeStart(s), w + 1, MantissaEnd(s));
    }
  }

  lemma {:induction false} FractionCounted(s: string, a: nat, p: nat, e: nat)
    requires a <= p <= e && forall i :: p <= i < e ==> IsDigit(At(s, i))
    ensures |Mantissa(s, a, e)| >= e - p
    decreases e - p
  {
    if p < e {
      FractionCounted(s, a, p, e - 1);
    }
  }

  /** A mantissa of at most 65000 digits, not all zero, is within that many decades of its point. */
  lemma MantissaDecade(s: string, e: int)
    requires ToNat(MantissaDigits(s)) > 0 && |MantissaDigits(s)| <= 65000
    ensures Ten(e - 65000) <= WithExponent(s, e) < Ten(65000 + e)
  {
    hide *;
    var ds := MantissaDigits(s);
    var point := |ds| - FractionLength(s) + e;
    WithExponentDef(s, e);
    FractionIsPart(s);
    ValueDef(ds, point);
    ToNatBound(ds);
    TenOfNat(|ds|);
    TenAdd(|ds|, point - |ds|);
    AboveUnit(ToNat(ds), Ten(point - |ds|), Value(ds, point), Ten(|ds|), Ten(point));
    TenMonotone(e - 65000, point - |ds|);
    TenMonotone(point, 65000 + e);
  }

  lemma WithExponentDef(s: string, e: int)
    ensures WithExponent(s, e) == Value(MantissaDigits(s), |MantissaDigits(s)| - FractionLength(s) + e)
    ensures AllDigits(MantissaDigits(s))
  {}

  lemma AboveUnit(n: nat, u: real, v: real, t: real, tu: real)
    requires n > 0 && u > 0.0 && v == n as real * u && n as real < t && tu == t * u
    ensures u <= v < tu
  {
    TimesAtMostReal(1.0, n as real, u);
    TimesOrder(n as real, t, u);
  }

  lemma HugeExponent(s: string, e: int, a: AdjustedMantissa)
    requires ToNat(MantissaDigits(s)) > 0 && |MantissaDigits(s)| <= 65000 && e >= EXPONENT_CAP
    ensures Overflows(WithExponent(s, e)) && (CorrectlyRounded(WithExponent(s, e), a) <==> a == INFINITY)
  {
    hide Two, Ten, ToNat, WithExponent, MantissaDigits;
    MantissaDecade(s, e);
    TenMonotone(309, e - 65000);
    DefinitelyInfinite();
    assert Two(970) > 0.0;
    assert Overflows(WithExponent(s, e));
  }

  lemma TinyExponent(s: string, e: int)
    requires ToNat(MantissaDigits(s)) > 0 && |MantissaDigits(s)| <= 65000 && e <= 0 - EXPONENT_CAP
    ensures 0.0 <= WithExponent(s, e) < Two(-1075)
  {
    hide Two, Ten, ToNat, WithExponent, MantissaDigits;
    MantissaDecade(s, e);
    assert Ten(e - 65000) > 0.0;
    TenMonotone(65000 + e, -325);
    DefinitelyZero();
  }

  /** Up to half of the smallest subnormal, zero is the only correct rounding. */
  lemma TinyOnlyZero(x: real, a: AdjustedMantissa)
    requires 0.0 <= x <= Two(-1075) && CorrectlyRounded(x, a)
    ensures a == AdjustedMantissa(0, 0)
  {
    hide Two, Decode;
    var zero := AdjustedMantissa(0, 0);
    TinyFits(x);
    ZeroDecodes();
    TwoStep(-1075);
    assert Finite(zero);
    if a != zero {
      NonzeroDecode(a);
      if Decode(a) == Two(-1074) { SmallestIsOdd(a); }
    }
  }

  lemma TinyFits(x: real)
    requires x <= Two(-1075)
    ensures !Overflows(x)
  {
    hide Two;
    TwoStep(-1075);
    TwoMonotone(-1074, 970);
    TwoMonotone(970, 1023);
    TwoStep(1023);
    assert Two(-1075) > 0.0;
  }

  /** The smallest subnormal has the odd fraction one. */
  lemma SmallestIsOdd(a: AdjustedMantissa)
    requires Finite(a) && Decode(a) == Two(-1074)
    ensures a.mantissa % 2 == 1
  {
    hide Two, Multiple;
    MultipleDef(Significand(a), Quantum(a));
    TwoMonotone(-1074, Quantum(a));
    if a.power2 == 0 || Significand(a) > 1 { OneUnit(Significand(a), Two(Quantum(a)), Two(-1074)); }
  }

  lemma OneUnit(n: nat, u: real, w: real)
    requires u >= w > 0.0 && n as real * u == w
    ensures n <= 1 && (u == w ==> n == 1)
  {
    if n >= 2 { TimesAtMostReal(2.0, n as real, u); }
  }

  lemma ZeroDecodes()
    ensures Decode(AdjustedMantissa(0, 0)) == 0.0
  {}

  lemma NonzeroDecode(a: AdjustedMantissa)
    requires Finite(a) && a != AdjustedMantissa(0, 0)
    ensures Decode(a) >= Two(-1074)
  {
    hide Two, Multiple;
    MultipleDef(Significand(a), Quantum(a));
    TwoMonotone(-1074, Quantum(a));
    AtLeastUnit(Significand(a), Two(Quantum(a)), Decode(a));
  }

  lemma AtLeastUnit(n: nat, u: real, v: real)
    requires n >= 1 && u > 0.0 && v == n as real * u
    ensures v >= u
  {
    TimesAtMostReal(1.0, n as real, u);
  }

  // ----- where the cap does harm -----

  /** 0.00...011111111111111111111e1000001 with a hundred thousand zeros and twenty ones, which is as many significant
      digits as bring a number to this parser, is more than 10^899981 and overflows; the capped exponent 100000 makes it
      less than one. */
  ghost function Misleading(): (l: Literal)
    ensures WellFormed(l)
  {
    Literal([0], Some(seq(100_000, i => 0) + seq(20, i => 1)), Some(Exponent(false, NoSign, [1, 0, 0, 0, 0, 0, 1])))
  }

  lemma CapCanMislead() returns (s: string)
    ensures |s| <= MAX_TEXT && !CapHarmless(s)
    ensures forall a :: CorrectlyRounded(CappedMagnitude(s), a) ==> !CorrectlyRounded(Magnitude(s), a)
  {
    hide ToNat, Magnitude, CappedMagnitude, Two, Ten, MantissaDigits, ExponentDigits, Decode, Text, Misleading, Finite;
    s := Text(Misleading());
    MisleadingParts(s);
    DefinitelyInfinite();
    TenMonotone(309, 899_981);
    PastTheEnd(Magnitude(s));
    BelowOneIsFinite(CappedMagnitude(s));
    forall a | CorrectlyRounded(CappedMagnitude(s), a)
      ensures !CorrectlyRounded(Magnitude(s), a)
    {
      FiniteIsNotInfinite(a);
    }
  }

  lemma BelowOneIsFinite(x: real)
    requires x < 1.0
    ensures !Overflows(x) && forall y :: y >= Two(1024) ==> Overflows(y)
  {
    hide Two;
    SmallTwos();
    TwoMonotone(0, 970);
    TwoMonotone(970, 1023);
    TwoStep(1023);
  }

  lemma FiniteIsNotInfinite(a: AdjustedMantissa)
    ensures Finite(a) ==> a != INFINITY
  {}

  lemma MisleadingParts(s: string)
    requires s == Text(Misleading())
    ensures |s| <= MAX_TEXT && |MantissaDigits(s)| == 100_021 && ToNat(ExponentDigits(s)) == 1_000_001
    ensures Magnitude(s) >= Ten(899_981) && 0.0 < CappedMagnitude(s) < 1.0
  {
    hide *;
    MisleadingScan(s);
    CapMagnitudes(s);
    WithExponentDef(s, 1_000_001);
    WithExponentDef(s, 100_000);
    ValueDef(MantissaDigits(s), 1_000_002);
    ValueDef(MantissaDigits(s), 100_001);
    var n := ToNat(MantissaDigits(s));
    TenOfNat(20);
    TenAdd(20, -20);
    TenZero();
    TenPositive(-20);
    TenPositive(899_981);
    TenAdd(20, 899_981);
    AboveUnit(n, Ten(-20), CappedMagnitude(s), Ten(20), 1.0);
    AboveUnit(n, Ten(899_981), Magnitude(s), Ten(20), Ten(900_001));
  }

  lemma TenPositive(n: int)
    ensures Ten(n) > 0.0
  {}

  lemma CapMagnitudes(s: string)
    ensures Magnitude(s) == WithExponent(s, Signed(s, ToNat(ExponentDigits(s))))
    ensures CappedMagnitude(s) == WithExponent(s, Signed(s, Capped(ExponentDigits(s))))
  {}

  lemma MisleadingScan(s: string)
    requires s == Text(Misleading())
    ensures |s| <= MAX_TEXT && |MantissaDigits(s)| == 100_021 && FractionLength(s) == 100_020
    ensures 0 < ToNat(MantissaDigits(s)) < Pow(10, 20)
    ensures ToNat(ExponentDigits(s)) == 1_000_001 && Capped(ExponentDigits(s)) == 100_000
    ensures Signed(s, 1_000_001) == 1_000_001 && Signed(s, 100_000) == 100_000
  {
    var l := Misleading();
    MisleadingMantissa(l.whole + FractionDigits(l));
    MisleadingLength(l);
    SevenDigits();
    assert l.exponent == Some(Exponent(false, NoSign, [1, 0, 0, 0, 0, 0, 1]));
    hide ToNat, RunEnd, Mantissa, MantissaEnd, Text, Capped, MantissaDigits, ExponentDigits, FractionLength, Misleading, At;
    ScanMantissa(l);
    ScanExponent(l);
  }

  lemma MisleadingLength(l: Literal)
    requires l == Misleading()
    ensures |Text(l)| <= MAX_TEXT
  {
    hide Chars;
  }

  lemma MisleadingMantissa(all: seq<nat>)
    requires all == Misleading().whole + FractionDigits(Misleading())
    ensures |all| == 100_021 && |FractionDigits(Misleading())| == 100_020 && 0 < ToNat(all) < Pow(10, 20)
  {
    var zeros: seq<nat> := seq(100_000, i => 0);
    var ones: seq<nat> := seq(20, i => 1);
    var lead := [0] + zeros;
    hide ToNat, Pow;
    assert all == lead + ones;
    DigitsBehindZeros(lead, ones);
  }

  /** Leading zeros add nothing. */
  lemma DigitsBehindZeros(zeros: seq<nat>, ds: seq<nat>)
    requires AllZero(zeros) && AllDigits(ds) && ds != [] && ds[0] != 0
    ensures 0 < ToNat(zeros + ds) < Pow(10, |ds|)
  {
    ToNatZero(zeros);
    ToNatConcat(zeros, ds);
    ToNatBound(ds);
    ToNatZero(ds);
  }

  lemma SevenDigits()
    ensures var ds: seq<nat> := [1, 0, 0, 0, 0, 0, 1]; ToNat(ds) == 1_000_001 && Capped(ds) == 100_000
  {
    hide ToNat, Capped;
    ToNatEmpty();
    CappedEmpty();
    Step([], 1, [1]);
    Step([1], 0, [1, 0]);
    Step([1, 0], 0, [1, 0, 0]);
    Step([1, 0, 0], 0, [1, 0, 0, 0]);
    Step([1, 0, 0, 0], 0, [1, 0, 0, 0, 0]);
    Step([1, 0, 0, 0, 0], 0, [1, 0, 0, 0, 0, 0]);
    Step([1, 0, 0, 0, 0, 0], 1, [1, 0, 0, 0, 0, 0, 1]);
  }

  lemma Step(ds: seq<nat>, d: nat, next: seq<nat>)
    requires next == ds + [d]
    ensures ToNat(next) == 10 * ToNat(ds) + d
    ensures Capped(next) == if Capped(ds) < EXPONENT_CAP then 10 * Capped(ds) + d else Capped(ds)
  {
    ToNatAppend(ds, d);
    CappedStep(ds, d);
  }
}
