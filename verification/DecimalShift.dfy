/** The 768-digit decimal and its in-place shifts by powers of two. */
module DecimalShift {
  import opened Powers
  import opened Digits

  const MAX_DIGITS: nat := 768
  const POINT_RANGE: int := 2047
  const MAX_SHIFT: nat := 60
  const TWO_32: nat := 0x1_0000_0000
  const TWO_64: nat := 0x1_0000_0000_0000_0000

  // ----- how many digits a left shift adds -----

  /** Row `shift` of the table of digits of powers of five; row 0 is empty. */
  function PowerOfFiveDigits(shift: nat): (ds: seq<nat>)
    ensures AllDigits(ds)
  {
    if shift == 0 then [] else DigitsOf(Pow(5, shift))
  }

  /** The table's candidate number of new digits for `shift`. */
  function CandidateNewDigits(shift: nat): nat {
    if shift == 0 then 0 else
      FiveBand(shift);
      shift + 1 - |DigitsOf(Pow(5, shift))|
  }

  /** 5^s has at most s digits, and it fixes the decade of 2^s. */
  lemma FiveBand(s: nat)
    requires s > 0
    ensures var l := |DigitsOf(Pow(5, s))|;
            0 < l <= s && Pow(10, l - 1) <= Pow(5, s) < Pow(10, l) && Pow(10, s - l) < Pow(2, s) <= Pow(10, s + 1 - l)
  {
    hide *;
    var ds := DigitsOf(Pow(5, s));
    PowPositive(5, s);
    ToNatBound(ds);
    ToNatLeading(ds);
    FiveLength(s, |ds|);
    TwoBand(s, |ds|);
  }

  lemma FiveLength(s: nat, l: nat)
    requires s > 0 && l > 0 && Pow(10, l - 1) <= Pow(5, s)
    ensures l <= s
  {
    if l > s {
      PowMonotone(10, s, l - 1);
      TenIsTwoFive(s);
      PowPositive(5, s);
      PowStrict(2, 0, s);
      TimesAtMost(2, Pow(2, s), Pow(5, s));
    }
  }

  lemma TwoBand(s: nat, l: nat)
    requires 0 < l <= s && Pow(10, l - 1) <= Pow(5, s) < Pow(10, l)
    ensures Pow(10, s - l) < Pow(2, s) <= Pow(10, s + 1 - l)
  {
    hide *;
    TenIsTwoFive(s);
    PowAdd(10, l, s - l);
    PowAdd(10, l - 1, s + 1 - l);
    PowPositive(2, s);
    PowPositive(10, s - l);
    BandAlgebra(Pow(2, s), Pow(5, s), Pow(10, l), Pow(10, s - l), Pow(10, l - 1), Pow(10, s + 1 - l));
  }

  lemma BandAlgebra(t: nat, f: nat, hi: nat, a: nat, lo: nat, b: nat)
    requires lo <= f < hi && t * f == hi * a == lo * b && t > 0 && a > 0
    ensures a < t <= b
  {
    if t <= a {
      TimesAtMost(t, a, f);
      TimesOrderInt(f, hi, a);
    }
    if b < t {
      TimesOrderInt(b, t, f);
      TimesAtMost(lo, f, b);
    }
  }

  /** 0.a reaches 0.b, both digit strings read as fractions. */
  ghost predicate FractionAtLeast(a: seq<nat>, b: seq<nat>) {
    ToNat(a) * Pow(10, |b|) >= ToNat(b) * Pow(10, |a|)
  }

  /** x has exactly n decimal digits. */
  ghost predicate HasDigits(x: nat, n: int) {
    n > 0 && Pow(10, n - 1) <= x < Pow(10, n)
  }

  /** `d` shifted left by `shift` bits, without a width. */
  function Shifted(d: nat, shift: nat): nat {
    d * Pow(2, shift)
  }

  /** Whether the digits, read as a fraction, reach the fraction 0.(5^shift) decides the exact
      number of digits of the product with 2^shift. */
  lemma NewDigitsExact(ds: seq<nat>, s: nat)
    requires AllDigits(ds) && ds != [] && ds[0] != 0 && s > 0
    ensures var k := CandidateNewDigits(s);
            k > 0 && HasDigits(Shifted(ToNat(ds), s),
                               if FractionAtLeast(ds, PowerOfFiveDigits(s)) then |ds| + k else |ds| + k - 1)
  {
    hide FractionAtLeast, Shifted, ToNat, Pow, DigitsOf, PowerOfFiveDigits, CandidateNewDigits;
    FiveBand(s);
    CandidateDef(s);
    ToNatBound(ds);
    ToNatLeading(ds);
    ProductBand(ToNat(ds), s, |ds|, CandidateNewDigits(s));
    ReachedDecade(ds, s);
  }

  lemma CandidateDef(s: nat)
    requires s > 0
    ensures PowerOfFiveDigits(s) == DigitsOf(Pow(5, s))
    ensures CandidateNewDigits(s) == s + 1 - |DigitsOf(Pow(5, s))|
  {
    hide Pow, DigitsOf;
  }

  lemma ProductBand(d: nat, s: nat, n: nat, k: nat)
    requires n > 0 && k > 0 && Pow(10, n - 1) <= d < Pow(10, n) && Pow(10, k - 1) < Pow(2, s) <= Pow(10, k)
    ensures Pow(10, n + k - 2) <= Shifted(d, s) < Pow(10, n + k)
  {
    hide *;
    ShiftedDef(d, s);
    PowAdd(10, n, k);
    PowAdd(10, n - 1, k - 1);
    ProductBandAlgebra(d, Pow(2, s), Pow(10, n - 1), Pow(10, n), Pow(10, k - 1), Pow(10, k));
  }

  lemma ProductBandAlgebra(d: nat, t: nat, a: nat, b: nat, c: nat, e: nat)
    requires a <= d < b && c < t <= e
    ensures a * c <= d * t < b * e
  {
    TimesAtMost(a, d, c);
    TimesAtMost(c, t, d);
    TimesOrderInt(d, b, t);
    TimesAtMost(t, e, b);
  }

  lemma ReachedDecade(ds: seq<nat>, s: nat)
    requires s > 0 && |DigitsOf(Pow(5, s))| <= s
    ensures FractionAtLeast(ds, PowerOfFiveDigits(s)) <==>
            Pow(10, |ds| + s - |DigitsOf(Pow(5, s))|) <= Shifted(ToNat(ds), s)
  {
    hide *;
    var d, n, l := ToNat(ds), |ds|, |DigitsOf(Pow(5, s))|;
    FractionDef(ds, s);
    ShiftedDef(d, s);
    TenIsTwoFive(s);
    PowAdd(10, l, s - l);
    PowAdd(10, n, s - l);
    PowPositive(10, s - l);
    PowPositive(5, s);
    EnoughAlgebra(d, Pow(2, s), Pow(5, s), Pow(10, l), Pow(10, s - l), Pow(10, n), Pow(10, s), Pow(10, n + s - l));
  }

  lemma FractionDef(ds: seq<nat>, s: nat)
    requires s > 0
    ensures FractionAtLeast(ds, PowerOfFiveDigits(s)) <==>
            ToNat(ds) * Pow(10, |DigitsOf(Pow(5, s))|) >= Pow(5, s) * Pow(10, |ds|)
  {
    hide ToNat, Pow, DigitsOf;
  }

  lemma ShiftedDef(x: nat, shift: nat)
    ensures Shifted(x, shift) == x * Pow(2, shift)
  {}

  lemma EnoughAlgebra(d: nat, t: nat, f: nat, pl: nat, pa: nat, pn: nat, ps: nat, target: nat)
    requires ps == t * f && ps == pl * pa && target == pn * pa && pa > 0 && f > 0
    ensures d * pl >= f * pn <==> target <= d * t
  {
    // both sides times f * pa: d * ps compared with f * target
    assert (d * t) * f == d * (t * f) == d * (pl * pa) == (d * pl) * pa;
    assert target * f == (f * pn) * pa;
    if d * pl >= f * pn {
      TimesAtMost(f * pn, d * pl, pa);
      if target > d * t { TimesOrderInt(d * t, target, f); }
    } else {
      TimesOrderInt(d * pl, f * pn, pa);
      if target <= d * t { TimesAtMost(target, d * t, f); }
    }
  }
}
