/** The handful of numerical comparisons of powers of two and ten the conversion relies on. */
module Estimates {
  import opened Powers

  /** For each decimal exponent below 19, the largest shift that stays within it. */
  const POWERS: seq<nat> := [0, 3, 6, 9, 13, 16, 19, 23, 26, 29, 33, 36, 39, 43, 46, 49, 53, 56, 59]
  const NUM_POWERS: nat := 19

  /** The shift chosen for a decimal exponent n. */
  function ShiftFor(n: nat): (shift: nat)
    ensures n > 0 ==> 3 <= shift <= 60
  {
    if n < NUM_POWERS then POWERS[n] else 60
  }

  /** A product of bounds: from 10^a <= 2^b and 10^c <= 2^d. */
  lemma TenBelowTwo(a: nat, b: nat, c: nat, d: nat)
    requires Pow(10, a) <= Pow(2, b) && Pow(10, c) <= Pow(2, d)
    ensures Pow(10, a + c) <= Pow(2, b + d)
  {
    hide *;
    PowAdd(10, a, c);
    PowAdd(2, b, d);
    ProductOrder(Pow(10, a), Pow(2, b), Pow(10, c), Pow(2, d));
  }

  lemma TwoBelowTen(a: nat, b: nat, c: nat, d: nat)
    requires Pow(2, a) <= Pow(10, b) && Pow(2, c) <= Pow(10, d)
    ensures Pow(2, a + c) <= Pow(10, b + d)
  {
    hide *;
    PowAdd(2, a, c);
    PowAdd(10, b, d);
    ProductOrder(Pow(2, a), Pow(10, b), Pow(2, c), Pow(10, d));
  }

  lemma ProductOrder(a: nat, b: nat, c: nat, d: nat)
    requires a <= b && c <= d
    ensures a * c <= b * d
  {
    TimesAtMost(a, b, c);
    TimesAtMost(c, d, b);
  }

  lemma Small()
    ensures Pow(2, 3) == 8 && Pow(2, 4) == 16 && Pow(2, 10) == 1024
    ensures Pow(10, 1) == 10 && Pow(10, 2) == 100 && Pow(10, 3) == 1000 && Pow(10, 4) == 10000
  {}

  lemma Numerals()
    ensures Pow(2, 13) == 8192
    ensures Pow(2, 23) == 8388608 && Pow(2, 33) == 8589934592
    ensures Pow(2, 43) == 8796093022208 && Pow(2, 53) == 9007199254740992
    ensures Pow(10, 7) == 10000000 && Pow(10, 10) == 10000000000
    ensures Pow(10, 13) == 10000000000000 && Pow(10, 16) == 10000000000000000
  {
    Small();
    PowAdd(2, 3, 10);
    PowAdd(2, 13, 10);
    PowAdd(2, 23, 10);
    PowAdd(2, 33, 10);
    PowAdd(2, 43, 10);
    PowAdd(10, 4, 3);
    PowAdd(10, 7, 3);
    PowAdd(10, 10, 3);
    PowAdd(10, 13, 3);
  }

  /** No shift in the table overshoots its decimal exponent. */
  lemma ShiftForFits(n: nat)
    requires n > 0
    ensures Pow(2, ShiftFor(n)) <= Pow(10, n)
  {
    if n < NUM_POWERS {
      TableFits(n);
    } else {
      TableFits(18);
      Small();
      PowStep(2, 59);
      PowStep(10, 18);
      PowMonotone(10, 19, n);
    }
  }

  lemma TableFits(n: nat)
    requires 0 < n < NUM_POWERS
    ensures Pow(2, POWERS[n]) <= Pow(10, n)
  {
    hide Pow;
    Small();
    Numerals();
    if n >= 2 && n != 4 && n != 7 && n != 10 && n != 13 && n != 16 {
      TableFits(n - 1);
      TwoBelowTen(POWERS[n - 1], n - 1, 3, 1);
      assert POWERS[n] == POWERS[n - 1] + 3;
    }
  }

  /** 2^-n against 10^-m. */
  lemma ReciprocalOrder(n: nat, m: nat)
    ensures Pow(10, m) <= Pow(2, n) ==> Two(0 - n) <= Ten(0 - m)
    ensures Pow(2, n) <= Pow(10, m) ==> Ten(0 - m) <= Two(0 - n) && Two(n) <= Ten(m)
  {
    hide *;
    TwoOfNat(n);
    TenOfNat(m);
    TwoInverse(n);
    TenInverse(m);
    ReciprocalAlgebra(Pow(10, m) as real, Pow(2, n) as real, Ten(0 - m), Two(0 - n));
  }

  lemma ReciprocalAlgebra(x: real, y: real, x': real, y': real)
    requires x > 0.0 && y > 0.0 && x' > 0.0 && y' > 0.0 && x' * x == 1.0 && y' * y == 1.0
    ensures x <= y <==> y' <= x'
  {
    if x <= y && y' > x' {
      TimesOrder(x', y', x);
      TimesAtMostReal(x, y, y');
    }
    if y' <= x' && x > y {
      TimesOrder(y, x, x');
      TimesAtMostReal(y', x', y);
    }
  }

  /** 10^31 < 2^103 and 10^28 < 2^94, and from them 10^307 < 2^1021 and 10^323 < 2^1075. */
  lemma {:induction false} ManyThirtyOnes(k: nat)
    ensures Pow(10, 31 * k) <= Pow(2, 103 * k)
  {
    hide *;
    if k == 0 {
      PowZero(2);
      PowZero(10);
    } else {
      ManyThirtyOnes(k - 1);
      ThirtyOne();
      TenBelowTwo(31 * (k - 1), 103 * (k - 1), 31, 103);
    }
  }

  lemma ThirtyOne()
    ensures Pow(10, 31) <= Pow(2, 103) && Pow(10, 28) <= Pow(2, 94) && Pow(2, 93) <= Pow(10, 28)
  {
    hide Pow;
    Small();
    Numerals();
    PowAdd(2, 53, 33);
    PowAdd(2, 86, 4);
    PowAdd(2, 90, 4);
    PowAdd(2, 90, 3);
    PowAdd(2, 90, 13);
    PowAdd(10, 16, 10);
    PowAdd(10, 26, 2);
    PowAdd(10, 28, 3);
  }

  lemma SmallestNormal()
    ensures Two(-1021) <= Ten(-307)
  {
    hide Pow, Two, Ten;
    ManyThirtyOnes(9);
    ThirtyOne();
    TenBelowTwo(279, 927, 28, 94);
    ReciprocalOrder(1021, 307);
  }

  lemma HalfSubnormal()
    ensures Two(-1075) <= Ten(-323)
  {
    hide Pow, Two, Ten;
    ManyThirtyOnes(10);
    Numerals();
    Small();
    PowAdd(2, 43, 10);
    PowMonotone(2, 43, 45);
    PowMonotone(10, 12, 13);
    assert Pow(10, 13) <= Pow(2, 45) by { TwoFortyFive(); }
    TenBelowTwo(310, 1030, 13, 45);
    ReciprocalOrder(1075, 323);
  }

  lemma TwoFortyFive()
    ensures Pow(10, 13) <= Pow(2, 45)
  {
    hide Pow;
    Numerals();
    PowStep(2, 43);
    PowStep(2, 44);
  }

  lemma BelowSubnormal()
    ensures Two(-1091) <= Ten(-325)
  {
    hide Pow, Two, Ten;
    ManyThirtyOnes(10);
    TwoFortyFive();
    Small();
    PowAdd(2, 3, 4);
    assert Pow(2, 7) == 128;
    TenBelowTwo(13, 45, 2, 7);
    PowMonotone(2, 52, 61);
    TenBelowTwo(310, 1030, 15, 61);
    ReciprocalOrder(1091, 325);
  }

  lemma {:induction false} ManyNinetyThrees(k: nat)
    ensures Pow(2, 93 * k) <= Pow(10, 28 * k)
  {
    hide *;
    if k == 0 {
      PowZero(2);
      PowZero(10);
    } else {
      ManyNinetyThrees(k - 1);
      ThirtyOne();
      TwoBelowTen(93 * (k - 1), 28 * (k - 1), 93, 28);
    }
  }

  /** 10^-325 is at most half of the smallest subnormal. */
  lemma DefinitelyZero()
    ensures Ten(-325) <= Two(-1075)
  {
    hide Pow, Two, Ten;
    ManyNinetyThrees(11);
    Numerals();
    PowMonotone(2, 52, 53);
    TwoBelowTen(1023, 308, 52, 16);
    PowMonotone(10, 324, 325);
    ReciprocalOrder(1075, 325);
  }

  /** 10^309 is past every finite number. */
  lemma DefinitelyInfinite()
    ensures Two(1024) <= Ten(309)
  {
    hide Pow, Two, Ten;
    ManyNinetyThrees(11);
    Small();
    PowStep(2, 0);
    PowMonotone(2, 1, 3);
    TwoBelowTen(1023, 308, 1, 1);
    ReciprocalOrder(1024, 309);
  }

  /** 10^309 is below 2^1030. */
  lemma InRange()
    ensures Ten(309) <= Two(1030)
  {
    hide Pow, Two, Ten;
    ManyThirtyOnes(10);
    PowMonotone(10, 309, 310);
    TenOfNat(309);
    TwoOfNat(1030);
  }

  lemma FiftyThree()
    ensures Two(53) <= Ten(16) && Two(53) == 9007199254740992.0
  {
    hide Pow, Two, Ten;
    Numerals();
    ReciprocalOrder(53, 16);
    TwoOfNat(53);
  }

  // ----- shifts of a decade -----

  /** Dividing by 2^s lowers the decade by at most s. */
  lemma QuotientAtLeast(v: real, point: int, s: nat, n: nat)
    requires v >= Ten(point) && Pow(2, s) <= Pow(10, n)
    ensures Scaled(v, 0 - s) >= Ten(point - n)
  {
    hide *;
    ReciprocalOrder(s, n);
    ScaledDef(v, 0 - s);
    TenAdd(point, 0 - n);
    DecadeProduct(Ten(point), v, Ten(0 - n), Two(0 - s), Ten(point - n), Scaled(v, 0 - s));
  }

  lemma DecadeProduct(a: real, v: real, b: real, t: real, ab: real, vt: real)
    requires 0.0 < a <= v && 0.0 < b <= t && ab == a * b && vt == v * t
    ensures ab <= vt
  {
    TimesAtMostReal(a, v, b);
    TimesAtMostReal(b, t, v);
  }

  /** Multiplying by 2^s raises the decade by no more than n when 2^s <= 10^n. */
  lemma ProductBelow(v: real, point: int, s: nat, n: nat)
    requires 0.0 < v < Ten(point) && Pow(2, s) <= Pow(10, n)
    ensures Scaled(v, s) < Ten(point + n)
  {
    hide *;
    ReciprocalOrder(s, n);
    ScaledDef(v, s);
    TenAdd(point, n);
    DecadeBelow(v, Ten(point), Two(s), Ten(n), Scaled(v, s), Ten(point + n));
  }

  lemma DecadeBelow(v: real, a: real, t: real, b: real, vt: real, ab: real)
    requires 0.0 < v < a && 0.0 < t <= b && vt == v * t && ab == a * b
    ensures vt < ab
  {
    TimesOrder(v, a, t);
    TimesAtMostReal(t, b, a);
  }

  lemma {:induction false} TwoWithinTen(s: nat)
    ensures Pow(2, s) <= Pow(10, s)
  {
    if s > 0 {
      TwoWithinTen(s - 1);
    }
  }

  /** 2^(d+t) stays at or below 10^(p+t) as t grows. */
  lemma {:induction false} SlopeGrows(d: int, p: int, t: int, t': int)
    requires t <= t' && Two(d + t) <= Ten(p + t)
    ensures Two(d + t') <= Ten(p + t')
    decreases t' - t
  {
    if t < t' {
      SlopeGrows(d, p, t, t' - 1);
      TwoStep(d + t' - 1);
      TenStep(p + t' - 1);
    }
  }
}
