/** Decimal to binary64: scaling the decimal into [1/2, 1), then rounding it to 53 bits. */
module DecimalToBinary {
  import opened Powers
  import opened Digits
  import opened DecimalShift
  import opened DecimalSteps
  import opened DecimalNumber
  import opened Rounding
  import opened Estimates
  import opened Binary64

  /** The decimal stands for `x`: it is `x` cut to 768 digits, and `truncated` tells whether
      anything was lost. */
  ghost predicate StandsFor(d: Decimal, x: real)
    reads d, d.digits
  {
    && d.Valid() && d.Normal()
    && d.Val() <= x < d.Val() + Ten(d.point - MAX_DIGITS)
    && (d.truncated <==> d.Val() != x)
    && (d.numDigits == 0 ==> x == 0.0)
  }

  /** What holds while the decimal is scaled: it tracks x / 2^e, to the precision that 2^u has
      there, and `truncated` tells whether it is exact. */
  ghost predicate Stage(d: Decimal, x: real, e: int, u: int)
    reads d, d.digits
  {
    && d.Valid() && d.Normal() && d.numDigits > 0
    && Tracks(d.Val(), Scaled(x, 0 - e), u - e)
    && (d.truncated <==> d.Val() != Scaled(x, 0 - e))
  }

  /** `x` lies in [2^u, 2^c), where 2^u is half a unit in the last place of x, or far less when x
      is too small to have one. */
  ghost predicate Scope(x: real, c: int, u: int) {
    && Two(u) <= x < Two(c) && c <= 1100
    && (if x < Two(-1075) then c == -1075 && u == -1091 else IsUnit(x, u + 1) && c == u + 54)
  }

  /** 768 digits are enough, after scaling by 2^-e, to hold every multiple of 2^u below 2^c. */
  ghost predicate Enough(c: int, u: int, e: int) {
    Two(c - e) <= Ten(MAX_DIGITS + u - e)
  }

  // ----- precision -----

  lemma EnoughNormal(u: int, e: int)
    requires u - e >= -1075
    ensures Enough(u + 54, u, e)
  {
    hide Two, Ten;
    SmallestNormal();
    SlopeGrows(54, MAX_DIGITS, -1075, u - e);
  }

  lemma EnoughFrom(c: int, u: int, e: int, e': int)
    requires Enough(c, u, e) && e' <= e
    ensures Enough(c, u, e')
  {
    hide Two, Ten;
    SlopeGrows(c - u, MAX_DIGITS, u - e, u - e');
  }

  lemma EnoughAtStart(x: real, c: int, u: int, e: int)
    requires Scope(x, c, u) && e <= 0
    ensures Enough(c, u, e)
  {
    hide Two, Ten;
    if c == u + 54 {
      EnoughNormal(u, e);
    } else {
      HalfSubnormal();
      SlopeGrows(16, MAX_DIGITS, -1091, u - e);
    }
  }

  /** A number of at least one tenth after scaling down has all its bits near the point. */
  lemma EnoughLarge(x: real, c: int, u: int, e: int)
    requires Scope(x, c, u) && e >= 0 && Scaled(x, 0 - e) >= Ten(-1)
    ensures Enough(c, u, e)
  {
    hide Two, Scaled;
    ScaledOrder(x, Two(c), 0 - e);
    ScaledTwo(c, 0 - e);
    assert Ten(-1) == Ten(0) / 10.0;
    SmallTwos();
    if c - e < -3 { TwoMonotone(c - e, -4); }
    EnoughNormal(u, e);
  }

  lemma SmallTwos()
    ensures Two(-4) == 0.0625 && Two(-1) == 0.5 && Two(0) == 1.0 && Two(1) == 2.0
  {
    TwoStep(-1);
    TwoStep(-2);
    TwoStep(-3);
    TwoStep(-4);
    TwoStep(0);
  }

  // ----- one shift -----

  /** A shift of the held value by 2^s, seen as a change of e to e - s. */
  lemma StageShift(v: real, x: real, e: int, c: int, u: int, s: int, ds: seq<nat>, point: int)
    requires Tracks(v, Scaled(x, 0 - e), u - e) && Scope(x, c, u) && Enough(c, u, e - s)
    requires AllDigits(ds) && 0 < |ds| <= MAX_DIGITS && ds[0] != 0
    requires Value(ds, point) <= Scaled(v, s) < Value(ds, point) + Ten(point - MAX_DIGITS)
    requires Scaled(v, s) < Ten(MAX_DIGITS)
    ensures Tracks(Value(ds, point), Scaled(x, s - e), u - (e - s))
    ensures Value(ds, point) == Scaled(x, s - e) <==> v == Scaled(x, 0 - e) && Value(ds, point) == Scaled(v, s)
    ensures Ten(point - 1) <= Value(ds, point) && Scaled(v, s) < Ten(point)
  {
    hide Two, Ten, Scaled, Value, Multiple, ToNat;
    var y := Scaled(x, 0 - e);
    ScaledAdd(x, 0 - e, s);
    ValueDecade(ds, point);
    UnitFits(ds, point);
    ScaledOrder(v, y, s);
    ScaledOrder(x, Two(c), s - e);
    ScaledTwo(c, s - e);
    if point - 1 >= MAX_DIGITS { TenMonotone(MAX_DIGITS, point - 1); }
    if point - 1 >= MAX_DIGITS + u - (e - s) { TenMonotone(MAX_DIGITS + u - (e - s), point - 1); }
    LostShift(v, y, s, Value(ds, point));
    TracksShift(v, y, u - e, s, ds, point);
  }

  lemma StageStart(d: Decimal, x: real, c: int, u: int)
    requires StandsFor(d, x) && d.numDigits > 0 && Scope(x, c, u) && d.point <= 309
    ensures Stage(d, x, 0, u) && d.Val() <= x
  {
    hide Two, Ten, Value, Multiple, ToNat, Scaled;
    ScaledZero(x);
    EnoughAtStart(x, c, u, 0);
    TracksItself(x, u);
    UnitFits(d.Ds(), d.point);
    TenMonotone(d.point, MAX_DIGITS);
    StageShift(x, x, 0, c, u, 0, d.Ds(), d.point);
  }

  lemma TracksItself(x: real, u: int)
    ensures Tracks(x, x, u)
  {}

  // ----- scaling down -----

  lemma DownBounds(v: real, n: nat, x: real)
    requires 0 < n <= 309 && Ten(n - 1) <= v < Ten(n) && x == Scaled(v, 0 - ShiftFor(n))
    ensures Ten(-1) <= x < Ten(MAX_DIGITS) && !Underflows(x)
    ensures x <= v / 2.0 && v >= 1.0
  {
    hide Two, Ten, Scaled, Pow;
    ShiftForFits(n);
    QuotientAtLeast(v, n - 1, ShiftFor(n), n);
    HalvedAtLeastOnce(v, ShiftFor(n));
    TenMonotone(n, MAX_DIGITS);
    TenMonotone(0 - POINT_RANGE - 1, -1);
    TenMonotone(0, n - 1);
    TenZero();
  }

  lemma HalvedAtLeastOnce(v: real, s: nat)
    requires v > 0.0 && s > 0
    ensures Scaled(v, 0 - s) <= v / 2.0
  {
    hide *;
    ScaledDef(v, 0 - s);
    SmallTwos();
    TwoMonotone(0 - s, -1);
    HalfAlgebra(v, Two(0 - s), Scaled(v, 0 - s));
  }

  lemma HalfAlgebra(v: real, t: real, x: real)
    requires v > 0.0 && t <= 0.5 && x == v * t
    ensures x <= v / 2.0
  {
    TimesAtMostReal(t, 0.5, v);
  }

  /** The first loop: divides until the number is below one. */
  method ScaleDown(d: Decimal, ghost x: real, ghost c: int, ghost u: int) returns (exp2: int)
    requires Stage(d, x, 0, u) && Scope(x, c, u) && d.point <= 309
    modifies d, d.digits
    ensures Stage(d, x, exp2, u) && Enough(c, u, exp2) && d.point <= 0
  {
    hide Two, Ten, Scaled, Value, ToNat, Multiple, Tracks, Underflows, Scope, Enough;
    exp2 := 0;
    EnoughAtStart(x, c, u, 0);
    while d.point > 0
      invariant Stage(d, x, exp2, u) && Enough(c, u, exp2) && exp2 >= 0 && d.point <= 309
      decreases d.Val().Floor
    {
      var shift: int := ShiftFor(d.point);
      ghost var v, n := d.Val(), d.point;
      ValueDecade(d.Ds(), d.point);
      DownBounds(v, n, Scaled(v, 0 - shift));
      TracksElim(v, Scaled(x, 0 - exp2), u - exp2, 0);
      ScaledOrder(v, Scaled(x, 0 - exp2), 0 - shift);
      ScaledAdd(x, 0 - exp2, 0 - shift);
      EnoughLarge(x, c, u, exp2 + shift);
      d.RightShift(shift);
      StageShift(v, x, exp2, c, u, 0 - shift, d.Ds(), d.point);
      assert d.Val() <= v / 2.0;
      DecadeShrinks(v, n, d.Val(), d.point, Scaled(v, 0 - shift));
      if d.point < -POINT_RANGE {
        assert false;
      }
      exp2 := exp2 + shift;
    }
  }

  lemma DecadeShrinks(v: real, n: int, v': real, n': int, x: real)
    requires Ten(n' - 1) <= v' <= x < Ten(n') && Ten(-1) <= x && v' <= v / 2.0 && 0.0 < v < Ten(n)
    ensures 0 <= n' <= n && v'.Floor <= (v / 2.0).Floor
  {
    hide *;
    if n' < 0 { TenMonotone(n', -1); }
    if n' > n { TenMonotone(n, n' - 1); }
  }

  // ----- scaling up -----

  /** The first digit of a number in [0, 1). */
  lemma LeadingDigit(ds: seq<nat>)
    requires AllDigits(ds) && ds != []
    ensures ds[0] as real / 10.0 <= Value(ds, 0) < (ds[0] + 1) as real / 10.0
  {
    ValueTake(ds, 1, 0);
    assert ds[..1] == [ds[0]];
    OneDigit(ds[0]);
  }

  lemma OneDigit(d: nat)
    ensures Value([d], 0) == d as real / 10.0 && Ten(-1) == 0.1
  {
    assert Ten(-1) == Ten(0) / 10.0;
    ToNatAppend([], d);
    assert [] + [d] == [d];
    ValueDef([d], 0);
  }

  /** The shift that brings a number below 1/2 closer to [1/2, 1), chosen from its first digit. */
  function UpShift(point: int, digit: nat): nat
    requires point <= 0
  {
    if point == 0 then (if digit < 2 then 2 else 1) else ShiftFor(0 - point)
  }

  lemma UpBounds(ds: seq<nat>, point: int)
    requires AllDigits(ds) && ds != [] && ds[0] != 0 && point <= 0 && (point == 0 ==> ds[0] < 5)
    ensures var v, s := Value(ds, point), UpShift(point, ds[0]);
            0 < s <= MAX_SHIFT && 0.0 < v && 2.0 * v <= Scaled(v, s) < 1.0
  {
    hide Two, Ten, Scaled, Value, Pow;
    var v, s := Value(ds, point), UpShift(point, ds[0]);
    ValueDecade(ds, point);
    DoubledAtLeastOnce(v, s);
    if point == 0 {
      LeadingDigit(ds);
      ScaledDef(v, s);
      SmallTwos();
      TwoStep(1);
    } else {
      ShiftForFits(0 - point);
      ProductBelow(v, point, s, 0 - point);
      TenZero();
    }
  }

  lemma DoubledAtLeastOnce(v: real, s: nat)
    requires v > 0.0 && s > 0
    ensures Scaled(v, s) >= 2.0 * v
  {
    hide *;
    ScaledDef(v, s);
    SmallTwos();
    TwoMonotone(1, s);
    TimesAtMostReal(2.0, Two(s), v);
  }

  /** A whole number that falls as v grows. */
  ghost function Gap(v: real): int {
    if v > 0.0 then (10.0 / v).Floor else 0
  }

  /** Below 1/2 each shift nearly doubles the held value at least, digits dropped or not. */
  lemma GapCloses(v: real, v': real, x: real, point: int)
    requires 0.0 < v && 2.0 * v <= x < 1.0
    requires 0.0 < Ten(point - 1) <= v' <= x < v' + Ten(point - MAX_DIGITS)
    ensures point <= 0 && 0 <= Gap(v') < Gap(v)
  {
    TenZero();
    if point > 0 { TenMonotone(0, point - 1); }
    TenMonotone(point - MAX_DIGITS, point - 2);
    TenStep(point - 2);
    assert v' >= 1.8 * v;
    ReciprocalGap(v, v');
  }

  lemma ReciprocalGap(v: real, v': real)
    requires 0.0 < v && 1.8 * v <= v' && v < 1.0
    ensures 0.0 <= 10.0 / v' <= 10.0 / v - 1.0
  {
    var a, b := 10.0 / v, 10.0 / v';
    assert a * v == 10.0 && b * v' == 10.0;
    assert a > 10.0 by { if a <= 10.0 { TimesAtMostReal(a, 10.0, v); } }
    assert (1.8 * v) * (a - 1.0) == 1.8 * (a * v) - 1.8 * v;
    TimesAtMostReal(1.8 * v, v', a - 1.0);
    if b > a - 1.0 {
      TimesOrder(a - 1.0, b, v');
    }
  }

  /** The second loop: multiplies until the number is at least one half. */
  method ScaleUp(d: Decimal, ghost x: real, ghost c: int, ghost u: int, exp2': int) returns (exp2: int)
    requires Stage(d, x, exp2', u) && Scope(x, c, u) && Enough(c, u, exp2') && d.point <= 0
    modifies d, d.digits
    ensures Stage(d, x, exp2, u) && Enough(c, u, exp2) && d.point == 0 && d.digits[0] >= 5
  {
    hide Two, Ten, Scaled, Value, ToNat, Multiple, Tracks, Underflows, Scope, Enough, Gap, UpShift;
    exp2 := exp2';
    ValueDecade(d.Ds(), d.point);
    while d.point <= 0
      invariant Stage(d, x, exp2, u) && Enough(c, u, exp2) && d.point <= 0 && d.Val() > 0.0
      decreases Gap(d.Val())
    {
      if d.point == 0 && d.digits[0] >= 5 {
        break;
      }
      var shift := UpShift(d.point, d.digits[0]);
      ghost var v := d.Val();
      UpBounds(d.Ds(), d.point);
      EnoughFrom(c, u, exp2, exp2 - shift);
      d.LeftShift(shift);
      TenZero();
      TenMonotone(0, MAX_DIGITS);
      StageShift(v, x, exp2, c, u, shift, d.Ds(), d.point);
      assert Ten(d.point - 1) > 0.0;
      GapCloses(v, d.Val(), Scaled(v, shift), d.point);
      if d.point > POINT_RANGE {
        assert false;
      }
      exp2 := exp2 - shift;
    }
  }

  // ----- the binary exponent -----

  /** A held value in [1/2, 1) fixes the binary exponent of the exact number. */
  lemma ExponentFound(ds: seq<nat>, x: real, e: int, c: int, u: int)
    requires AllDigits(ds) && ds != [] && ds[0] >= 5
    requires Tracks(Value(ds, 0), Scaled(x, 0 - e), u - e) && Scope(x, c, u)
    ensures Two(e - 1) <= x < Two(e)
  {
    hide Two, Ten, Scaled, Value, Multiple, Tracks;
    var v, y := Value(ds, 0), Scaled(x, 0 - e);
    LeadingDigit(ds);
    TracksElim(v, y, u - e, 0);
    SmallTwos();
    ScaledOrder(Two(u), x, 0 - e);
    ScaledTwo(u, 0 - e);
    BelowOne(v, y, u - e);
    ScaledTwo(e - 1, 0 - e);
    ScaledTwo(e, 0 - e);
    ScaledOrder(Two(e - 1), x, 0 - e);
    ScaledOrder(x, Two(e), 0 - e);
  }

  lemma BelowOne(v: real, y: real, w: int)
    requires Tracks(v, y, w) && v < 1.0 && (w > 0 ==> Two(w) <= y)
    ensures y < 1.0
  {
    hide Two, Multiple, Tracks, Pow;
    SmallTwos();
    if w > 0 {
      TracksElim(v, y, w, 1);
      MultipleDef(1, w);
      TwoMonotone(0, w);
    } else {
      TracksElim(v, y, w, Pow(2, 0 - w));
      PowerMultiple(Pow(2, 0 - w), 0 - w, w);
    }
  }

  lemma UnitUnique(x: real, p: int, q: int)
    requires IsUnit(x, p) && IsUnit(x, q)
    ensures p == q
  {
    hide Two;
    if p < q { TwoMonotone(p + 53, q + 52); }
    if q < p { TwoMonotone(q + 53, p + 52); }
  }

  lemma {:induction false} FindUnit(x: real, from: int) returns (q: int)
    requires x < Two(1030) && -1074 <= from <= 977 && (from == -1074 || Two(from + 52) <= x)
    ensures IsUnit(x, q) && q <= 977
    decreases 977 - from
  {
    hide Two;
    if x < Two(from + 53) {
      q := from;
    } else {
      q := FindUnit(x, from + 1);
    }
  }

  /** Every number in range of the guards has a scope. */
  lemma FindScope(x: real) returns (c: int, u: int)
    requires Ten(-325) <= x < Ten(309)
    ensures Scope(x, c, u)
  {
    hide Two, Ten;
    BelowSubnormal();
    InRange();
    if x < Two(-1075) {
      c, u := -1075, -1091;
    } else {
      var q := FindUnit(x, -1074);
      c, u := q + 53, q - 1;
      if q != -1074 { TwoMonotone(q - 1, q + 52); }
    }
  }

  // ----- subnormal numbers -----

  lemma SubnormalBounds(v: real, point: int, n: nat, x: real)
    requires -100 <= point && Ten(point - 1) <= v < 1.0 && 0 < n <= MAX_SHIFT && x == Scaled(v, 0 - n)
    ensures Ten(point - 1 - n) <= x < Ten(MAX_DIGITS) && !Underflows(x)
  {
    hide Two, Ten, Scaled, Pow;
    TwoWithinTen(n);
    QuotientAtLeast(v, point - 1, n, n);
    assert Ten(point - 1) > 0.0;
    HalvedAtLeastOnce(v, n);
    TenZero();
    TenMonotone(0, MAX_DIGITS);
    TenMonotone(0 - POINT_RANGE - 1, point - 1 - n);
  }

  /** The third loop: raises a subnormal exponent to the smallest one. */
  method ScaleSubnormal(d: Decimal, ghost x: real, ghost c: int, ghost u: int, e0: int) returns (exp2: int)
    requires Stage(d, x, e0 + 1, u) && Scope(x, c, u) && Enough(c, u, e0 + 1)
    requires Two(e0) <= x < Two(e0 + 1) && d.point == 0
    modifies d, d.digits
    ensures Stage(d, x, exp2 + 1, u) && Enough(c, u, exp2 + 1)
    ensures IsUnit(x, exp2 - 52)
    ensures exp2 == e0 || exp2 == -1022
  {
    hide Two, Ten, Scaled, Value, ToNat, Multiple, Tracks, Underflows, Enough;
    exp2 := e0;
    ScopeExponent(x, c, u, e0);
    while MINIMUM_EXPONENT + 1 > exp2
      invariant Stage(d, x, exp2 + 1, u) && Enough(c, u, exp2 + 1)
      invariant exp2 == e0 || e0 < exp2 <= -1022
      invariant x < Two(exp2 + 1) && d.point >= e0 - exp2
      decreases -1022 - exp2
    {
      var n: int := (MINIMUM_EXPONENT + 1) - exp2;
      if n > MAX_SHIFT {
        n := MAX_SHIFT;
      }
      ghost var v, point := d.Val(), d.point;
      ValueDecade(d.Ds(), d.point);
      HeldBelowOne(v, x, exp2 + 1, u);
      SubnormalBounds(v, d.point, n, Scaled(v, 0 - n));
      EnoughAtStart(x, c, u, exp2 + 1 + n);
      d.RightShift(n);
      StageShift(v, x, exp2 + 1, c, u, 0 - n, d.Ds(), d.point);
      if d.point < point - n { TenMonotone(d.point, point - 1 - n); }
      TwoMonotone(exp2 + 1, exp2 + n + 1);
      exp2 := exp2 + n;
    }
  }

  lemma ScopeExponent(x: real, c: int, u: int, e: int)
    requires Scope(x, c, u) && x < Two(e + 1)
    ensures e >= -1091
  {
    hide Two;
    if e + 1 <= -1091 { TwoMonotone(e + 1, u); }
  }

  lemma HeldBelowOne(v: real, x: real, e: int, u: int)
    requires Tracks(v, Scaled(x, 0 - e), u - e) && x < Two(e)
    ensures v < 1.0
  {
    hide Two, Scaled, Tracks, Multiple;
    TracksElim(v, Scaled(x, 0 - e), u - e, 0);
    ScaledOrder(x, Two(e), 0 - e);
    ScaledTwo(e, 0 - e);
    SmallTwos();
  }

  // ----- rounding -----

  /** Bounds on the scaled number when 2^q is its unit. */
  lemma InUnits(x: real, q: int)
    requires IsUnit(x, q)
    ensures Scaled(x, 0 - q) < TWO_53 as real
    ensures q > -1074 ==> Scaled(x, 0 - q) >= TWO_52 as real
  {
    hide Two, Scaled;
    PowerTwos();
    ScaledOrder(x, Two(q + 53), 0 - q);
    ScaledTwo(q + 53, 0 - q);
    ScaledOrder(Two(q + 52), x, 0 - q);
    ScaledTwo(q + 52, 0 - q);
  }

  lemma PowerTwos()
    ensures Two(52) == TWO_52 as real && Two(53) == TWO_53 as real
  {
    hide Two, Pow;
    TwoPower52();
    TwoOfNat(52);
    TwoOfNat(53);
  }

  /** Half a unit below 2^53, in units of 2^q, is where the largest exponent overflows. */
  lemma OverflowInUnits(x: real, q: int)
    requires IsUnit(x, q)
    ensures q >= 972 ==> Overflows(x)
    ensures q <= 970 ==> !Overflows(x)
    ensures q == 971 ==> (Overflows(x) <==> Scaled(x, 0 - q) >= TWO_53 as real - 0.5)
  {
    hide Two, Scaled;
    TwoStep(1023);
    TwoMonotone(970, 1023);
    if q >= 972 {
      TwoMonotone(1024, q + 52);
      assert Two(970) > 0.0;
    } else if q <= 970 {
      TwoMonotone(q + 53, 1023);
    } else {
      PowerTwos();
      TwoStep(970);
      SmallTwos();
      ScaledOrder(Two(1024) - Two(970), x, -971);
      ScaledDifference(Two(1024), Two(970), -971);
      ScaledTwo(1024, -971);
      ScaledTwo(970, -971);
    }
  }

  lemma ScaledDifference(a: real, b: real, e: int)
    ensures Scaled(a - b, e) == Scaled(a, e) - Scaled(b, e)
  {
    hide *;
    ScaledDef(a, e);
    ScaledDef(b, e);
    ScaledDef(a - b, e);
    assert (a - b) * Two(e) == a * Two(e) - b * Two(e);
  }

  /** Rounding without carry. */
  lemma RoundedInside(x: real, q: int, n: nat)
    requires IsUnit(x, q) && q <= 971 && NearestEven(Scaled(x, 0 - q), n) && n < TWO_53
    ensures CorrectlyRounded(x, Encode(n, q))
  {
    hide Scaled, Two, CorrectlyRounded, Finite, Decode, Multiple, Overflows, Encode;
    InUnits(x, q);
    OverflowInUnits(x, q);
    EncodeExact(n, q);
    RoundInUnits(x, q, n, Encode(n, q));
  }

  /** Rounding with a carry into the next binade, or to infinity from the last one. */
  lemma RoundedCarry(x: real, q: int)
    requires IsUnit(x, q) && NearestEven(Scaled(x, 0 - q), TWO_53)
    ensures q < 971 ==> CorrectlyRounded(x, Encode(TWO_52, q + 1))
    ensures q == 971 ==> CorrectlyRounded(x, INFINITY)
  {
    OverflowInUnits(x, q);
    hide Scaled, Two, Finite, Decode, Multiple, Overflows, Encode;
    if q < 971 {
      EncodeExact(TWO_52, q + 1);
      TwoPower52();
      PowerMultiple(TWO_52, 52, q + 1);
      PowerMultiple(TWO_53, 53, q);
      RoundInUnits(x, q, TWO_53, Encode(TWO_52, q + 1));
    }
  }

  /** Anything up to half of the smallest subnormal rounds to zero. */
  lemma TinyIsZero(x: real)
    requires 0.0 <= x <= Two(-1075)
    ensures CorrectlyRounded(x, AdjustedMantissa(0, 0))
  {
    hide Scaled, Two, CorrectlyRounded;
    TwoStep(-1075);
    TwoMonotone(-1074, -1021);
    ScaledOrder(x, Two(-1075), 1074);
    ScaledTwo(-1075, 1074);
    ScaledOfZero(1074);
    ScaledOrder(0.0, x, 1074);
    SmallTwos();
    assert Encode(0, -1074) == AdjustedMantissa(0, 0);
    RoundedInside(x, -1074, 0);
  }

  /** After a carry, half of the number still rounds to 2^52. */
  lemma CarryRounds(y: real, n: int)
    requires TWO_53 as real - 0.5 <= y < TWO_53 as real && NearestEven(y / 2.0, n)
    ensures n == TWO_52
  {}

  // ----- the conversion -----

  /** Rounds the scaled decimal to 53 bits: the last shift left, the rounding, and on a carry one
      shift right and a second rounding. */
  method RoundMantissa(d: Decimal, ghost x: real, ghost c: int, ghost u: int, exp2': int) returns (mantissa: nat, exp2: int)
    requires Stage(d, x, exp2' + 1, u) && Enough(c, u, exp2' + 1) && Scope(x, c, u)
    requires IsUnit(x, exp2' - 52)
    modifies d, d.digits
    ensures exp2 == exp2' ==> mantissa < TWO_53 && NearestEven(Scaled(x, 0 - (exp2' - 52)), mantissa)
    ensures exp2 != exp2' ==> exp2 == exp2' + 1 && mantissa == TWO_52 && NearestEven(Scaled(x, 0 - (exp2' - 52)), TWO_53)
  {
    hide Two, Ten, Scaled, Value, ToNat, Multiple, Tracks, Underflows, Enough, NearestEven, Scope;
    exp2 := exp2';
    ghost var q, v := exp2 - 52, d.Val();
    ghost var y := Scaled(x, 0 - q);
    HeldBelowOne(v, x, exp2 + 1, u);
    ValueDecade(d.Ds(), d.point);
    assert Ten(d.point - 1) > 0.0;
    LastShiftBounds(v);
    EnoughFrom(c, u, exp2 + 1, q);
    d.LeftShift(53);
    StageShift(v, x, exp2 + 1, c, u, 53, d.Ds(), d.point);
    InUnits(x, q);
    HalfUnits(x, c, u, q);
    TracksCoarser(d.Val(), y, u - q, -1);
    TracksElim(d.Val(), y, -1, 0);
    PointFits(d.Val(), d.point, y);
    mantissa := d.Round(y);
    NearestBelow(y, mantissa);
    if mantissa >= TWO_53 {
      v := d.Val();
      CarryBounds(v, y, mantissa, Scaled(v, -1), Scaled(y, -1));
      EnoughAfterCarry(x, c, u, q, y);
      d.RightShift(1);
      StageShift(v, x, q, c, u, -1, d.Ds(), d.point);
      exp2 := exp2 + 1;
      TracksCoarser(d.Val(), Scaled(x, 0 - (q + 1)), u - (q + 1), -1);
      ScaledAdd(x, 0 - q, -1);
      TracksElim(d.Val(), Scaled(y, -1), -1, 0);
      PointFits(d.Val(), d.point, Scaled(y, -1));
      mantissa := d.Round(Scaled(y, -1));
      CarryRounds(y, mantissa);
    }
  }

  lemma LastShiftBounds(v: real)
    requires 0.0 < v < 1.0
    ensures Scaled(v, 53) < Ten(MAX_DIGITS)
  {
    hide Two, Ten, Scaled, Pow;
    TwoWithinTen(53);
    TenZero();
    ProductBelow(v, 0, 53, 53);
    TenMonotone(53, MAX_DIGITS);
  }

  lemma HalfUnits(x: real, c: int, u: int, q: int)
    requires Scope(x, c, u) && IsUnit(x, q)
    ensures u <= q - 1
  {
    hide Two;
    if c == u + 54 {
      if x >= Two(-1075) { UnitUnique(x, u + 1, q); }
    }
  }

  lemma PointFits(v: real, point: int, y: real)
    requires Ten(point - 1) <= v <= y < TWO_53 as real
    ensures point <= 18
  {
    hide Ten, Two;
    FiftyThree();
    if point > 18 { TenMonotone(16, point - 1); }
  }

  lemma NearestBelow(y: real, n: int)
    requires y < TWO_53 as real && NearestEven(y, n)
    ensures n <= TWO_53
    ensures n == TWO_53 ==> y >= TWO_53 as real - 0.5
  {}

  lemma CarryBounds(v: real, y: real, n: int, v1: real, y1: real)
    requires Tracks(v, y, -1) && NearestEven(y, n) && n == TWO_53 && y < TWO_53 as real
    requires v1 == Scaled(v, -1) && y1 == Scaled(y, -1)
    ensures y1 == y / 2.0 && TWO_53 as real - 0.5 <= y
    ensures !Underflows(v1) && v1 < Ten(MAX_DIGITS)
  {
    hide Two, Ten, Tracks, Multiple;
    SmallTwos();
    TracksElim(v, y, -1, 2 * TWO_53 - 1);
    Halves(2 * TWO_53 - 1);
    TenZero();
    TenMonotone(0 - POINT_RANGE - 1, 0);
    FiftyThree();
    TenMonotone(16, MAX_DIGITS);
  }

  lemma EnoughAfterCarry(x: real, c: int, u: int, q: int, y: real)
    requires Scope(x, c, u) && IsUnit(x, q) && y == Scaled(x, 0 - q) && y >= 1.0
    ensures Enough(c, u, q + 1) && u == q - 1
  {
    hide Two, Scaled;
    SmallTwos();
    if x < Two(-1075) {
      TwoMonotone(-1075, q);
      ScaledOrder(x, Two(q), 0 - q);
      ScaledTwo(q, 0 - q);
    } else {
      UnitUnique(x, u + 1, q);
      EnoughNormal(u, q + 1);
    }
  }

  /** Decimal to binary64. Whatever number of at most 768 digits the decimal holds, and whatever
      longer number it stands for, the result is that number correctly rounded. */
  method ComputeFloat(d: Decimal, ghost x: real) returns (answer: AdjustedMantissa)
    requires StandsFor(d, x)
    modifies d, d.digits
    ensures CorrectlyRounded(x, answer)
  {
    hide Two, Ten, Scaled, Value, ToNat, Multiple, Tracks, Underflows, Enough, NearestEven, Scope, CorrectlyRounded,
         IsUnit, Overflows, Encode;
    SmallTwos();
    if d.numDigits == 0 {
      assert Two(-1075) > 0.0;
      TinyIsZero(x);
      return AdjustedMantissa(0, 0);
    }
    UnitFits(d.Ds(), d.point);
    ValueDecade(d.Ds(), d.point);
    if d.point < -324 {
      DefinitelyZero();
      TenMonotone(d.point, -325);
      TinyIsZero(x);
      return AdjustedMantissa(0, 0);
    } else if d.point >= 310 {
      DefinitelyInfinite();
      TenMonotone(309, d.point - 1);
      PastTheEnd(x);
      return INFINITY;
    }
    TenMonotone(-325, d.point - 1);
    TenMonotone(d.point, 309);
    ghost var c, u := FindScope(x);
    StageStart(d, x, c, u);
    var exp2 := ScaleDown(d, x, c, u);
    exp2 := ScaleUp(d, x, c, u, exp2);
    ExponentFound(d.Ds(), x, exp2, c, u);
    exp2 := exp2 - 1;
    exp2 := ScaleSubnormal(d, x, c, u, exp2);
    var q := exp2 - 52;
    OverflowInUnits(x, q);
    if exp2 - MINIMUM_EXPONENT >= INFINITE_POWER {
      PastTheEndInUnits(x, q);
      return INFINITY;
    }
    var mantissa: nat;
    mantissa, exp2 := RoundMantissa(d, x, c, u, exp2);
    if exp2 - 52 == q {
      RoundedInside(x, q, mantissa);
    } else {
      RoundedCarry(x, q);
      if exp2 - MINIMUM_EXPONENT >= INFINITE_POWER {
        return INFINITY;
      }
    }
    EncodeFields(mantissa, exp2 - 52);
    var power2 := exp2 - MINIMUM_EXPONENT;
    if mantissa < TWO_52 {
      power2 := power2 - 1;
    }
    return AdjustedMantissa(mantissa % TWO_52, power2);
  }

  lemma EncodeFields(n: nat, q: int)
    ensures Encode(n, q) == AdjustedMantissa(n % TWO_52, if n < TWO_52 then q + 1074 else q + 1075)
  {}

  lemma PastTheEnd(x: real)
    requires x >= Two(1024)
    ensures CorrectlyRounded(x, INFINITY)
  {
    assert Two(970) > 0.0;
    assert Overflows(x);
  }

  lemma PastTheEndInUnits(x: real, q: int)
    requires Overflows(x)
    ensures CorrectlyRounded(x, INFINITY)
  {}
}
