/** How a decimal that has lost digits still decides how the exact number rounds. */
module Rounding {
  import opened Powers
  import opened Digits
  import opened DecimalShift

  /** n is y rounded to an integer, ties to even. */
  ghost predicate NearestEven(y: real, n: int) {
    && -0.5 <= y - n as real <= 0.5
    && (y - n as real == 0.5 || y - n as real == -0.5 ==> n % 2 == 0)
  }

  /** The integer nearest to y is at least as near as any other, and even when another ties. */
  lemma NearestEvenIsNearest(y: real, n: int, k: int)
    requires NearestEven(y, n)
    ensures Distance(y, n as real) <= Distance(y, k as real)
    ensures Distance(y, n as real) == Distance(y, k as real) && k != n ==> n % 2 == 0
  {
    if k > n {
      assert k as real >= n as real + 1.0;
    } else if k < n {
      assert k as real <= n as real - 1.0;
    }
  }

  ghost function Distance(x: real, y: real): real {
    if x >= y then x - y else y - x
  }

  /** A held value `v` stands in for the exact `y`: it is no larger, and no multiple of 2^u lies
      above `v` and at or below `y`. */
  ghost predicate Tracks(v: real, y: real, u: int) {
    v <= y && forall m: int :: Multiple(m, u) <= y ==> Multiple(m, u) <= v
  }

  ghost function Multiple(m: int, u: int): real {
    m as real * Two(u)
  }

  /** Tracking multiples of a power of two tracks the multiples of every larger power. */
  lemma TracksCoarser(v: real, y: real, u: int, w: int)
    requires Tracks(v, y, u) && u <= w
    ensures Tracks(v, y, w)
  {
    forall m: int | Multiple(m, w) <= y
      ensures Multiple(m, w) <= v
    {
      FinerMultiple(m, w, u);
    }
  }

  lemma FinerMultiple(m: int, w: int, u: int)
    requires u <= w
    ensures Multiple(m, w) == Multiple(m * Pow(2, w - u), u)
  {
    hide *;
    MultipleDef(m, w);
    MultipleDef(m * Pow(2, w - u), u);
    TwoAdd(u, w - u);
    TwoOfNat(w - u);
    FinerAlgebra(m, Pow(2, w - u), Two(u), Two(w));
  }

  lemma MultipleDef(m: int, u: int)
    ensures Multiple(m, u) == m as real * Two(u)
  {}

  lemma FinerAlgebra(m: int, p: int, u: real, w: real)
    requires w == u * p as real
    ensures m as real * w == (m * p) as real * u
  {
    assert (m * p) as real == m as real * p as real;
  }

  // ----- the decimal grid -----

  /** Multiples of 2^u are multiples of 10^g. */
  ghost predicate OnGrid(u: int, g: int) {
    g <= u && g <= 0
  }

  /** A multiple of 2^u, on the grid of 10^g, written as a multiple of 10^g. */
  lemma GridMultiple(m: int, u: int, g: int) returns (k: int)
    requires OnGrid(u, g)
    ensures Multiple(m, u) == k as real * Ten(g)
  {
    var w := if u < 0 then u else 0;
    k := (m * Pow(2, u - w)) * Pow(5, 0 - w) * Pow(10, w - g);
    GridSteps(m, u, w, g, k);
  }

  lemma GridSteps(m: int, u: int, w: int, g: int, k: int)
    requires g <= w <= u && w <= 0
    requires k == (m * Pow(2, u - w)) * Pow(5, 0 - w) * Pow(10, w - g)
    ensures Multiple(m, u) == k as real * Ten(g)
  {
    hide *;
    FinerMultiple(m, u, w);
    var m' := m * Pow(2, u - w);
    MultipleDef(m', w);
    TwoIsFiveTen(0 - w);
    TenAdd(g, w - g);
    TenOfNat(w - g);
    GridAlgebra(m', Pow(5, 0 - w), Pow(10, w - g), Two(w), Ten(w), Ten(g), k);
  }

  lemma GridAlgebra(m: int, f: int, t: int, two: real, ten: real, g: real, k: int)
    requires two == f as real * ten && ten == g * t as real && k == m * f * t
    ensures m as real * two == k as real * g
  {
    assert (m * f) as real == m as real * f as real;
    assert (m * f * t) as real == (m * f) as real * t as real;
  }

  /** 2^-n is 5^n units of 10^-n. */
  lemma TwoIsFiveTen(n: nat)
    ensures Two(0 - n) == Pow(5, n) as real * Ten(0 - n)
  {
    hide *;
    TenIsTwoFive(n);
    TwoInverse(n);
    TenInverse(n);
    TwoOfNat(n);
    TenOfNat(n);
    InverseAlgebra(Pow(2, n), Pow(5, n), Pow(10, n), Two(0 - n), Ten(0 - n));
  }

  lemma InverseAlgebra(t: nat, f: nat, ten: nat, two': real, ten': real)
    requires ten == t * f && t > 0 && two' * t as real == 1.0 && ten' * ten as real == 1.0
    ensures two' == f as real * ten'
  {
    var t', f' := t as real, f as real;
    assert ten as real == t' * f';
    assert (two' - f' * ten') * t' == two' * t' - ten' * (t' * f');
    NoZeroDivisor(two' - f' * ten', t');
  }

  lemma NoZeroDivisor(x: real, y: real)
    requires x * y == 0.0 && y > 0.0
    ensures x == 0.0
  {
    if x > 0.0 { TimesOrder(0.0, x, y); }
    if x < 0.0 { TimesOrder(x, 0.0, y); }
  }

  /** Dropping digits below the grid never steps over a multiple on the grid. */
  lemma GridFloor(m: int, u: int, ds: seq<nat>, point: int, y: real)
    requires |ds| <= MAX_DIGITS && OnGrid(u, point - MAX_DIGITS)
    requires y < Value(ds, point) + Ten(point - MAX_DIGITS) && Multiple(m, u) <= y
    ensures Multiple(m, u) <= Value(ds, point)
  {
    hide *;
    var k := GridMultiple(m, u, point - MAX_DIGITS);
    var j := ValueUnits(ds, point);
    UnitsOrder(k, j, Ten(point - MAX_DIGITS), y);
  }

  /** The value of at most 768 digits as a whole number of units of the 768th. */
  lemma ValueUnits(ds: seq<nat>, point: int) returns (j: nat)
    requires |ds| <= MAX_DIGITS
    ensures j == ToNat(ds) * Pow(10, MAX_DIGITS - |ds|)
    ensures Value(ds, point) == j as real * Ten(point - MAX_DIGITS)
  {
    hide *;
    var e := MAX_DIGITS - |ds|;
    j := ToNat(ds) * Pow(10, e);
    ValueDef(ds, point);
    TenAdd(point - MAX_DIGITS, e);
    TenOfNat(e);
    UnitsAlgebra(ToNat(ds), Pow(10, e), Ten(point - MAX_DIGITS), Ten(point - |ds|), j);
  }

  lemma UnitsAlgebra(x: nat, p: nat, u: real, w: real, j: nat)
    requires w == u * p as real && j == x * p
    ensures x as real * w == j as real * u
  {
    assert (x * p) as real == x as real * p as real;
  }

  lemma UnitsOrder(k: int, j: int, u: real, y: real)
    requires u > 0.0 && k as real * u <= y < j as real * u + u
    ensures k as real * u <= j as real * u
  {
    assert (j as real + 1.0) * u == j as real * u + u;
    if k > j {
      TimesAtMostReal(j as real + 1.0, k as real, u);
    } else {
      TimesAtMostReal(k as real, j as real, u);
    }
  }

  /** At most 768 digits leave room for one more unit of the 768th below the next power of ten. */
  lemma UnitFits(ds: seq<nat>, point: int)
    requires |ds| <= MAX_DIGITS && AllDigits(ds)
    ensures Value(ds, point) + Ten(point - MAX_DIGITS) <= Ten(point)
  {
    hide *;
    var j := ValueUnits(ds, point);
    ToNatBound(ds);
    PowAdd(10, |ds|, MAX_DIGITS - |ds|);
    TimesAtMost(ToNat(ds) + 1, Pow(10, |ds|), Pow(10, MAX_DIGITS - |ds|));
    TenAdd(MAX_DIGITS, point - MAX_DIGITS);
    TenOfNat(MAX_DIGITS);
    FitsAlgebra(ToNat(ds), Pow(10, MAX_DIGITS - |ds|), Pow(10, MAX_DIGITS), j, Ten(point - MAX_DIGITS), Ten(point));
  }

  lemma FitsAlgebra(x: nat, p: nat, q: nat, j: nat, u: real, t: real)
    requires p > 0 && j == x * p && (x + 1) * p <= q && u > 0.0 && t == q as real * u
    ensures j as real * u + u <= t
  {
    assert j + 1 <= q;
    TimesAtMostReal(j as real + 1.0, q as real, u);
  }

  // ----- one shift -----

  /** A shift of the held value, with digits dropped below the grid, keeps track of the shifted
      exact value. */
  lemma TracksShift(v: real, y: real, u: int, s: int, ds: seq<nat>, point: int)
    requires Tracks(v, y, u) && |ds| <= MAX_DIGITS && OnGrid(u + s, point - MAX_DIGITS)
    requires Value(ds, point) <= Scaled(v, s) < Value(ds, point) + Ten(point - MAX_DIGITS)
    ensures Tracks(Value(ds, point), Scaled(y, s), u + s)
  {
    hide *;
    var w, v', x, z := u + s, Value(ds, point), Scaled(v, s), Scaled(y, s);
    TracksElim(v, y, u, 0);
    ScaledOrder(v, y, s);
    forall m: int | Multiple(m, w) <= z
      ensures Multiple(m, w) <= v'
    {
      MultipleShift(m, u, s);
      TracksElim(v, y, u, m);
      ScaledOrder(Multiple(m, u), y, s);
      ScaledOrder(Multiple(m, u), v, s);
      GridFloor(m, w, ds, point, x);
    }
    TracksIntro(v', z, w);
  }

  lemma TracksIntro(v: real, y: real, u: int)
    requires v <= y && forall m: int :: Multiple(m, u) <= y ==> Multiple(m, u) <= v
    ensures Tracks(v, y, u)
  {}

  lemma TracksElim(v: real, y: real, u: int, m: int)
    requires Tracks(v, y, u)
    ensures v <= y && (Multiple(m, u) <= y ==> Multiple(m, u) <= v)
  {}

  lemma MultipleShift(m: int, u: int, s: int)
    ensures Multiple(m, u + s) == Scaled(Multiple(m, u), s)
  {
    hide *;
    MultipleDef(m, u);
    MultipleDef(m, u + s);
    ScaledDef(Multiple(m, u), s);
    TwoAdd(u, s);
    AddProduct(m as real, Two(u), Two(s), Two(u + s), Multiple(m, u), Scaled(Multiple(m, u), s), Multiple(m, u + s));
  }

  /** Equality with the exact value survives exactly when no nonzero digit has been dropped, now
      or before. */
  lemma LostShift(v: real, y: real, s: int, v': real)
    requires v' <= Scaled(v, s) && v <= y
    ensures v' == Scaled(y, s) <==> v == y && v' == Scaled(v, s)
  {
    hide *;
    ScaledOrder(v, y, s);
  }

  // ----- the decision to round up -----

  /** Whether `v`, which tracks the halves of `y`, is below, at or above the half after `f`
      decides how `y` rounds; at the half itself, digits lost mean that `y` is above it. */
  lemma RoundDecision(v: real, y: real, f: int, up: bool)
    requires Tracks(v, y, -1) && f as real <= v < f as real + 1.0
    requires up ==> v > f as real + 0.5 || (v == f as real + 0.5 && (y != v || f % 2 == 1))
    requires !up ==> v < f as real + 0.5 || (v == f as real + 0.5 && y == v && f % 2 == 0)
    ensures NearestEven(y, if up then f + 1 else f)
  {
    hide Tracks, Multiple;
    TracksElim(v, y, -1, 2 * f + 1);
    TracksElim(v, y, -1, 2 * f + 3);
    Halves(2 * f + 1);
    Halves(2 * f + 3);
  }

  lemma Halves(m: int)
    ensures Multiple(m, -1) == m as real / 2.0
  {
    assert Two(-1) == Two(0) / 2.0;
  }

  /** The digit after the point decides on which side of the half the number lies. */
  lemma DigitDecision(ds: seq<nat>, point: nat, f: nat)
    requires AllDigits(ds) && point < |ds| && ds[|ds| - 1] != 0 && f == ToNat(ds[..point])
    ensures var v, half := Value(ds, point), f as real + 0.5;
            && f as real <= v < f as real + 1.0
            && (ds[point] >= 5 ==> v >= half) && (ds[point] < 5 ==> v < half)
            && (v == half <==> ds[point] == 5 && point + 1 == |ds|)
  {
    var d, hd, tl := ds[point], ds[..point + 1], ds[point + 1..];
    assert hd == ds[..point] + [d];
    ToNatAppend(ds[..point], d);
    ValueTake(ds, point + 1, point);
    TenthDigit(hd, point);
    if tl != [] { assert tl[|tl| - 1] == ds[|ds| - 1]; }
  }

  lemma TenthDigit(hd: seq<nat>, point: nat)
    requires |hd| == point + 1
    ensures Value(hd, point) == ToNat(hd) as real / 10.0 && Ten(point - (point + 1)) == 0.1
  {
    assert Ten(-1) == Ten(0) / 10.0;
    ValueDef(hd, point);
  }

  /** Without digits after the point the number is whole. */
  lemma WholeNumber(ds: seq<nat>, point: nat)
    requires point >= |ds|
    ensures Value(ds, point) == (ToNat(ds) * Pow(10, point - |ds|)) as real
  {
    hide *;
    ValueDef(ds, point);
    TenOfNat(point - |ds|);
    WholeAlgebra(ToNat(ds), Pow(10, point - |ds|), Ten(point - |ds|), Value(ds, point));
  }

  lemma WholeAlgebra(x: nat, p: nat, t: real, v: real)
    requires t == p as real && v == x as real * t
    ensures v == (x * p) as real
  {}
}
