/** The binary64 numbers, and what it means to round a nonnegative real to one of them. */
module Binary64 {
  import opened Powers
  import opened Rounding

  const MINIMUM_EXPONENT: int := -1023
  const INFINITE_POWER: int := 0x7FF
  const TWO_52: nat := 0x10_0000_0000_0000
  const TWO_53: nat := 0x20_0000_0000_0000

  /** The fraction and biased exponent fields of a nonnegative binary64. */
  datatype AdjustedMantissa = AdjustedMantissa(mantissa: nat, power2: int)

  const INFINITY: AdjustedMantissa := AdjustedMantissa(0, INFINITE_POWER)

  ghost predicate Finite(a: AdjustedMantissa) {
    0 <= a.power2 < INFINITE_POWER && a.mantissa < TWO_52
  }

  /** The significand as an integer, and the exponent of its last bit. */
  ghost function Significand(a: AdjustedMantissa): nat {
    if a.power2 == 0 then a.mantissa else TWO_52 + a.mantissa
  }

  ghost function Quantum(a: AdjustedMantissa): int {
    if a.power2 == 0 then -1074 else a.power2 - 1075
  }

  ghost function Decode(a: AdjustedMantissa): real {
    Multiple(Significand(a), Quantum(a))
  }

  /** Where rounding to nearest gives infinity: half a unit past the largest finite number. */
  ghost predicate Overflows(x: real) {
    x >= Two(1024) - Two(970)
  }

  /** Section 4.3.1 of IEEE 754-2019, roundTiesToEven: no other finite number is nearer, another
      equally near one has the odd fraction, and large numbers become infinite. */
  ghost predicate CorrectlyRounded(x: real, a: AdjustedMantissa) {
    if Overflows(x) then a == INFINITY else
      && Finite(a)
      && forall b: AdjustedMantissa | Finite(b) ::
           Distance(x, Decode(a)) < Distance(x, Decode(b))
           || (Distance(x, Decode(a)) == Distance(x, Decode(b)) && (Decode(a) == Decode(b) || a.mantissa % 2 == 0))
  }

  /** 2^q is the unit in the last place of the binary64 numbers around x. */
  ghost predicate IsUnit(x: real, q: int) {
    q >= -1074 && x < Two(q + 53) && (q == -1074 || Two(q + 52) <= x)
  }

  /** Rounding x / 2^q to an integer r and encoding r 2^q is correct rounding. */
  lemma RoundInUnits(x: real, q: int, r: int, a: AdjustedMantissa)
    requires IsUnit(x, q) && NearestEven(Scaled(x, 0 - q), r) && !Overflows(x)
    requires Finite(a) && Decode(a) == Multiple(r, q) && (r % 2 == 0 ==> a.mantissa % 2 == 0)
    ensures CorrectlyRounded(x, a)
  {
    forall b: AdjustedMantissa | Finite(b)
      ensures Distance(x, Decode(a)) < Distance(x, Decode(b))
              || (Distance(x, Decode(a)) == Distance(x, Decode(b)) && (Decode(a) == Decode(b) || a.mantissa % 2 == 0))
    {
      if Quantum(b) >= q {
        RivalOnGrid(x, q, r, b);
      } else {
        RivalBelow(x, q, r, b);
      }
    }
  }

  /** A rival that is itself a multiple of 2^q is no nearer. */
  lemma RivalOnGrid(x: real, q: int, r: int, b: AdjustedMantissa)
    requires NearestEven(Scaled(x, 0 - q), r) && Quantum(b) >= q
    ensures Distance(x, Multiple(r, q)) <= Distance(x, Decode(b))
    ensures Distance(x, Multiple(r, q)) == Distance(x, Decode(b)) ==> Multiple(r, q) == Decode(b) || r % 2 == 0
  {
    var k := Significand(b) * Pow(2, Quantum(b) - q);
    assert Decode(b) == Multiple(Significand(b), Quantum(b));
    hide *;
    FinerMultiple(Significand(b), Quantum(b), q);
    NearestEvenIsNearest(Scaled(x, 0 - q), r, k);
    DistanceScaled(x, q, r);
    DistanceScaled(x, q, k);
    ScaledOrder(Distance(Scaled(x, 0 - q), r as real), Distance(Scaled(x, 0 - q), k as real), q);
    ScaledOrder(Distance(Scaled(x, 0 - q), k as real), Distance(Scaled(x, 0 - q), r as real), q);
  }

  /** Distances to multiples of 2^q, measured in units of 2^q. */
  lemma DistanceScaled(x: real, q: int, m: int)
    ensures Distance(x, Multiple(m, q)) == Scaled(Distance(Scaled(x, 0 - q), m as real), q)
  {
    hide Two, Scaled, Multiple;
    var y := Scaled(x, 0 - q);
    ScaledAdd(x, 0 - q, q);
    ScaledZero(x);
    MultipleDef(m, q);
    ScaledDef(m as real, q);
    ScaledDef(y, q);
    ScaledDef(Distance(y, m as real), q);
    ScaledOrder(y, m as real, q);
    DistanceAlgebra(y, m as real, Two(q), Scaled(y, q), Multiple(m, q), Scaled(Distance(y, m as real), q));
  }

  lemma DistanceAlgebra(y: real, m: real, t: real, yt: real, mt: real, dt: real)
    requires yt == y * t && mt == m * t && dt == Distance(y, m) * t && t > 0.0
    ensures dt == Distance(yt, mt)
  {
    if y >= m {
      TimesAtMostReal(m, y, t);
      assert (y - m) * t == y * t - m * t;
    } else {
      TimesAtMostReal(y, m, t);
      assert (m - y) * t == m * t - y * t;
    }
  }

  /** A rival with a smaller quantum lies below 2^(q+52), which is itself a multiple of 2^q. */
  lemma RivalBelow(x: real, q: int, r: int, b: AdjustedMantissa)
    requires IsUnit(x, q) && NearestEven(Scaled(x, 0 - q), r) && Finite(b) && Quantum(b) < q
    ensures Distance(x, Multiple(r, q)) < Distance(x, Decode(b))
  {
    var edge := AdjustedMantissa(0, q + 1075);
    assert Decode(b) == Multiple(Significand(b), Quantum(b)) && Significand(b) < TWO_53;
    assert Decode(edge) == Multiple(TWO_52, q);
    assert Two(q + 52) <= x;
    hide Two, Scaled, Multiple, NearestEven, Decode;
    RivalOnGrid(x, q, r, edge);
    TwoPower52();
    PowerMultiple(TWO_52, 52, q);
    PowerMultiple(TWO_53, 53, Quantum(b));
    MultipleOrder(Significand(b), TWO_53, Quantum(b));
    TwoMonotone(Quantum(b) + 53, q + 52);
  }

  lemma PowerMultiple(p: nat, e: nat, q: int)
    requires p == Pow(2, e)
    ensures Multiple(p, q) == Two(q + e)
  {
    hide *;
    MultipleDef(p, q);
    TwoOfNat(e);
    TwoAdd(e, q);
  }

  lemma MultipleOrder(m: int, n: int, q: int)
    requires m < n
    ensures Multiple(m, q) < Multiple(n, q)
  {
    hide *;
    MultipleDef(m, q);
    MultipleDef(n, q);
    TimesOrder(m as real, n as real, Two(q));
  }

  lemma TwoPower52()
    ensures Pow(2, 52) == TWO_52 && Pow(2, 53) == TWO_53
  {
    assert Pow(2, 10) == 1024;
    assert Pow(2, 3) == 8;
    PowAdd(2, 10, 10);
    PowAdd(2, 20, 20);
    PowAdd(2, 40, 10);
    PowAdd(2, 50, 3);
    PowStep(2, 52);
  }

  // ----- encoding -----

  /** The integer r, in units of 2^q, packed into fields. */
  function Encode(r: nat, q: int): AdjustedMantissa {
    AdjustedMantissa(r % TWO_52, if r < TWO_52 then q + 1074 else q + 1075)
  }

  /** Packing is exact below 2^53, where only the smallest unit leaves the leading bit clear. */
  lemma EncodeExact(r: nat, q: int)
    requires -1074 <= q <= 971 && r < TWO_53 && (r < TWO_52 ==> q == -1074)
    ensures Finite(Encode(r, q)) && Decode(Encode(r, q)) == Multiple(r, q)
    ensures r % 2 == 0 ==> Encode(r, q).mantissa % 2 == 0
  {
    hide Two, Pow, Multiple;
  }
}
