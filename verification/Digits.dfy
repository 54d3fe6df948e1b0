/** Decimal digit strings, most significant digit first, and the numbers they denote. */
module Digits {
  import opened Powers

  ghost predicate AllDigits(ds: seq<nat>) {
    forall i :: 0 <= i < |ds| ==> ds[i] <= 9
  }

  ghost predicate AllZero(ds: seq<nat>) {
    forall i :: 0 <= i < |ds| ==> ds[i] == 0
  }

  /** The integer a digit string denotes. */
  function ToNat(ds: seq<nat>): nat {
    if ds == [] then 0 else 10 * ToNat(ds[..|ds| - 1]) + ds[|ds| - 1]
  }

  /** The number 0.d1 d2 ... dn x 10^point. */
  ghost function Value(ds: seq<nat>, point: int): real {
    ToNat(ds) as real * Ten(point - |ds|)
  }

  lemma ToNatAppend(ds: seq<nat>, d: nat)
    ensures ToNat(ds + [d]) == 10 * ToNat(ds) + d
  {
    assert (ds + [d])[..|ds|] == ds;
  }

  lemma {:induction false} ToNatConcat(a: seq<nat>, b: seq<nat>)
    ensures ToNat(a + b) == ToNat(a) * Pow(10, |b|) + ToNat(b)
  {
    if b == [] {
      assert a + b == a;
    } else {
      hide *;
      var b', d := b[..|b| - 1], b[|b| - 1];
      ToNatConcat(a, b');
      assert a + b == (a + b') + [d] && b == b' + [d];
      ToNatAppend(a + b', d);
      ToNatAppend(b', d);
      PowStep(10, |b'|);
      ConcatAlgebra(ToNat(a), Pow(10, |b'|), ToNat(b'), d);
    }
  }

  lemma ConcatAlgebra(a: nat, p: nat, b: nat, d: nat)
    ensures 10 * (a * p + b) + d == a * (10 * p) + (10 * b + d)
  {}

  lemma ToNatPrepend(d: nat, ds: seq<nat>)
    ensures ToNat([d] + ds) == d * Pow(10, |ds|) + ToNat(ds)
  {
    ToNatConcat([d], ds);
    assert ToNat([d]) == d by { ToNatAppend([], d); }
  }

  lemma {:induction false} ToNatBound(ds: seq<nat>)
    requires AllDigits(ds)
    ensures ToNat(ds) < Pow(10, |ds|)
  {
    if ds != [] {
      ToNatBound(ds[..|ds| - 1]);
    }
  }

  lemma ToNatLeading(ds: seq<nat>)
    requires ds != [] && ds[0] != 0
    ensures Pow(10, |ds| - 1) <= ToNat(ds)
  {
    hide *;
    assert [ds[0]] + ds[1..] == ds;
    ToNatPrepend(ds[0], ds[1..]);
    Grows(ds[0], Pow(10, |ds| - 1));
  }

  lemma {:induction false} ToNatZero(ds: seq<nat>)
    ensures ToNat(ds) == 0 <==> AllZero(ds)
  {
    if ds != [] {
      ToNatZero(ds[..|ds| - 1]);
    }
  }

  /** A digit string with a nonzero leading digit has as many digits as its value says. */
  lemma LengthFromValue(ds: seq<nat>, n: nat)
    requires AllDigits(ds) && ds != [] && ds[0] != 0
    requires n > 0 && Pow(10, n - 1) <= ToNat(ds) < Pow(10, n)
    ensures |ds| == n
  {
    hide *;
    ToNatBound(ds);
    ToNatLeading(ds);
    if |ds| < n {
      PowMonotone(10, |ds|, n - 1);
    } else if |ds| > n {
      PowMonotone(10, n, |ds| - 1);
    }
  }

  /** A prefix of a digit string bounds the fraction it denotes from both sides. */
  lemma PrefixBounds(hd: seq<nat>, rest: seq<nat>)
    requires AllDigits(rest)
    ensures ToNat(hd) * Pow(10, |rest| + |hd|) <= ToNat(hd + rest) * Pow(10, |hd|)
    ensures ToNat(hd + rest) * Pow(10, |hd|) < ToNat(hd) * Pow(10, |rest| + |hd|) + Pow(10, |rest| + |hd|)
  {
    hide *;
    ToNatConcat(hd, rest);
    ToNatBound(rest);
    PrefixAlgebra(ToNat(hd), |rest|, ToNat(rest), |hd|, ToNat(hd + rest));
  }

  lemma PrefixAlgebra(t: nat, m: nat, r: nat, n: nat, x: nat)
    requires r < Pow(10, m) && x == t * Pow(10, m) + r
    ensures t * Pow(10, m + n) <= x * Pow(10, n) < t * Pow(10, m + n) + Pow(10, m + n)
  {
    hide *;
    PowAdd(10, m, n);
    PowPositive(10, n);
    PrefixProducts(t, Pow(10, m), r, Pow(10, n), Pow(10, m + n), x);
  }

  lemma PrefixProducts(t: nat, u: nat, r: nat, h: nat, p: nat, x: nat)
    requires r < u && h > 0 && p == u * h && x == t * u + r
    ensures t * p <= x * h < t * p + p
  {
    assert t * p == (t * u) * h && (t + 1) * p == ((t + 1) * u) * h;
    TimesAtMost(t * u, x, h);
    assert (t + 1) * u == t * u + u;
    TimesOrderInt(x, (t + 1) * u, h);
  }

  /** Strings of different length compared as fractions: the first differing digit decides. */
  lemma FractionOrder(a: seq<nat>, b: seq<nat>, i: nat)
    requires AllDigits(a) && AllDigits(b)
    requires i < |a| && i < |b| && a[..i] == b[..i] && a[i] > b[i]
    ensures ToNat(a) * Pow(10, |b|) > ToNat(b) * Pow(10, |a|)
  {
    var a0, a1, b0, b1 := a[..i + 1], a[i + 1..], b[..i + 1], b[i + 1..];
    assert AllDigits(a1) && AllDigits(b1);
    hide *;
    assert a == a0 + a1 && b == b0 + b1;
    assert ToNat(a0) > ToNat(b0) by {
      assert a0 == a[..i] + [a[i]] && b0 == b[..i] + [b[i]];
      ToNatAppend(a[..i], a[i]);
      ToNatAppend(b[..i], b[i]);
    }
    FractionOrderParts(a0, a1, b0, b1);
  }

  lemma FractionOrderParts(a0: seq<nat>, a1: seq<nat>, b0: seq<nat>, b1: seq<nat>)
    requires AllDigits(a1) && AllDigits(b1) && |a0| == |b0| && ToNat(a0) > ToNat(b0)
    ensures ToNat(a0 + a1) * Pow(10, |b0 + b1|) > ToNat(b0 + b1) * Pow(10, |a0 + a1|)
  {
    hide *;
    PrefixBounds(a0, a1);
    PrefixBounds(b0, b1);
    FractionOrderAlgebra(ToNat(a0), ToNat(b0), Pow(10, |a0|), Pow(10, |a1| + |a0|), Pow(10, |b1| + |b0|),
                         ToNat(a0 + a1), ToNat(b0 + b1));
  }

  lemma FractionOrderAlgebra(x: nat, y: nat, h: nat, pa: nat, pb: nat, a: nat, b: nat)
    requires x > y && pa > 0 && pb > 0
    requires x * pa <= a * h && b * h < y * pb + pb
    ensures a * pb > b * pa
  {
    TimesAtMost(y + 1, x, pb);
    TimesOrderInt(b * h, x * pb, pa);
    TimesAtMost(x * pa, a * h, pb);
    assert (x * pb) * pa == (x * pa) * pb;
    assert (b * h) * pa == (b * pa) * h && (a * h) * pb == (a * pb) * h;
    if a * pb <= b * pa { TimesAtMost(a * pb, b * pa, h); }
  }

  /** A proper prefix of b, with something nonzero after it, is the smaller fraction. */
  lemma FractionPrefix(a: seq<nat>, b: seq<nat>)
    requires a <= b && ToNat(b[|a|..]) > 0
    ensures ToNat(a) * Pow(10, |b|) < ToNat(b) * Pow(10, |a|)
  {
    hide *;
    var c := b[|a|..];
    assert b == a + c;
    ToNatConcat(a, c);
    PowAdd(10, |a|, |c|);
    PowPositive(10, |a|);
    TimesOrderInt(ToNat(a) * Pow(10, |c|), ToNat(b), Pow(10, |a|));
    SwapInt(ToNat(a), Pow(10, |a|), Pow(10, |c|));
  }

  /** A string that extends b is at least as large a fraction as b. */
  lemma FractionExtends(a: seq<nat>, b: seq<nat>)
    requires b <= a
    ensures ToNat(a) * Pow(10, |b|) >= ToNat(b) * Pow(10, |a|)
  {
    hide *;
    var c := a[|b|..];
    assert a == b + c;
    ToNatConcat(b, c);
    PowAdd(10, |b|, |c|);
    SwapInt(ToNat(b), Pow(10, |b|), Pow(10, |c|));
    TimesAtMost(ToNat(b) * Pow(10, |c|), ToNat(a), Pow(10, |b|));
  }

  lemma SwapInt(x: int, y: int, z: int)
    ensures x * (y * z) == (x * z) * y
  {}

  /** The decimal digits of x, without leading zeros. */
  function DigitsOf(x: nat): (ds: seq<nat>)
    ensures AllDigits(ds) && ToNat(ds) == x
    ensures x > 0 ==> ds != [] && ds[0] != 0
  {
    if x == 0 then [] else
      ToNatAppend(DigitsOf(x / 10), x % 10);
      DigitsOf(x / 10) + [x % 10]
  }

  // ----- values -----

  /** Keeping only the first m digits loses less than one unit of digit m, and loses nothing
      exactly when the dropped digits are all zero. */
  lemma ValueTake(ds: seq<nat>, m: nat, point: int)
    requires AllDigits(ds) && m <= |ds|
    ensures Value(ds[..m], point) <= Value(ds, point) < Value(ds[..m], point) + Ten(point - m)
    ensures Value(ds[..m], point) == Value(ds, point) <==> AllZero(ds[m..])
  {
    var hd, tl := ds[..m], ds[m..];
    assert AllDigits(tl);
    hide *;
    assert ds == hd + tl;
    TakeParts(hd, tl, point, Value(hd, point), Value(ds, point));
    ToNatZero(tl);
  }

  lemma TakeParts(hd: seq<nat>, tl: seq<nat>, point: int, vh: real, v: real)
    requires AllDigits(tl) && vh == Value(hd, point) && v == Value(hd + tl, point)
    ensures vh <= v < vh + Ten(point - |hd|)
    ensures vh == v <==> ToNat(tl) == 0
  {
    hide *;
    var n := |hd + tl|;
    ValueDef(hd + tl, point);
    ValueDef(hd, point);
    ToNatConcat(hd, tl);
    ToNatBound(tl);
    var u, w := Ten(point - n), Ten(point - |hd|);
    assert w == u * Pow(10, |tl|) as real by {
      TenOfNat(|tl|);
      TenAdd(point - n, |tl|);
    }
    TakeAlgebra(ToNat(hd), ToNat(tl), Pow(10, |tl|), u, w, vh, v);
  }

  lemma TakeAlgebra(h: nat, t: nat, p: nat, u: real, w: real, vh: real, v: real)
    requires t < p && u > 0.0 && w == u * p as real
    requires vh == h as real * w && v == (h * p + t) as real * u
    ensures vh <= v < vh + w
    ensures vh == v <==> t == 0
  {
    var h', t', p' := h as real, t as real, p as real;
    assert (h * p) as real == h' * p';
    assert v == vh + t' * u by {
      assert (h' * p' + t') * u == h' * (u * p') + t' * u;
    }
    TimesOrder(t', p', u);
    if t > 0 { TimesOrder(0.0, t', u); }
  }

  lemma ValueDef(ds: seq<nat>, point: int)
    ensures Value(ds, point) == ToNat(ds) as real * Ten(point - |ds|)
  {}

  /** A nonzero leading digit fixes the decade: 10^(point-1) <= value < 10^point. */
  lemma ValueDecade(ds: seq<nat>, point: int)
    requires AllDigits(ds) && ds != [] && ds[0] != 0
    ensures 0.0 < Ten(point - 1) <= Value(ds, point) < Ten(point)
  {
    hide *;
    ValueDef(ds, point);
    ToNatBound(ds);
    ToNatLeading(ds);
    var n := |ds|;
    TenOfNat(n);
    TenOfNat(n - 1);
    TenAdd(n, point - n);
    TenAdd(n - 1, point - n);
    assert Ten(point - 1) > 0.0;
    DecadeAlgebra(Ten(n - 1), ToNat(ds) as real, Ten(n), Ten(point - n), Ten(point - 1), Value(ds, point), Ten(point));
  }

  lemma DecadeAlgebra(lo: real, x: real, hi: real, u: real, vlo: real, v: real, vhi: real)
    requires lo <= x < hi && u > 0.0 && vlo == lo * u && v == x * u && vhi == hi * u
    ensures vlo <= v < vhi
  {
    TimesAtMostReal(lo, x, u);
    TimesOrder(x, hi, u);
  }
}
