/** The arithmetic of one turn of each shift loop, and of the digit strings the loops leave. */
module DecimalSteps {
  import opened Powers
  import opened Digits
  import opened DecimalShift

  // ----- words -----

  /** An unsigned 32-bit index: below zero it wraps around. */
  function Index(i: int): nat
    requires -1 <= i
  {
    if i < 0 then TWO_32 - 1 else i
  }

  function Previous(i: nat): nat {
    if i == 0 then TWO_32 - 1 else i - 1
  }

  lemma IndexStep(i: nat)
    ensures Index(i - 1) == Previous(Index(i))
    ensures Index(i) == i
  {}

  /** The word `n` shifted right, and the bits shifted out. */
  function Shr(n: nat, shift: nat): nat {
    n / Pow(2, shift)
  }

  function Low(n: nat, shift: nat): nat {
    n % Pow(2, shift)
  }

  lemma ShrLow(n: nat, shift: nat)
    ensures n == Pow(2, shift) * Shr(n, shift) + Low(n, shift) && Low(n, shift) < Pow(2, shift)
    ensures Shr(n, shift) == 0 <==> n < Pow(2, shift)
    ensures n < 10 * Pow(2, shift) ==> Shr(n, shift) <= 9
  {
    var p, q := Pow(2, shift), Shr(n, shift);
    assert n == p * q + Low(n, shift);
    hide *;
    if q == 0 { assert p * q == 0; } else { Grows(q, p); }
    if q >= 10 { TimesAtMost(10, q, p); }
  }

  lemma TwoSixty()
    ensures Pow(2, MAX_SHIFT) == 0x1000_0000_0000_0000
  {
    assert MAX_SHIFT == 60;
    hide *;
    TwoToTen();
    PowAdd(2, 10, 10);
    PowAdd(2, 20, 20);
    PowAdd(2, 20, 40);
  }

  lemma TwoToTen()
    ensures Pow(2, 10) == 1024
  {}

  lemma WordBounds(shift: nat)
    requires shift <= MAX_SHIFT
    ensures 10 * Pow(2, shift) <= TWO_64
  {
    PowMonotone(2, shift, MAX_SHIFT);
    TwoSixty();
    hide *;
  }

  // ----- digits lost past the 768th -----

  /** Some digit of `w`, the last digits of `total`, lies past the 768th and is nonzero. */
  ghost predicate LostNonzero(w: seq<nat>, total: nat) {
    exists j :: 0 <= j < |w| && total - |w| + j >= MAX_DIGITS && w[j] != 0
  }

  lemma LostNone(w: seq<nat>, total: nat)
    requires w == [] || total <= MAX_DIGITS
    ensures !LostNonzero(w, total)
  {}

  lemma LostStep(d: nat, w: seq<nat>, total: nat)
    ensures LostNonzero([d] + w, total) <==> LostNonzero(w, total) || (total - |w| - 1 >= MAX_DIGITS && d != 0)
  {
    var v := [d] + w;
    forall j | 0 <= j < |w| ensures v[j + 1] == w[j] {}
    if LostNonzero(w, total) {
      var j :| 0 <= j < |w| && total - |w| + j >= MAX_DIGITS && w[j] != 0;
      assert v[j + 1] != 0;
    }
    if total - |w| - 1 >= MAX_DIGITS && d != 0 {
      assert v[0] != 0;
    }
    if LostNonzero(v, total) {
      var j :| 0 <= j < |v| && total - |v| + j >= MAX_DIGITS && v[j] != 0;
      if j > 0 { assert w[j - 1] != 0; }
    }
  }

  lemma LostAppend(out: seq<nat>, d: nat)
    ensures LostNonzero(out + [d], |out| + 1) <==> LostNonzero(out, |out|) || (|out| >= MAX_DIGITS && d != 0)
  {
    var v := out + [d];
    forall j | 0 <= j < |out| ensures v[j] == out[j] {}
    if LostNonzero(out, |out|) {
      var j :| 0 <= j < |out| && j >= MAX_DIGITS && out[j] != 0;
      assert v[j] != 0;
    }
    if |out| >= MAX_DIGITS && d != 0 { assert v[|out|] != 0; }
    if LostNonzero(v, |v|) {
      var j :| 0 <= j < |v| && j >= MAX_DIGITS && v[j] != 0;
      if j < |out| { assert out[j] != 0; }
    }
  }

  lemma LostAtEnd(w: seq<nat>, kept: nat)
    requires kept == if |w| > MAX_DIGITS then MAX_DIGITS else |w|
    ensures AllZero(w[kept..]) <==> !LostNonzero(w, |w|)
  {
    if |w| > MAX_DIGITS {
      var tl := w[MAX_DIGITS..];
      forall j | MAX_DIGITS <= j < |w| ensures w[j] == tl[j - MAX_DIGITS] {}
    }
  }

  // ----- left shift -----

  /** The digits `w` and the carry `n` to their left make up `rest` times 2^shift. */
  ghost predicate Carry(w: seq<nat>, n: nat, rest: seq<nat>, shift: nat) {
    ToNat(w) + n * Pow(10, |w|) == Shifted(ToNat(rest), shift)
  }

  lemma CarryDef(w: seq<nat>, n: nat, rest: seq<nat>, shift: nat)
    ensures Carry(w, n, rest, shift) <==> ToNat(w) + n * Pow(10, |w|) == ToNat(rest) * Pow(2, shift)
  {}

  lemma CarryStart(shift: nat)
    ensures Carry([], 0, [], shift)
  {}

  lemma ShiftBounds(n: nat, d: nat, shift: nat)
    requires n < Pow(2, shift) && d <= 9 && shift <= MAX_SHIFT
    ensures n + Shifted(d, shift) < TWO_64
    ensures (n + Shifted(d, shift)) / 10 < Pow(2, shift)
    ensures d > 0 ==> n + Shifted(d, shift) > 0
  {
    hide *;
    var p := Pow(2, shift);
    ShiftedDef(d, shift);
    WordBounds(shift);
    TimesAtMost(d, 9, p);
    if d > 0 { Grows(d, p); }
  }

  lemma CarryDigit(w: seq<nat>, n: nat, d: nat, rest: seq<nat>, shift: nat, t: nat)
    requires Carry(w, n, rest, shift) && |w| == |rest| && t == n + Shifted(d, shift)
    ensures Carry(w, t, [d] + rest, shift)
  {
    hide *;
    var z := ToNat([d] + rest);
    CarryDef(w, n, rest, shift);
    CarryDef(w, t, [d] + rest, shift);
    ShiftedDef(d, shift);
    ToNatPrepend(d, rest);
    CarryAlgebra(ToNat(w), n, Pow(10, |w|), ToNat(rest), Pow(2, shift), d, z, t);
  }

  lemma CarryAlgebra(x: nat, n: nat, p: nat, y: nat, two: nat, d: nat, z: nat, t: nat)
    requires x + n * p == y * two && z == d * p + y && t == n + d * two
    ensures x + t * p == z * two
  {
    assert (n + d * two) * p == n * p + (d * p) * two;
    assert (d * p + y) * two == (d * p) * two + y * two;
  }

  lemma CarrySplit(w: seq<nat>, n: nat, rest: seq<nat>, shift: nat)
    requires Carry(w, n, rest, shift)
    ensures Carry([n - 10 * (n / 10)] + w, n / 10, rest, shift)
  {
    hide *;
    var r, q := n - 10 * (n / 10), n / 10;
    CarryDef(w, n, rest, shift);
    CarryDef([r] + w, q, rest, shift);
    ToNatPrepend(r, w);
    PowStep(10, |w|);
    SplitAlgebra(n, r, q, Pow(10, |w|));
  }

  lemma SplitAlgebra(n: nat, r: nat, q: nat, p: nat)
    requires n == r + 10 * q
    ensures r * p + q * (10 * p) == n * p
  {}

  /** While the carry is nonzero there is still room for a digit. */
  lemma CarryRoom(w: seq<nat>, n: nat, ds: seq<nat>, shift: nat, total: nat)
    requires Carry(w, n, ds, shift) && n > 0 && HasDigits(Shifted(ToNat(ds), shift), total)
    ensures |w| < total
  {
    hide ToNat, Pow, Shifted;
    if |w| >= total {
      PowMonotone(10, total, |w|);
      Grows(n, Pow(10, |w|));
    }
  }

  lemma CarryEnd(w: seq<nat>, ds: seq<nat>, shift: nat, total: nat)
    requires Carry(w, 0, ds, shift) && HasDigits(Shifted(ToNat(ds), shift), total)
    requires AllDigits(w) && w != [] && w[0] != 0
    ensures |w| == total && ToNat(w) == Shifted(ToNat(ds), shift)
  {
    hide ToNat, Pow, Shifted;
    LengthFromValue(w, total);
  }

  /** Digits of the product, with the point moved by the digits added, denote the shifted value. */
  lemma ShiftedValue(ds: seq<nat>, w: seq<nat>, shift: nat, point: int, added: nat)
    requires |w| == |ds| + added && ToNat(w) == Shifted(ToNat(ds), shift)
    ensures Value(w, point + added) == Scaled(Value(ds, point), shift)
  {
    hide *;
    ShiftedDef(ToNat(ds), shift);
    ValueDef(w, point + added);
    ValueDef(ds, point);
    ScaledDef(Value(ds, point), shift);
    TwoOfNat(shift);
    ValueAlgebra(ToNat(ds), Pow(2, shift), ToNat(w), Ten(point - |ds|), Value(ds, point), Value(w, point + added));
  }

  lemma ValueAlgebra(x: nat, p: nat, z: nat, u: real, v: real, v': real)
    requires z == x * p && v == x as real * u && v' == z as real * u
    ensures v' == v * p as real
  {
    assert (x * p) as real == x as real * p as real;
  }

  // ----- right shift -----

  /** A right shift makes zero of any positive result below 10^-2048. */
  ghost predicate Underflows(x: real) {
    0.0 < x < Ten(0 - POINT_RANGE - 1)
  }

  lemma UnderflowDecade(x: real, point: int)
    requires Ten(point - 1) <= x < Ten(point)
    ensures Underflows(x) <==> point < -POINT_RANGE
  {
    if point < -POINT_RANGE {
      TenMonotone(point, 0 - POINT_RANGE - 1);
    } else {
      TenMonotone(0 - POINT_RANGE - 1, point - 1);
    }
  }

  /** Digit i of `ds` continued with zeros. */
  function DigitAt(ds: seq<nat>, i: nat): nat {
    if i < |ds| then ds[i] else 0
  }

  lemma DigitPast(ds: seq<nat>, i: nat)
    requires i >= |ds|
    ensures DigitAt(ds, i) == 0
  {}

  /** The first r digits of `ds` continued with zeros. */
  ghost function Padded(ds: seq<nat>, r: nat): seq<nat> {
    seq(r, i requires i >= 0 => DigitAt(ds, i))
  }

  lemma PaddedStart(ds: seq<nat>)
    ensures ToNat(Padded(ds, 0)) == 0
  {}

  lemma PaddedStep(ds: seq<nat>, r: nat)
    ensures ToNat(Padded(ds, r + 1)) == 10 * ToNat(Padded(ds, r)) + DigitAt(ds, r)
  {
    assert Padded(ds, r + 1) == Padded(ds, r) + [DigitAt(ds, r)];
    ToNatAppend(Padded(ds, r), DigitAt(ds, r));
  }

  lemma {:induction false} PaddedPast(ds: seq<nat>, extra: nat)
    ensures ToNat(Padded(ds, |ds| + extra)) == ToNat(ds) * Pow(10, extra)
  {
    if extra == 0 {
      assert Padded(ds, |ds|) == ds;
    } else {
      hide *;
      PaddedPast(ds, extra - 1);
      PaddedStep(ds, |ds| + extra - 1);
      PowStep(10, extra - 1);
      DigitPast(ds, |ds| + extra - 1);
      assert 10 * (ToNat(ds) * Pow(10, extra - 1)) == ToNat(ds) * (10 * Pow(10, extra - 1));
    }
  }

  ghost predicate TwoDivides(e: nat, n: nat) {
    n % Pow(2, e) == 0
  }

  lemma TwoDividesStart(n: nat)
    ensures TwoDivides(0, n) && Pow(10, 0) == 1
  {}

  lemma TwoDividesMultiple(e: nat, k: nat)
    ensures TwoDivides(e, Pow(2, e) * k)
  {
    MultipleOf(Pow(2, e), k);
  }

  lemma TwoDividesStep(e: nat, n: nat)
    requires TwoDivides(e, n)
    ensures TwoDivides(e + 1, 10 * n)
  {
    var p, k := Pow(2, e), n / Pow(2, e);
    assert n == p * k;
    assert 10 * n == (2 * p) * (5 * k);
    MultipleOf(2 * p, 5 * k);
  }

  lemma MultipleOf(p: nat, k: int)
    requires p > 0
    ensures (p * k) % p == 0
  {
    DivUnique(p * k, p, k, 0);
  }

  lemma DivUnique(x: int, p: nat, q: int, r: nat)
    requires x == p * q + r && r < p
    ensures x / p == q && x % p == r
  {
    var d := x / p - q;
    assert p * d + x % p == r;
    if d > 0 { TimesAtMost(1, d, p); }
    if d < 0 { TimesAtMost(d, -1, p); }
  }

  lemma PaddingBound(e: nat, n: nat, shift: nat)
    requires Pow(10, e) <= n < 10 * Pow(2, shift)
    ensures e <= shift
  {
    hide *;
    TenBeatsTwo(shift);
    if e > shift {
      PowMonotone(10, shift + 1, e);
    }
  }

  lemma TenBeatsTwo(shift: nat)
    ensures 10 * Pow(2, shift) <= Pow(10, shift + 1)
  {
    hide *;
    PowStep(10, shift);
    TenIsTwoFive(shift);
    Grows(Pow(5, shift), Pow(2, shift));
  }

  /** The drain loop gains a factor of two each turn, so it runs at most shift + 1 times. */
  lemma DrainStep(e: nat, n: nat, shift: nat)
    requires TwoDivides(e, n) && e <= shift
    ensures TwoDivides(e + 1, 10 * Low(n, shift))
    ensures e == shift ==> Low(n, shift) == 0
  {
    var p, h, k := Pow(2, e), Pow(2, shift - e), n / Pow(2, e);
    PowAdd(2, e, shift - e);
    assert n == p * k;
    assert Low(n, shift) == n % (p * h);
    assert e == shift ==> h == 1;
    hide *;
    LowOfMultiple(p, h, k);
    TwoDividesMultiple(e, k % h);
    TwoDividesStep(e, p * (k % h));
  }

  lemma LowOfMultiple(p: nat, h: nat, k: nat)
    requires p > 0 && h > 0
    ensures (p * k) % (p * h) == p * (k % h)
  {
    assert k == h * (k / h) + k % h;
    assert p * k == (p * h) * (k / h) + p * (k % h);
    TimesAtMost(k % h, h - 1, p);
    assert (h - 1) * p == p * h - p;
    DivUnique(p * k, p * h, k / h, p * (k % h));
  }

  /** Long division by 2^shift: quotient digits `out` and remainder `n`, one digit ahead, of the
      first `read` digits. */
  ghost predicate Quotient(out: seq<nat>, n: nat, ds: seq<nat>, shift: nat, read: nat) {
    10 * (Pow(2, shift) * ToNat(out)) + n == ToNat(Padded(ds, read))
  }

  lemma QuotientDef(out: seq<nat>, n: nat, ds: seq<nat>, shift: nat, read: nat)
    ensures Quotient(out, n, ds, shift, read) <==>
            10 * (Pow(2, shift) * ToNat(out)) + n == ToNat(Padded(ds, read))
  {}

  /** The first quotient digit is, or will be, nonzero. */
  ghost predicate Leads(out: seq<nat>, n: nat, shift: nat) {
    if out == [] then n >= Pow(2, shift) else out[0] != 0
  }

  lemma QuotientStart(n: nat, ds: seq<nat>, shift: nat, read: nat)
    requires n == ToNat(Padded(ds, read)) && n >= Pow(2, shift)
    ensures Quotient([], n, ds, shift, read) && Leads([], n, shift)
  {}

  lemma QuotientStep(out: seq<nat>, n: nat, ds: seq<nat>, shift: nat, read: nat)
    requires Quotient(out, n, ds, shift, read) && n < 10 * Pow(2, shift)
    requires Leads(out, n, shift)
    ensures Shr(n, shift) <= 9 && 10 * Low(n, shift) <= 10 * Pow(2, shift) - 10
    ensures Quotient(out + [Shr(n, shift)], 10 * Low(n, shift) + DigitAt(ds, read), ds, shift, read + 1)
    ensures Leads(out + [Shr(n, shift)], 10 * Low(n, shift) + DigitAt(ds, read), shift)
  {
    hide *;
    var q, m, d := Shr(n, shift), Low(n, shift), DigitAt(ds, read);
    ShrLow(n, shift);
    ToNatAppend(out, q);
    PaddedStep(ds, read);
    QuotientDef(out, n, ds, shift, read);
    QuotientDef(out + [q], 10 * m + d, ds, shift, read + 1);
    LeadsStep(out, n, q, 10 * m + d, shift);
    LongDivision(Pow(2, shift), ToNat(out), n, q, m, d);
  }

  lemma LongDivision(p: nat, t: nat, n: nat, q: nat, m: nat, d: nat)
    requires n == p * q + m
    ensures 10 * (p * (10 * t + q)) + (10 * m + d) == 10 * (10 * (p * t) + n) + d
  {}

  lemma LeadsStep(out: seq<nat>, n: nat, q: nat, n': nat, shift: nat)
    requires Leads(out, n, shift) && (q == 0 <==> n < Pow(2, shift))
    ensures Leads(out + [q], n', shift)
  {
    hide Pow;
  }

  lemma LeadsEnd(out: seq<nat>, shift: nat)
    requires Leads(out, 0, shift)
    ensures out != [] && out[0] != 0
  {}

  /** The digits read so far pin the number down to one unit of the last of them. */
  lemma PaddedValue(ds: seq<nat>, r: nat, point: int)
    requires AllDigits(ds)
    ensures var n := ToNat(Padded(ds, r)) as real;
            n * Ten(point - r) <= Value(ds, point) < n * Ten(point - r) + Ten(point - r)
  {
    hide Ten, ToNat, Value, Pow;
    if r < |ds| {
      assert Padded(ds, r) == ds[..r];
      ValueTake(ds, r, point);
      ValueDef(ds[..r], point);
    } else {
      PaddedScale(ds, r - |ds|, point);
    }
  }

  lemma PaddedScale(ds: seq<nat>, extra: nat, point: int)
    ensures Value(ds, point) == ToNat(Padded(ds, |ds| + extra)) as real * Ten(point - (|ds| + extra))
  {
    hide *;
    ValueDef(ds, point);
    PaddedPast(ds, extra);
    TenOfNat(extra);
    TenAdd(point - (|ds| + extra), extra);
    ScaleAlgebra(ToNat(ds), Pow(10, extra), ToNat(Padded(ds, |ds| + extra)), Ten(point - (|ds| + extra)), Ten(point - |ds|));
  }

  lemma ScaleAlgebra(x: nat, p: nat, z: nat, u: real, v: real)
    requires z == x * p && v == u * p as real
    ensures x as real * v == z as real * u
  {
    assert (x * p) as real == x as real * p as real;
  }

  /** The position of the first nonzero quotient digit fixes the decade of the quotient. */
  lemma QuotientDecade(ds: seq<nat>, r: nat, n: nat, shift: nat, point: int, x: real)
    requires AllDigits(ds) && n == ToNat(Padded(ds, r)) && Pow(2, shift) <= n < 10 * Pow(2, shift)
    requires x == Scaled(Value(ds, point), 0 - shift)
    ensures Ten(point - r) <= x < Ten(point - r + 1)
  {
    hide *;
    PaddedValue(ds, r, point);
    TenStep(point - r);
    TwoOfNat(shift);
    TwoInverse(shift);
    ScaledDef(Value(ds, point), 0 - shift);
    DecadeOfQuotient(n, Pow(2, shift), Ten(point - r), Two(0 - shift), Value(ds, point), x);
  }

  lemma DecadeOfQuotient(n: nat, p: nat, u: real, t: real, v: real, x: real)
    requires p <= n < 10 * p && u > 0.0 && t > 0.0 && t * p as real == 1.0
    requires n as real * u <= v < n as real * u + u && x == v * t
    ensures u <= x < 10.0 * u
  {
    var n', p' := n as real, p as real;
    TimesAtMostReal(p', n', u);
    TimesAtMostReal(n' + 1.0, 10.0 * p', u);
    DivideBack(p' * u, v, (10.0 * p') * u, p', u, t);
  }

  lemma DivideBack(lo: real, v: real, hi: real, p: real, u: real, t: real)
    requires lo == p * u && hi == (10.0 * p) * u && t > 0.0 && t * p == 1.0
    requires lo <= v < hi
    ensures u <= v * t < 10.0 * u
  {
    assert lo * t == u * (t * p);
    assert hi * t == (10.0 * u) * (t * p);
    TimesOrder(v, hi, t);
    TimesAtMostReal(lo, v, t);
  }

  /** When the remainder has run out, the quotient digits denote the number divided by 2^shift. */
  lemma QuotientValue(ds: seq<nat>, out: seq<nat>, shift: nat, point: int, r0: nat, read: nat)
    requires Quotient(out, 0, ds, shift, read) && read >= |ds| && |out| + r0 == read
    ensures Value(out, point - (r0 - 1)) == Scaled(Value(ds, point), 0 - shift)
  {
    hide *;
    QuotientDef(out, 0, ds, shift, read);
    PaddedScale(ds, read - |ds|, point);
    ValueDef(out, point - (r0 - 1));
    TenStep(point - read);
    TwoOfNat(shift);
    TwoInverse(shift);
    ScaledDef(Value(ds, point), 0 - shift);
    QuotientAlgebra(ToNat(out), Pow(2, shift), ToNat(Padded(ds, read)), Ten(point - read), Two(0 - shift),
                    Value(ds, point), Ten(point - read + 1));
  }

  lemma QuotientAlgebra(q: nat, p: nat, z: nat, u: real, t: real, v: real, u10: real)
    requires z == 10 * (p * q) && v == z as real * u && u10 == 10.0 * u && t * p as real == 1.0
    ensures q as real * u10 == v * t
  {
    var q', p' := q as real, p as real;
    assert (p * q) as real == p' * q';
    assert v == (10.0 * (p' * q')) * u;
    assert v * t == (q' * (10.0 * u)) * (t * p');
  }
}
