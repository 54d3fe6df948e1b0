/** The mutable 768-digit decimal: trimming, and its shifts by powers of two in place. */
module DecimalNumber {
  import opened Powers
  import opened Digits
  import opened DecimalShift
  import opened DecimalSteps
  import opened Rounding

  class Decimal {
    var numDigits: nat
    var point: int
    var negative: bool
    var truncated: bool
    const digits: array<nat>

    constructor ()
      ensures fresh(digits) && digits.Length == MAX_DIGITS
      ensures numDigits == 0 && point == 0 && !negative && !truncated
    {
      digits := new nat[MAX_DIGITS];
      numDigits, point, negative, truncated := 0, 0, false, false;
    }

    ghost predicate Valid()
      reads this, digits
    {
      digits.Length == MAX_DIGITS && numDigits <= MAX_DIGITS && AllDigits(digits[..numDigits])
    }

    /** The significant digits. */
    ghost function Ds(): seq<nat>
      requires Valid()
      reads this, digits
    {
      digits[..numDigits]
    }

    /** The number held, 0.d1 d2 ... dn x 10^point. */
    ghost function Val(): real
      requires Valid()
      reads this, digits
    {
      Value(Ds(), point)
    }

    /** No leading zero digit. */
    ghost predicate Normal()
      requires Valid()
      reads this, digits
    {
      numDigits > 0 ==> digits[0] != 0
    }

    /** No trailing zero digit. */
    ghost predicate Trimmed()
      requires Valid()
      reads this, digits
    {
      numDigits > 0 ==> digits[numDigits - 1] != 0
    }

    /** Removes final zeros; the number held stays the same. */
    method Trim()
      requires Valid()
      modifies this`numDigits
      ensures Valid() && Trimmed() && Val() == old(Val())
      ensures numDigits <= old(numDigits)
      ensures old(Normal()) ==> Normal() && (old(numDigits) > 0 ==> numDigits > 0)
    {
      while numDigits > 0 && digits[numDigits - 1] == 0
        invariant Valid() && numDigits <= old(numDigits) && Val() == old(Val())
        invariant old(Normal()) && old(numDigits) > 0 ==> numDigits > 0
      {
        ghost var before := Ds();
        numDigits := numDigits - 1;
        assert Ds() == before[..numDigits];
        ValueTake(before, numDigits, point);
      }
    }

    /** The number of digits by which a left shift lengthens the decimal. */
    method NumberOfNewDigits(shift: nat) returns (r: nat)
      requires Valid() && Normal() && numDigits > 0 && shift <= MAX_SHIFT
      ensures HasDigits(Shifted(ToNat(Ds()), shift), numDigits + r)
    {
      hide Shifted, ToNat, Pow, DigitsOf, HasDigits;
      var five := PowerOfFiveDigits(shift);
      var candidate := CandidateNewDigits(shift);
      ghost var ds := Ds();
      if shift > 0 { NewDigitsExact(ds, shift); } else { NoShift(ds); }
      var i := 0;
      while i < |five|
        invariant 0 <= i <= |five| && i <= numDigits && ds[..i] == five[..i]
      {
        if i >= numDigits {
          ShortPrefix(ds, shift);
          return candidate - 1;
        } else if digits[i] == five[i] {
          i := i + 1;
        } else if digits[i] < five[i] {
          FractionOrder(five, ds, i);
          return candidate - 1;
        } else {
          FractionOrder(ds, five, i);
          return candidate;
        }
      }
      FractionExtends(ds, five);
      return candidate;
    }

    /** Multiplies the decimal by 2^shift in place, from the last digit to the first. Digits past
        the 768th are dropped, and `truncated` records whether any of them was nonzero. */
    method LeftShift(shift: nat)
      requires Valid() && Normal() && shift <= MAX_SHIFT
      modifies this, digits
      ensures Valid() && Normal() && Trimmed()
      ensures numDigits > 0 <==> old(numDigits) > 0
      ensures Val() <= Scaled(old(Val()), shift) < Val() + Ten(point - MAX_DIGITS)
      ensures truncated <==> old(truncated) || Val() != Scaled(old(Val()), shift)
      ensures negative == old(negative)
    {
      hide ToNat, Pow, Ten, Scaled, Value, HasDigits, Shifted, LostNonzero;
      if numDigits == 0 {
        ZeroValue(Ds(), point);
        ScaledOfZero(shift);
        assert Ten(point - MAX_DIGITS) > 0.0;
        return;
      }
      var newDigits := NumberOfNewDigits(shift);
      ghost var ds, before := Ds(), truncated;
      ghost var w := ShiftDigitsLeft(shift, newDigits);
      ShiftedValue(ds, w, shift, point, newDigits);
      numDigits := numDigits + newDigits;
      if numDigits > MAX_DIGITS {
        numDigits := MAX_DIGITS;
      }
      point := point + newDigits;
      Settle(w, before);
    }

    /** The two loops of the left shift. Returns every digit of the product. */
    method ShiftDigitsLeft(shift: nat, newDigits: nat) returns (ghost w: seq<nat>)
      requires Valid() && Normal() && numDigits > 0 && shift <= MAX_SHIFT
      requires HasDigits(Shifted(ToNat(Ds()), shift), numDigits + newDigits)
      modifies this`truncated, digits
      ensures |w| == numDigits + newDigits && w[0] != 0 && Wrote(w, |w|, old(truncated))
      ensures ToNat(w) == Shifted(old(ToNat(Ds())), shift)
    {
      hide ToNat, Pow, Carry, Shifted, LostNonzero, HasDigits;
      ghost var ds, total, before := Ds(), numDigits + newDigits, truncated;
      var n: nat, writeIndex: nat;
      n, writeIndex, w := ShiftStoredDigits(shift, newDigits);
      while n > 0
        invariant w != [] && |w| <= total && writeIndex == Index(total - 1 - |w|)
        invariant n > 0 || w[0] != 0
        invariant Carry(w, n, ds, shift)
        invariant Wrote(w, total, before)
      {
        CarryRoom(w, n, ds, shift, total);
        var quotient := n / 10;
        var remainder := n - 10 * quotient;
        CarrySplit(w, n, ds, shift);
        StoreDigit(writeIndex, remainder, w, total, before);
        w := [remainder] + w;
        n := quotient;
        writeIndex := Previous(writeIndex);
        IndexStep(total - |w|);
      }
      CarryEnd(w, ds, shift, total);
    }

    /** The first loop: multiplies the stored digits, last to first, over the old ones. */
    method ShiftStoredDigits(shift: nat, newDigits: nat) returns (n: nat, writeIndex: nat, ghost w: seq<nat>)
      requires Valid() && Normal() && numDigits > 0 && shift <= MAX_SHIFT
      modifies this`truncated, digits
      ensures w != [] && |w| <= numDigits + newDigits && (n > 0 || w[0] != 0)
      ensures writeIndex == Index(numDigits + newDigits - 1 - |w|)
      ensures Carry(w, n, old(Ds()), shift)
      ensures Wrote(w, numDigits + newDigits, old(truncated))
    {
      hide ToNat, Pow, Carry, Shifted, LostNonzero;
      ghost var ds, total, before := Ds(), numDigits + newDigits, truncated;
      var readIndex: int := numDigits - 1;
      writeIndex := numDigits - 1 + newDigits;
      n := 0;
      w := [];
      CarryStart(shift);
      assert ds[numDigits..] == [];
      LostNone([], total);
      while readIndex >= 0
        invariant -1 <= readIndex < numDigits && |w| == numDigits - 1 - readIndex
        invariant writeIndex == Index(total - 1 - |w|)
        invariant n < Pow(2, shift) && (readIndex == -1 ==> n > 0 || w[0] != 0)
        invariant Carry(w, n, ds[readIndex + 1..], shift)
        invariant digits[..readIndex + 1] == ds[..readIndex + 1]
        invariant Wrote(w, total, before)
      {
        var d := digits[readIndex];
        assert d == ds[readIndex];
        assert [d] + ds[readIndex + 1..] == ds[readIndex..];
        ShiftBounds(n, d, shift);
        CarryDigit(w, n, d, ds[readIndex + 1..], shift, n + Shifted(d, shift));
        n := n + Shifted(d, shift);
        assert n < TWO_64;
        var quotient := n / 10;
        var remainder := n - 10 * quotient;
        CarrySplit(w, n, ds[readIndex..], shift);
        StoreDigit(writeIndex, remainder, w, total, before);
        w := [remainder] + w;
        n := quotient;
        writeIndex := Previous(writeIndex);
        readIndex := readIndex - 1;
      }
      assert ds[0..] == ds;
    }

    /** The part of the output written so far: `w` holds the last digits of `total`, those past
        the 768th are gone, and `truncated` tells whether one of them was nonzero. */
    ghost predicate Wrote(w: seq<nat>, total: nat, before: bool)
      requires digits.Length == MAX_DIGITS
      reads this, digits
    {
      && |w| <= total && AllDigits(w)
      && (forall j :: total - |w| <= j < total && j < MAX_DIGITS ==> digits[j] == w[j - (total - |w|)])
      && (truncated <==> before || LostNonzero(w, total))
    }

    /** One digit of output: kept while it fits, otherwise only remembered if it is nonzero. */
    method StoreDigit(writeIndex: nat, digit: nat, ghost w: seq<nat>, ghost total: nat, ghost before: bool)
      requires digits.Length == MAX_DIGITS && digit <= 9
      requires |w| < total && writeIndex == total - 1 - |w| && Wrote(w, total, before)
      modifies this`truncated, digits
      ensures Wrote([digit] + w, total, before)
      ensures forall j :: 0 <= j < writeIndex && j < MAX_DIGITS ==> digits[j] == old(digits[j])
    {
      LostStep(digit, w, total);
      if writeIndex < MAX_DIGITS {
        digits[writeIndex] := digit;
      } else if digit > 0 {
        truncated := true;
      }
    }

    /** The common end of both shifts: the first 768 digits of the result `w` are in place. */
    method Settle(ghost w: seq<nat>, ghost before: bool)
      requires digits.Length == MAX_DIGITS && AllDigits(w) && w != [] && w[0] != 0
      requires numDigits == (if |w| <= MAX_DIGITS then |w| else MAX_DIGITS) && digits[..numDigits] == w[..numDigits]
      requires truncated <==> before || LostNonzero(w, |w|)
      modifies this`numDigits
      ensures Valid() && Normal() && Trimmed() && 0 < numDigits <= |w|
      ensures Val() <= Value(w, point) < Val() + Ten(point - MAX_DIGITS)
      ensures truncated <==> before || Val() != Value(w, point)
    {
      hide Ten, Value, LostNonzero;
      assert Ds() == w[..numDigits];
      ValueTake(w, numDigits, point);
      LostAtEnd(w, numDigits);
      if |w| <= MAX_DIGITS {
        assert w[..numDigits] == w;
        assert Ten(point - MAX_DIGITS) > 0.0;
      }
      Trim();
    }

    /** The number, read as an exact `y` whose halves it tracks, rounded to an integer. */
    method Round(ghost y: real) returns (n: nat)
      requires Valid() && Normal() && Trimmed()
      requires Tracks(Val(), y, -1) && (truncated <==> Val() != y)
      ensures numDigits > 0 && point > 18 ==> n == TWO_64 - 1
      ensures numDigits == 0 || point <= 18 ==> NearestEven(y, n)
    {
      hide Tracks, ToNat, Padded, Value, Pow, Ten, NearestEven;
      ghost var ds := Ds();
      if numDigits == 0 || point < 0 {
        SmallNumber(ds, point, y);
        return 0;
      } else if point > 18 {
        return TWO_64 - 1;
      }
      var dp: nat := point;
      n := 0;
      PaddedStart(ds);
      PowZero(10);
      for i := 0 to dp
        invariant n == ToNat(Padded(ds, i)) && n < Pow(10, i)
      {
        PaddedStep(ds, i);
        PowStep(10, i);
        PowMonotone(10, i + 1, 18);
        TenToEighteen();
        n := 10 * n + (if i < numDigits then digits[i] else 0);
        assert n < TWO_64;
      }
      WholePart(ds, dp, n);
      var roundUp := false;
      if dp < numDigits {
        DigitDecision(ds, dp, n);
        roundUp := digits[dp] >= 5;
        if digits[dp] == 5 && dp + 1 == numDigits {
          roundUp := truncated || (dp > 0 && digits[dp - 1] % 2 == 1);
          if dp > 0 { LastParity(ds[..dp]); } else { PaddedStart(ds); }
        }
      }
      RoundDecision(Val(), y, n, roundUp);
      if roundUp {
        n := n + 1;
      }
    }

    /** Divides the decimal by 2^shift in place, from the first digit to the last. Digits past the
        768th are dropped, and `truncated` records whether any of them was nonzero. A result below
        10^-2048 becomes zero. */
    method RightShift(shift: nat)
      requires Valid() && Normal() && shift <= MAX_SHIFT
      modifies this, digits
      ensures Valid() && Normal() && Trimmed()
      ensures Underflows(Scaled(old(Val()), 0 - shift)) ==>
                numDigits == 0 && point == 0 && !truncated && !negative
      ensures !Underflows(Scaled(old(Val()), 0 - shift)) ==>
                && (numDigits > 0 <==> old(numDigits) > 0)
                && Val() <= Scaled(old(Val()), 0 - shift) < Val() + Ten(point - MAX_DIGITS)
                && (truncated <==> old(truncated) || Val() != Scaled(old(Val()), 0 - shift))
                && negative == old(negative)
    {
      hide ToNat, Pow, Ten, Scaled, Value, LostNonzero, Underflows, Padded, TwoDivides, Quotient;
      ghost var ds, before, x := Ds(), truncated, Scaled(Val(), 0 - shift);
      var n, readIndex := ReadLeading(shift);
      if n == 0 {
        ZeroCase(ds, point, shift);
        return;
      }
      QuotientDecade(ds, readIndex, n, shift, point, x);
      point := point - (readIndex - 1);
      UnderflowDecade(x, point);
      if point < -POINT_RANGE {
        numDigits := 0;
        point := 0;
        negative := false;
        truncated := false;
        return;
      }
      var writeIndex: nat;
      ghost var out, read;
      writeIndex, out, read := EmitQuotient(shift, n, readIndex);
      QuotientValue(ds, out, shift, old(point), readIndex, read);
      numDigits := writeIndex;
      Settle(out, before);
    }

    /** The first loop: reads digits, then virtual zeros, until the quotient has a nonzero digit. */
    method ReadLeading(shift: nat) returns (n: nat, readIndex: nat)
      requires Valid() && Normal() && shift <= MAX_SHIFT
      ensures n == 0 <==> numDigits == 0
      ensures n == ToNat(Padded(Ds(), readIndex))
      ensures n > 0 ==> readIndex > 0 && Pow(2, shift) <= n < 10 * Pow(2, shift)
      ensures readIndex > numDigits && n > 0 ==> TwoDivides(readIndex - numDigits, n) && readIndex - numDigits <= shift
    {
      hide Pow, ToNat, TwoDivides, Padded, Shr, Low;
      ghost var ds := Ds();
      readIndex, n := 0, 0;
      PaddedStart(ds);
      WordBounds(shift);
      while Shr(n, shift) == 0
        invariant readIndex <= numDigits && n == ToNat(Padded(ds, readIndex)) && n < 10 * Pow(2, shift)
        invariant (n == 0 <==> readIndex == 0)
        decreases numDigits - readIndex
      {
        PaddedStep(ds, readIndex);
        ShrLow(n, shift);
        if readIndex < numDigits {
          if readIndex == 0 { assert digits[0] != 0; }
          assert digits[readIndex] <= 9;
          n := 10 * n + digits[readIndex];
          assert n < TWO_64;
          readIndex := readIndex + 1;
        } else if n == 0 {
          return;
        } else {
          TwoDividesStart(n);
          while Shr(n, shift) == 0
            invariant readIndex >= numDigits && n == ToNat(Padded(ds, readIndex)) && 0 < n < 10 * Pow(2, shift)
            invariant TwoDivides(readIndex - numDigits, n) && Pow(10, readIndex - numDigits) <= n
            decreases Pow(2, shift) - n
          {
            PaddedStep(ds, readIndex);
            ShrLow(n, shift);
            TwoDividesStep(readIndex - numDigits, n);
            PowStep(10, readIndex - numDigits);
            n := 10 * n;
            assert n < TWO_64;
            readIndex := readIndex + 1;
          }
          PaddingBound(readIndex - numDigits, n, shift);
          break;
        }
      }
      ShrLow(n, shift);
    }

    /** The second and third loop: emit quotient digits while stored digits remain, then drain. */
    method EmitQuotient(shift: nat, n0: nat, readIndex0: nat) returns (writeIndex: nat, ghost out: seq<nat>, ghost read: nat)
      requires Valid() && numDigits > 0 && shift <= MAX_SHIFT && readIndex0 > 0
      requires n0 == ToNat(Padded(Ds(), readIndex0)) && Pow(2, shift) <= n0 < 10 * Pow(2, shift)
      requires readIndex0 > numDigits ==> TwoDivides(readIndex0 - numDigits, n0) && readIndex0 - numDigits <= shift
      modifies this`truncated, digits
      ensures AllDigits(out) && out != [] && out[0] != 0
      ensures writeIndex == (if |out| <= MAX_DIGITS then |out| else MAX_DIGITS)
      ensures digits[..writeIndex] == out[..writeIndex]
      ensures truncated <==> old(truncated) || LostNonzero(out, |out|)
      ensures numDigits <= read <= numDigits + shift + 1 && |out| == read - readIndex0
      ensures Quotient(out, 0, old(Ds()), shift, read)
    {
      hide Pow, ToNat, TwoDivides, Quotient, LostNonzero, Padded, Shr, Low, Leads;
      ghost var ds := Ds();
      var n: nat;
      n, writeIndex, read := EmitStored(shift, n0, readIndex0);
      out := digits[..writeIndex];
      WordBounds(shift);
      LostNone(out, |out|);
      if read == numDigits { TwoDividesStart(n); }
      while n > 0
        invariant numDigits <= read <= numDigits + shift + 1 && |out| == read - readIndex0
        invariant n < 10 * Pow(2, shift) && AllDigits(out) && Leads(out, n, shift)
        invariant Quotient(out, n, ds, shift, read)
        invariant TwoDivides(read - numDigits, n) && (read - numDigits == shift + 1 ==> n == 0)
        invariant writeIndex == if |out| <= MAX_DIGITS then |out| else MAX_DIGITS
        invariant digits[..writeIndex] == out[..writeIndex]
        invariant truncated <==> old(truncated) || LostNonzero(out, |out|)
        decreases numDigits + shift + 1 - read
      {
        QuotientStep(out, n, ds, shift, read);
        DigitPast(ds, read);
        LostAppend(out, Shr(n, shift));
        DrainStep(read - numDigits, n, shift);
        var newDigit := Shr(n, shift);
        n := 10 * Low(n, shift);
        assert n < TWO_64;
        if writeIndex < MAX_DIGITS {
          digits[writeIndex] := newDigit;
          writeIndex := writeIndex + 1;
        } else if newDigit > 0 {
          truncated := true;
        }
        out := out + [newDigit];
        read := read + 1;
      }
      LeadsEnd(out, shift);
    }

    /** The second loop: one quotient digit out for each stored digit in, over the digits already read. */
    method EmitStored(shift: nat, n0: nat, readIndex0: nat) returns (n: nat, writeIndex: nat, readIndex: nat)
      requires Valid() && numDigits > 0 && shift <= MAX_SHIFT && readIndex0 > 0
      requires n0 == ToNat(Padded(Ds(), readIndex0)) && Pow(2, shift) <= n0 < 10 * Pow(2, shift)
      modifies digits
      ensures numDigits <= readIndex && writeIndex == readIndex - readIndex0 && writeIndex < MAX_DIGITS
      ensures if readIndex0 > numDigits then readIndex == readIndex0 && n == n0 else readIndex == numDigits
      ensures n < 10 * Pow(2, shift) && AllDigits(digits[..writeIndex]) && Leads(digits[..writeIndex], n, shift)
      ensures Quotient(digits[..writeIndex], n, old(Ds()), shift, readIndex)
    {
      hide Pow, ToNat, Quotient, Padded, Shr, Low, Leads;
      ghost var ds := Ds();
      n, readIndex, writeIndex := n0, readIndex0, 0;
      WordBounds(shift);
      QuotientStart(n, ds, shift, readIndex);
      assert digits[..0] == [];
      while readIndex < numDigits
        invariant readIndex0 <= readIndex && writeIndex == readIndex - readIndex0 && writeIndex < MAX_DIGITS
        invariant if readIndex0 > numDigits then readIndex == readIndex0 && n == n0 else readIndex <= numDigits
        invariant n < 10 * Pow(2, shift) && AllDigits(digits[..writeIndex]) && Leads(digits[..writeIndex], n, shift)
        invariant Quotient(digits[..writeIndex], n, ds, shift, readIndex)
        invariant forall j :: readIndex <= j < numDigits ==> digits[j] == ds[j]
      {
        ghost var out := digits[..writeIndex];
        assert digits[readIndex] == ds[readIndex] == DigitAt(ds, readIndex) <= 9;
        QuotientStep(out, n, ds, shift, readIndex);
        var newDigit := Shr(n, shift);
        n := 10 * Low(n, shift) + digits[readIndex];
        assert n < TWO_64;
        readIndex := readIndex + 1;
        digits[writeIndex] := newDigit;
        writeIndex := writeIndex + 1;
        assert digits[..writeIndex] == out + [newDigit];
      }
    }
  }

  /** The padded digits before the point are the whole part of the number. */
  lemma WholePart(ds: seq<nat>, point: nat, f: nat)
    requires f == ToNat(Padded(ds, point))
    ensures point < |ds| ==> f == ToNat(ds[..point])
    ensures point >= |ds| ==> Value(ds, point) == f as real
  {
    if point < |ds| {
      assert Padded(ds, point) == ds[..point];
    } else {
      PaddedPast(ds, point - |ds|);
      WholeNumber(ds, point);
    }
  }

  lemma SmallNumber(ds: seq<nat>, point: int, y: real)
    requires AllDigits(ds) && (ds != [] ==> ds[0] != 0 && point < 0) && Tracks(Value(ds, point), y, -1)
    ensures NearestEven(y, 0)
  {
    if ds == [] {
      ZeroValue(ds, point);
    } else {
      ValueDecade(ds, point);
      TenMonotone(point, -1);
      assert Ten(-1) == Ten(0) / 10.0;
    }
    RoundDecision(Value(ds, point), y, 0, false);
  }

  lemma TenToEighteen()
    ensures Pow(10, 18) == 1_000_000_000_000_000_000
  {
    assert Pow(10, 6) == 1_000_000;
    PowAdd(10, 6, 6);
    PowAdd(10, 6, 12);
  }

  lemma LastParity(ds: seq<nat>)
    requires ds != []
    ensures ToNat(ds) % 2 == ds[|ds| - 1] % 2
  {}

  lemma NoShift(ds: seq<nat>)
    requires AllDigits(ds) && ds != [] && ds[0] != 0
    ensures HasDigits(Shifted(ToNat(ds), 0), |ds|)
  {
    ToNatBound(ds);
    ToNatLeading(ds);
  }

  lemma ZeroValue(ds: seq<nat>, point: int)
    requires ds == []
    ensures Value(ds, point) == 0.0
  {}

  lemma ZeroCase(ds: seq<nat>, point: int, shift: nat)
    requires ds == []
    ensures Scaled(Value(ds, point), 0 - shift) == Value(ds, point) == 0.0 < Ten(point - MAX_DIGITS)
    ensures !Underflows(0.0)
  {}

  /** A proper prefix of the digits of 5^shift is smaller, since 5^shift ends in a nonzero digit. */
  lemma ShortPrefix(a: seq<nat>, shift: nat)
    requires shift > 0 && a <= PowerOfFiveDigits(shift) && |a| < |PowerOfFiveDigits(shift)|
    ensures !FractionAtLeast(a, PowerOfFiveDigits(shift))
  {
    var five := PowerOfFiveDigits(shift);
    FiveEndsOdd(shift);
    var rest := five[|a|..];
    ToNatZero(rest);
    assert rest[|rest| - 1] == five[|five| - 1];
    FractionPrefix(a, five);
  }

  lemma FiveEndsOdd(shift: nat)
    requires shift > 0
    ensures var five := PowerOfFiveDigits(shift); five != [] && five[|five| - 1] != 0
  {
    var x := Pow(5, shift);
    PowOdd(shift);
    assert PowerOfFiveDigits(shift) == DigitsOf(x) == DigitsOf(x / 10) + [x % 10];
  }

  lemma {:induction false} PowOdd(e: nat)
    ensures Pow(5, e) % 2 == 1
  {
    if e > 0 {
      PowOdd(e - 1);
      var h := Pow(5, e - 1) / 2;
      assert Pow(5, e) == 2 * (5 * h + 2) + 1;
    }
  }
}
