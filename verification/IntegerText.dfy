/** Integers read from text with saturation, in wrapping machine words, and written back. */
module IntegerText {
  import opened Wrappers
  import opened Powers
  import opened XmlText

  predicate IsWidth(w: nat) {
    w == 16 || w == 32 || w == 64
  }

  /** One more than the largest word. */
  function Modulus(w: nat): nat
    requires IsWidth(w)
  {
    if w == 16 then 0x1_0000 else if w == 32 then 0x1_0000_0000 else 0x1_0000_0000_0000_0000
  }

  /** A value from -2^(w-1) to 2^w - 1 as a word. */
  function Word(x: int, w: nat): nat
    requires IsWidth(w) && 0 - Modulus(w) / 2 <= x < Modulus(w)
  {
    if x < 0 then x + Modulus(w) else x
  }

  // ----- the value of a text -----

  /** The length of the run of digits that t begins with. */
  function RunLength(t: string, base: nat): (n: nat)
    ensures n <= |t| && (forall i :: 0 <= i < n ==> Digit(t[i], base).Some?)
    ensures n < |t| ==> Digit(t[n], base).None?
  {
    if t != "" && Digit(t[0], base).Some? then 1 + RunLength(t[1..], base) else 0
  }

  ghost predicate AllDigits(t: string, base: nat, n: nat) {
    n <= |t| && forall i :: 0 <= i < n ==> Digit(t[i], base).Some?
  }

  /** The number that the first n digits write. */
  ghost function Value(t: string, base: nat, n: nat): nat
    requires AllDigits(t, base, n)
  {
    if n == 0 then 0 else base * Value(t, base, n - 1) + Digit(t[n - 1], base).value
  }

  ghost function RunValue(t: string, base: nat): nat {
    Value(t, base, RunLength(t, base))
  }

  function SkipSpaces(t: string): string {
    if t != "" && IsSpace(t[0]) then SkipSpaces(t[1..]) else t
  }

  function SkipSign(t: string): string {
    if t != "" && (t[0] == '-' || t[0] == '+') then t[1..] else t
  }

  predicate IsHex(t: string) {
    Peek(t, 0) == '0' && (Peek(t, 1) == 'x' || Peek(t, 1) == 'X')
  }

  ghost function Magnitude(t: string): nat {
    if IsHex(t) then RunValue(t[2..], 16) else RunValue(t, 10)
  }

  /** White space, a sign, and decimal or hexadecimal digits; nothing is worth 0. */
  ghost function TextValue(t: string): int {
    var s := SkipSpaces(t);
    var m: int := Magnitude(SkipSign(s));
    if Peek(s, 0) == '-' then 0 - m else m
  }

  const BLANKS: string := " \t\r\n"

  /** The parts of a text: blanks, a sign, the mark of a hexadecimal number, digits, and what does not belong to it. */
  datatype Parts = Parts(blanks: string, sign: string, mark: string, digits: string, rest: string)

  ghost function Whole(p: Parts): string {
    p.blanks + (p.sign + (p.mark + (p.digits + p.rest)))
  }

  ghost function Base(p: Parts): nat {
    if p.mark == "" then 10 else 16
  }

  ghost predicate GoodParts(p: Parts) {
    && (forall i :: 0 <= i < |p.blanks| ==> p.blanks[i] in BLANKS)
    && p.sign in {"", "-", "+"} && p.mark in {"", "0x", "0X"}
    && AllDigits(p.digits, Base(p), |p.digits|)
    && (p.rest != "" ==> Digit(p.rest[0], Base(p)).None?)
    && (p.mark == "" ==> !("0x" <= p.digits + p.rest) && !("0X" <= p.digits + p.rest))
    && (p.sign + p.mark + p.digits == "" && p.rest != "" ==> p.rest[0] !in BLANKS && p.rest[0] !in {'-', '+'})
  }

  lemma BlankMeans(c: char)
    ensures IsSpace(c) <==> c in BLANKS
  {
    if IsSpace(c) {
      assert c == BLANKS[0] || c == BLANKS[1] || c == BLANKS[2] || c == BLANKS[3];
    }
  }

  lemma {:induction false} SkipBlanks(b: string, t: string)
    requires forall i :: 0 <= i < |b| ==> b[i] in BLANKS
    ensures SkipSpaces(b + t) == SkipSpaces(t)
  {
    if b == "" {
      assert b + t == t;
    } else {
      BlankMeans(b[0]);
      assert (b + t)[1..] == b[1..] + t;
      SkipBlanks(b[1..], t);
    }
  }

  lemma DigitsFirst(d: string, r: string, base: nat)
    requires AllDigits(d, base, |d|) && (r != "" ==> Digit(r[0], base).None?)
    ensures RunValue(d + r, base) == Value(d, base, |d|)
  {
    hide Digit;
    RunIs(d + r, base, |d|);
    ValueOfPrefix(d, r, base, |d|);
  }

  lemma {:induction false} ValueOfPrefix(d: string, r: string, base: nat, n: nat)
    requires AllDigits(d, base, n)
    ensures AllDigits(d + r, base, n) && Value(d + r, base, n) == Value(d, base, n)
  {
    if n > 0 { ValueOfPrefix(d, r, base, n - 1); }
  }

  lemma DigitIsPlain(c: char, base: nat)
    requires Digit(c, base).Some?
    ensures c !in BLANKS && !IsSpace(c) && c != '-' && c != '+' && c != 'x' && c != 'X'
  {}

  /** Without a sign, the number itself begins neither with a blank nor with a sign. */
  lemma HeadOf(p: Parts, number: string)
    requires GoodParts(p) && number == p.mark + (p.digits + p.rest) && number != "" && p.sign == ""
    ensures number[0] !in BLANKS && number[0] != '-' && number[0] != '+'
  {
    hide Digit;
    if p.mark != "" {
      assert number[0] == '0';
    } else if p.digits != "" {
      assert number[0] == p.digits[0];
      DigitIsPlain(p.digits[0], Base(p));
    } else {
      assert number == p.rest;
    }
  }

  lemma SignTells(p: Parts, number: string)
    requires GoodParts(p) && number == p.mark + (p.digits + p.rest)
    ensures var s := p.sign + number; SkipSpaces(s) == s && SkipSign(s) == number && (Peek(s, 0) == '-' <==> p.sign == "-")
  {
    hide GoodParts;
    var s := p.sign + number;
    SignIs(p);
    if p.sign == "" {
      assert s == number;
      if s != "" {
        HeadOf(p, number);
        BlankMeans(s[0]);
      }
    } else {
      assert s[0] == p.sign[0] && s[1..] == number;
    }
  }

  lemma SignIs(p: Parts)
    requires GoodParts(p)
    ensures p.sign in {"", "-", "+"} && p.mark in {"", "0x", "0X"}
    ensures p.mark == "" ==> !("0x" <= p.digits + p.rest) && !("0X" <= p.digits + p.rest)
  {
    hide Digit;
  }

  lemma MarkTells(p: Parts, number: string)
    requires GoodParts(p) && number == p.mark + (p.digits + p.rest)
    ensures (IsHex(number) <==> p.mark != "") && (if p.mark != "" then number[2..] else number) == p.digits + p.rest
  {
    hide GoodParts;
    SignIs(p);
    if p.mark == "" {
      assert number == p.digits + p.rest;
    } else {
      assert number[..2] == p.mark && number[2..] == p.digits + p.rest;
      assert number[0] == number[..2][0] && number[1] == number[..2][1];
    }
  }

  /** The value of a text is that of its digits in their base, negative behind a '-'. */
  lemma TextValueMeans(p: Parts)
    requires GoodParts(p)
    ensures TextValue(Whole(p)) == (if p.sign == "-" then -1 else 1) * Value(p.digits, Base(p), |p.digits|)
  {
    hide Digit, Value, RunValue, SkipSpaces, SkipSign, IsHex, GoodParts;
    PartsBasics(p);
    var number := p.mark + (p.digits + p.rest);
    var s := p.sign + number;
    SkipBlanks(p.blanks, s);
    SignTells(p, number);
    MarkTells(p, number);
    DigitsFirst(p.digits, p.rest, Base(p));
  }

  lemma PartsBasics(p: Parts)
    requires GoodParts(p)
    ensures (forall i :: 0 <= i < |p.blanks| ==> p.blanks[i] in BLANKS) && AllDigits(p.digits, Base(p), |p.digits|)
    ensures p.rest != "" ==> Digit(p.rest[0], Base(p)).None?
  {
    hide Digit;
  }

  ghost function Clamp(x: int, lo: int, hi: int): int {
    if x < lo then lo else if x > hi then hi else x
  }

  // ----- overflow from the number of digits -----

  lemma DigitBound(c: char, base: nat)
    requires Digit(c, base).Some? && (base == 10 || base == 16)
    ensures Digit(c, base).value < base
  {}

  lemma {:induction false} LeadBounds(t: string, base: nat, n: nat)
    requires AllDigits(t, base, n) && n > 0 && (base == 10 || base == 16)
    ensures var d := Digit(t[0], base).value;
            d * Pow(base, n - 1) <= Value(t, base, n) < (d + 1) * Pow(base, n - 1)
  {
    hide Digit, Pow;
    var d := Digit(t[0], base).value;
    if n == 1 {
      PowZero(base);
      assert Value(t, base, 0) == 0;
    } else {
      LeadBounds(t, base, n - 1);
      PowStep(base, n - 2);
      DigitBound(t[n - 1], base);
      LeadAlgebra(base, Pow(base, n - 2), d, Value(t, base, n - 1), Digit(t[n - 1], base).value, d * Pow(base, n - 2),
                  (d + 1) * Pow(base, n - 2), d * Pow(base, n - 1), (d + 1) * Pow(base, n - 1), Pow(base, n - 1));
    }
  }

  lemma LeadAlgebra(base: nat, p: nat, d: nat, v: nat, last: nat, dp: nat, ep: nat, dq: nat, eq: nat, q: nat)
    requires (base == 10 || base == 16) && dp == d * p && ep == (d + 1) * p && dq == d * q && eq == (d + 1) * q && q == base * p
    requires dp <= v < ep && last < base
    ensures dq <= base * v + last < eq
  {
    if base == 10 {
      assert q == 10 * p && dq == 10 * dp && eq == 10 * ep;
    } else {
      assert q == 16 * p && dq == 16 * dp && eq == 16 * ep;
    }
  }

  /** The longest decimal that may fit, and the leading digit of the largest word. */
  function MaxDigits(w: nat): nat {
    if w == 64 then 20 else if w == 32 then 10 else 5
  }

  function MaxLead(w: nat): nat {
    if w == 64 then 1 else if w == 32 then 4 else 6
  }

  lemma DecimalPowers()
    ensures Pow(10, 4) == 10_000 && Pow(10, 5) == 100_000
    ensures Pow(10, 9) == 1_000_000_000 && Pow(10, 10) == 10_000_000_000
    ensures Pow(10, 19) == 10_000_000_000_000_000_000 && Pow(10, 20) == 100_000_000_000_000_000_000
  {
    assert Pow(10, 5) == 100_000;
    PowAdd(10, 4, 5);
    PowAdd(10, 5, 5);
    PowAdd(10, 10, 9);
    PowAdd(10, 10, 10);
  }

  lemma HexPowers()
    ensures Pow(16, 4) == 0x1_0000 && Pow(16, 8) == 0x1_0000_0000 && Pow(16, 16) == 0x1_0000_0000_0000_0000
  {
    assert Pow(16, 4) == 0x1_0000;
    PowAdd(16, 4, 4);
    PowAdd(16, 8, 8);
  }

  /** The test on the number of digits, the leading digit and the top bit of the wrapped result. */
  function DecimalOverflow(w: nat, digits: nat, lead: nat, wrapped: nat): bool
    requires IsWidth(w)
  {
    digits >= MaxDigits(w)
    && !(digits == MaxDigits(w) && (lead < MaxLead(w) || (lead == MaxLead(w) && wrapped >= Modulus(w) / 2)))
  }

  /** It holds exactly when the value does not fit a word. */
  lemma DecimalOverflowExact(w: nat, t: string, n: nat)
    requires IsWidth(w) && AllDigits(t, 10, n) && (n > 0 ==> t[0] != '0')
    ensures var lead := if n > 0 then Digit(t[0], 10).value else 0;
            DecimalOverflow(w, n, lead, Value(t, 10, n) % Modulus(w)) <==> Value(t, 10, n) >= Modulus(w)
  {
    hide Pow, Value;
    DecimalPowers();
    ValueNone(t, 10);
    if n > 0 {
      var lead, p := Digit(t[0], 10).value, Pow(10, n - 1);
      LeadBounds(t, 10, n);
      var v := Value(t, 10, n);
      var max := MaxDigits(w);
      if n < max {
        PowMonotone(10, n, max - 1);
        PowStep(10, n - 1);
        SmallLead(lead, p, v);
      } else if n > max {
        PowMonotone(10, max, n - 1);
        BigLead(lead, p, v);
      } else {
        FullLength(w, lead, v);
      }
    }
  }

  lemma ValueNone(t: string, base: nat)
    ensures Value(t, base, 0) == 0
  {}

  lemma SmallLead(lead: nat, p: nat, v: nat)
    requires lead <= 9 && v < (lead + 1) * p
    ensures v < 10 * p
  {
    assert (lead + 1) * p <= 10 * p;
  }

  lemma BigLead(lead: nat, p: nat, v: nat)
    requires lead >= 1 && v >= lead * p
    ensures v >= p
  {
    assert lead * p >= p;
  }

  lemma FullLength(w: nat, lead: nat, v: nat)
    requires IsWidth(w) && 1 <= lead <= 9
    requires var p := if w == 16 then 10_000 else if w == 32 then 1_000_000_000 else 10_000_000_000_000_000_000;
             lead * p <= v < (lead + 1) * p
    ensures DecimalOverflow(w, MaxDigits(w), lead, v % Modulus(w)) <==> v >= Modulus(w)
  {
    if lead == MaxLead(w) {
      if w == 16 {
        assert v % 0x1_0000 == if v >= 0x1_0000 then v - 0x1_0000 else v;
      } else if w == 32 {
        assert v % 0x1_0000_0000 == if v >= 0x1_0000_0000 then v - 0x1_0000_0000 else v;
      } else {
        assert v % 0x1_0000_0000_0000_0000 == if v >= 0x1_0000_0000_0000_0000 then v - 0x1_0000_0000_0000_0000 else v;
      }
    }
  }

  lemma HexOverflowExact(w: nat, t: string, n: nat)
    requires IsWidth(w) && AllDigits(t, 16, n) && (n > 0 ==> t[0] != '0')
    ensures n > w / 4 <==> Value(t, 16, n) >= Modulus(w)
  {
    hide Pow, Value, Digit;
    HexPowers();
    ValueNone(t, 16);
    if n > 0 {
      NonZeroLead(t[0]);
      var lead, p := Digit(t[0], 16).value, Pow(16, n - 1);
      LeadBounds(t, 16, n);
      var v := Value(t, 16, n);
      if n <= w / 4 {
        PowMonotone(16, n, w / 4);
        PowStep(16, n - 1);
        HexLead(lead, p, v);
      } else {
        PowMonotone(16, w / 4, n - 1);
        BigLead(lead, p, v);
      }
    }
  }

  lemma NonZeroLead(c: char)
    requires Digit(c, 16).Some? && c != '0'
    ensures 1 <= Digit(c, 16).value <= 15
  {}

  lemma HexLead(lead: nat, p: nat, v: nat)
    requires lead <= 15 && v < (lead + 1) * p
    ensures v < 16 * p
  {
    assert (lead + 1) * p <= 16 * p;
  }

  // ----- reading -----

  lemma WrapStep(w: nat, base: nat, v: nat, d: nat)
    requires IsWidth(w) && (base == 10 || base == 16)
    ensures (base * (v % Modulus(w)) + d) % Modulus(w) == (base * v + d) % Modulus(w)
  {
    var q, r := v / Modulus(w), v % Modulus(w);
    assert v == Modulus(w) * q + r;
    if base == 10 {
      Unwrap(w, 10 * r + d, 10 * q);
      TimesBase(Modulus(w), q, 10 * r + d, Modulus(w) * q, Modulus(w) * (10 * q));
    } else {
      Unwrap(w, 16 * r + d, 16 * q);
      TimesBase(Modulus(w), q, 16 * r + d, Modulus(w) * q, Modulus(w) * (16 * q));
    }
  }

  lemma TimesBase(m: nat, q: nat, x: nat, mq: nat, mbq: nat)
    requires mq == m * q
    ensures m * (10 * q) == 10 * mq && m * (16 * q) == 16 * mq
  {}

  lemma Unwrap(w: nat, x: nat, k: nat)
    requires IsWidth(w)
    ensures (x + Modulus(w) * k) % Modulus(w) == x % Modulus(w)
  {
    if w == 16 {
      Unwrap16(x, k);
    } else if w == 32 {
      Unwrap32(x, k);
    } else {
      Unwrap64(x, k);
    }
  }

  lemma Unwrap16(x: nat, k: nat)
    ensures (x + 0x1_0000 * k) % 0x1_0000 == x % 0x1_0000
  {}

  lemma Unwrap32(x: nat, k: nat)
    ensures (x + 0x1_0000_0000 * k) % 0x1_0000_0000 == x % 0x1_0000_0000
  {}

  lemma Unwrap64(x: nat, k: nat)
    ensures (x + 0x1_0000_0000_0000_0000 * k) % 0x1_0000_0000_0000_0000 == x % 0x1_0000_0000_0000_0000
  {}

  lemma {:induction false} ZerosWorthNothing(t: string, base: nat, z: nat)
    requires z <= |t| && (forall i :: 0 <= i < z ==> t[i] == '0') && (base == 10 || base == 16)
    ensures RunLength(t, base) == z + RunLength(t[z..], base) && RunValue(t, base) == RunValue(t[z..], base)
  {
    if z == 0 {
      assert t[0..] == t;
    } else {
      hide RunLength, RunValue, Digit;
      ZeroWorthNothing(t, base);
      ZerosWorthNothing(t[1..], base, z - 1);
      assert t[1..][z - 1..] == t[z..];
    }
  }

  lemma ZeroWorthNothing(t: string, base: nat)
    requires t != "" && t[0] == '0' && (base == 10 || base == 16)
    ensures RunLength(t, base) == 1 + RunLength(t[1..], base) && RunValue(t, base) == RunValue(t[1..], base)
  {
    DropZero(t, base, RunLength(t, base));
  }

  lemma {:induction false} DropZero(t: string, base: nat, n: nat)
    requires 0 < n && AllDigits(t, base, n) && t[0] == '0'
    ensures AllDigits(t[1..], base, n - 1) && Value(t, base, n) == Value(t[1..], base, n - 1)
  {
    if n > 1 {
      DropZero(t, base, n - 1);
    } else {
      assert Value(t, base, 0) == 0;
    }
  }

  /** Skips zeros, then reads digits into a wrapping word. */
  method ReadDigits(t: string, from: nat, base: nat, w: nat) returns (result: nat, start: nat, digits: nat)
    requires from <= |t| && IsWidth(w) && (base == 10 || base == 16)
    ensures start + digits <= |t| && AllDigits(t[start..], base, digits) && (digits > 0 ==> t[start] != '0')
    ensures RunValue(t[from..], base) == Value(t[start..], base, digits)
    ensures result == Value(t[start..], base, digits) % Modulus(w)
  {
    hide Digit, Value, RunValue, AllDigits, Modulus, RunLength;
    start := SkipZeros(t, from, base);
    var s := start;
    ghost var u := t[start..];
    NoDigits(u, base);
    result := 0;
    ZeroWord(w);
    while s < |t| && Digit(t[s], base).Some?
      invariant start <= s <= |t| && AllDigits(u, base, s - start)
      invariant result == Value(u, base, s - start) % Modulus(w)
    {
      ghost var n := s - start;
      assert u[n] == t[s];
      MoreDigits(u, base, n);
      ValueNext(u, base, n);
      WrapStep(w, base, Value(u, base, n), Digit(t[s], base).value);
      result := (base * result + Digit(t[s], base).value) % Modulus(w);
      s := s + 1;
    }
    digits := s - start;
    RunIs(u, base, digits);
  }

  method SkipZeros(t: string, from: nat, base: nat) returns (s: nat)
    requires from <= |t| && (base == 10 || base == 16)
    ensures from <= s <= |t| && (s < |t| ==> t[s] != '0') && RunValue(t[from..], base) == RunValue(t[s..], base)
  {
    hide Value, RunValue, RunLength, Digit;
    s := from;
    while s < |t| && t[s] == '0'
      invariant from <= s <= |t| && forall i :: from <= i < s ==> t[i] == '0'
    {
      s := s + 1;
    }
    ZerosWorthNothing(t[from..], base, s - from);
    assert t[from..][s - from..] == t[s..];
  }

  lemma NoDigits(t: string, base: nat)
    ensures AllDigits(t, base, 0) && Value(t, base, 0) == 0
  {}

  lemma MoreDigits(t: string, base: nat, n: nat)
    requires AllDigits(t, base, n) && n < |t| && Digit(t[n], base).Some?
    ensures AllDigits(t, base, n + 1)
  {}

  lemma ZeroWord(w: nat)
    requires IsWidth(w)
    ensures 0 % Modulus(w) == 0 && Modulus(w) > 0
  {}

  lemma ValueNext(t: string, base: nat, n: nat)
    requires AllDigits(t, base, n + 1)
    ensures Value(t, base, n + 1) == base * Value(t, base, n) + Digit(t[n], base).value
  {}

  lemma DigitWithin(t: string, base: nat, n: nat, r: nat)
    requires AllDigits(t, base, n) && r <= |t|
    ensures r < n ==> Digit(t[r], base).Some?
  {}

  lemma RunIs(t: string, base: nat, n: nat)
    requires AllDigits(t, base, n) && (n < |t| ==> Digit(t[n], base).None?)
    ensures RunLength(t, base) == n && RunValue(t, base) == Value(t, base, n)
  {
    var r := RunLength(t, base);
    hide Digit;
    DigitWithin(t, base, n, r);
    DigitWithin(t, base, r, n);
  }

  method SkipSpacesAt(t: string) returns (s: nat)
    ensures s <= |t| && t[s..] == SkipSpaces(t)
  {
    s := 0;
    while s < |t| && IsSpace(t[s])
      invariant s <= |t| && SkipSpaces(t) == SkipSpaces(t[s..])
    {
      assert t[s..][1..] == t[s + 1..];
      s := s + 1;
    }
  }

  /** The digits from s on, decimal or hexadecimal, as a wrapped word, and whether they exceed it. */
  method ReadMagnitude(t: string, s: nat, w: nat) returns (result: nat, overflow: bool)
    requires s <= |t| && IsWidth(w)
    ensures result == Magnitude(t[s..]) % Modulus(w) && (overflow <==> Magnitude(t[s..]) >= Modulus(w))
  {
    hide Value, RunValue, Digit, RunLength, AllDigits, Modulus, DecimalOverflow;
    ghost var u := t[s..];
    var start, digits;
    if s + 1 < |t| && t[s] == '0' && (t[s + 1] == 'x' || t[s + 1] == 'X') {
      assert u[2..] == t[s + 2..] && IsHex(u);
      result, start, digits := ReadDigits(t, s + 2, 16, w);
      overflow := digits > w / 4;
      HexOverflowExact(w, t[start..], digits);
    } else {
      assert !IsHex(u);
      result, start, digits := ReadDigits(t, s, 10, w);
      DigitWithin(t[start..], 10, digits, 0);
      overflow := DecimalOverflow(w, digits, if digits > 0 then LeadDigit(t, start) else 0, result);
      DecimalOverflowExact(w, t[start..], digits);
    }
  }

  /** The value of the text, saturated to [lo, hi], as a word; minv and maxv are the words of lo and hi. */
  method StringToInteger(t: string, w: nat, minv: nat, maxv: nat, ghost lo: int, ghost hi: int) returns (r: nat)
    requires IsWidth(w) && 0 - Modulus(w) / 2 <= lo <= 0 <= hi < Modulus(w) && minv == Word(lo, w) && maxv == Word(hi, w)
    ensures r == Word(Clamp(TextValue(t), lo, hi), w)
  {
    hide Magnitude, Modulus, Word, Clamp;
    var s := SkipSpacesAt(t);
    var negative := s < |t| && t[s] == '-';
    ghost var u := SkipSign(t[s..]);
    if s < |t| && (t[s] == '+' || t[s] == '-') {
      assert t[s..][1..] == t[s + 1..];
      s := s + 1;
    }
    var result, overflow := ReadMagnitude(t, s, w);
    ghost var v: int := Magnitude(u);
    assert TextValue(t) == if negative then 0 - v else v;
    Saturated(w, v, lo, hi);
    if negative {
      var least := (Modulus(w) - minv) % Modulus(w);
      r := if overflow || result > least then minv else (Modulus(w) - result) % Modulus(w);
    } else {
      r := if overflow || result > maxv then maxv else result;
    }
  }

  /** Saturating a wrapped result with the overflow flag is saturating the value. */
  lemma Saturated(w: nat, v: nat, lo: int, hi: int)
    requires IsWidth(w) && 0 - Modulus(w) / 2 <= lo <= 0 <= hi < Modulus(w)
    ensures var m, minv, maxv := Modulus(w), Word(lo, w), Word(hi, w);
            && m > 0
            && Word(Clamp(v, lo, hi), w) == (if v >= m || v % m > maxv then maxv else v % m)
            && Word(Clamp(0 - v, lo, hi), w) == (if v >= m || v % m > (m - minv) % m then minv else (m - v % m) % m)
  {
    hide Modulus;
    var m := Modulus(w);
    ZeroWord(w);
    if v < m {
      SmallMod(v, m);
      if v > 0 { SmallMod(m - v, m); }
    }
    WholeMod(m);
    if lo < 0 { SmallMod(0 - lo, m); }
  }

  lemma WholeMod(m: nat)
    requires m > 0
    ensures m % m == 0
  {}

  lemma SmallMod(v: nat, m: nat)
    requires v < m
    ensures v % m == v
  {}

  function LeadDigit(t: string, start: nat): nat
    requires start < |t|
  {
    OrZero(Digit(t[start], 10))
  }

  function OrZero(d: Option<nat>): nat {
    if d.Some? then d.value else 0
  }

  // ----- writing -----

  function Decimal(n: nat): string {
    (if n < 10 then "" else Decimal(n / 10)) + [('0' as int + n % 10) as char]
  }

  lemma DecimalStep(n: nat)
    ensures Decimal(n) == (if n / 10 == 0 then "" else Decimal(n / 10)) + [('0' as int + n % 10) as char]
  {}

  function SignedDecimal(x: int): string {
    if x < 0 then "-" + Decimal(0 - x) else Decimal(x)
  }

  /** Writes digits backwards from the end of the buffer, then a '-', which is only kept for negative values. */
  method IntegerToString(buf: array<char>, value: nat, negative: bool, w: nat, ghost x: int) returns (begin: nat)
    requires IsWidth(w) && buf.Length == 64 && 0 - Modulus(w) / 2 <= x < Modulus(w) && value == Word(x, w) && negative == (x < 0)
    modifies buf
    ensures begin <= 64 && buf[begin..] == SignedDecimal(x)
  {
    hide Pow, Decimal;
    var rest: nat := if negative then (Modulus(w) - value) % Modulus(w) else value;
    assert rest == if x < 0 then 0 - x else x;
    DecimalPowers();
    var result := WriteDigits(buf, rest);
    ghost var digits := buf[result + 1..];
    buf[result] := '-';
    begin := if negative then result else result + 1;
    assert buf[result + 1..] == digits;
    assert buf[result..] == ['-'] + buf[result + 1..];
  }

  method WriteDigits(buf: array<char>, n: nat) returns (result: nat)
    requires buf.Length == 64 && n < Pow(10, 20)
    modifies buf
    ensures result < 63 && buf[result + 1..] == Decimal(n)
  {
    hide Pow, Decimal;
    var rest: nat, at: int, first := n, 63, true;
    ghost var k: nat, out := 0, "";
    while first || rest != 0
      invariant (first <==> k == 0) && k <= 20 && at == 63 - k && rest < Pow(10, 20 - k)
      invariant buf[at + 1..] == out && Decimal(n) == (if rest == 0 && k > 0 then "" else Decimal(rest)) + out
      decreases 20 - k
    {
      MoreRoom(rest, k);
      DecimalStep(rest);
      buf[at] := ('0' as int + rest % 10) as char;
      assert buf[at + 1..] == out;
      out := [buf[at]] + out;
      at := at - 1;
      rest := rest / 10;
      first := false;
      k := k + 1;
    }
    result := at;
  }

  lemma MoreRoom(rest: nat, k: nat)
    requires k <= 20 && rest < Pow(10, 20 - k) && (k == 0 || rest != 0)
    ensures k < 20 && rest / 10 < Pow(10, 20 - (k + 1))
  {
    PowZero(10);
    if k < 20 {
      PowStep(10, 20 - k - 1);
    }
  }

  // ----- round trip -----

  lemma {:induction false} DecimalDigits(n: nat)
    ensures |Decimal(n)| > 0 && AllDigits(Decimal(n), 10, |Decimal(n)|) && Value(Decimal(n), 10, |Decimal(n)|) == n
  {
    var s := Decimal(n);
    var c := ('0' as int + n % 10) as char;
    if n < 10 {
      assert s == [c];
      assert Value(s, 10, 0) == 0;
    } else {
      DecimalDigits(n / 10);
      var t := Decimal(n / 10);
      assert s == t + [c];
      ValuePrefix(t, [c], |t|);
    }
  }

  lemma {:induction false} ValuePrefix(t: string, u: string, n: nat)
    requires AllDigits(t, 10, n)
    ensures AllDigits(t + u, 10, n) && Value(t + u, 10, n) == Value(t, 10, n)
  {
    if n > 0 {
      ValuePrefix(t, u, n - 1);
    }
  }

  /** Every integer is read back from what is written for it. */
  lemma RoundTrip(x: int)
    ensures TextValue(SignedDecimal(x)) == x
  {
    hide Digit, Value;
    var n: nat := if x < 0 then 0 - x else x;
    var s, d := SignedDecimal(x), Decimal(n);
    DecimalDigits(n);
    RunIs(d, 10, |d|);
    DigitIsPlain(d[0], 10);
    if |d| > 1 { DigitIsPlain(d[1], 10); }
    if x < 0 {
      assert s[0] == '-' && s[1..] == d;
    }
    assert SkipSpaces(s) == s;
    assert SkipSign(s) == d;
  }

  /** The least and the largest value of a word, taken as signed or unsigned. */
  function Least(w: nat, signed: bool): int
    requires IsWidth(w)
  {
    if signed then 0 - Modulus(w) / 2 else 0
  }

  function Largest(w: nat, signed: bool): int
    requires IsWidth(w)
  {
    if signed then Modulus(w) / 2 - 1 else Modulus(w) - 1
  }

  /** The integer that a word stands for. */
  function Decoded(r: nat, w: nat, signed: bool): int
    requires IsWidth(w)
  {
    if signed && r >= Modulus(w) / 2 then r - Modulus(w) else r
  }

  /** Writing an integer of any width and sign and reading the text written gives the integer. */
  method WriteAndRead(x: int, w: nat, signed: bool) returns (r: nat)
    requires IsWidth(w) && Least(w, signed) <= x <= Largest(w, signed)
    ensures r < Modulus(w) && Decoded(r, w, signed) == x
  {
    var lo, hi := Least(w, signed), Largest(w, signed);
    var buf := new char[64];
    var begin := IntegerToString(buf, Word(x, w), x < 0, w, x);
    RoundTrip(x);
    r := StringToInteger(buf[begin..], w, Word(lo, w), Word(hi, w), lo, hi);
  }
}
