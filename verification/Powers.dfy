/** Powers of two, five and ten, as naturals and as scale factors with any integer exponent. */
module Powers {

  /** `b` raised to the natural power `e`. */
  function Pow(b: nat, e: nat): (r: nat)
    ensures b > 0 ==> r > 0
  {
    if e == 0 then 1 else b * Pow(b, e - 1)
  }

  lemma PowZero(b: nat)
    ensures Pow(b, 0) == 1
  {}

  lemma PowStep(b: nat, e: nat)
    ensures Pow(b, e + 1) == b * Pow(b, e)
  {}

  lemma PowPositive(b: nat, e: nat)
    requires b > 0
    ensures Pow(b, e) > 0
  {}

  lemma {:induction false} PowAdd(b: nat, m: nat, n: nat)
    ensures Pow(b, m + n) == Pow(b, m) * Pow(b, n)
  {
    if m > 0 {
      hide *;
      PowAdd(b, m - 1, n);
      PowStep(b, m - 1 + n);
      PowStep(b, m - 1);
      Assoc(b, Pow(b, m - 1), Pow(b, n));
    }
  }

  lemma {:induction false} PowMonotone(b: nat, m: nat, n: nat)
    requires b > 0 && m <= n
    ensures 0 < Pow(b, m) <= Pow(b, n)
    decreases n - m
  {
    PowPositive(b, m);
    if m < n {
      PowMonotone(b, m, n - 1);
      Grows(b, Pow(b, n - 1));
    }
  }

  lemma PowStrict(b: nat, m: nat, n: nat)
    requires b > 1 && m < n
    ensures 0 < Pow(b, m) < Pow(b, n)
  {
    PowMonotone(b, m, n - 1);
  }

  /** 10^n = 2^n 5^n, the identity behind the count of new digits. */
  lemma {:induction false} TenIsTwoFive(n: nat)
    ensures Pow(10, n) == Pow(2, n) * Pow(5, n)
  {
    if n > 0 {
      hide *;
      TenIsTwoFive(n - 1);
      PowStep(10, n - 1);
      PowStep(2, n - 1);
      PowStep(5, n - 1);
      var t, f := Pow(2, n - 1), Pow(5, n - 1);
      assert 10 * (t * f) == (2 * t) * (5 * f);
    }
  }

  /** 10^e for any integer e. */
  ghost function Ten(e: int): (r: real)
    ensures r > 0.0
    decreases if e < 0 then -e else e
  {
    if e == 0 then 1.0 else if e > 0 then 10.0 * Ten(e - 1) else Ten(e + 1) / 10.0
  }

  /** 2^e for any integer e. */
  ghost function Two(e: int): (r: real)
    ensures r > 0.0
    decreases if e < 0 then -e else e
  {
    if e == 0 then 1.0 else if e > 0 then 2.0 * Two(e - 1) else Two(e + 1) / 2.0
  }

  lemma TenZero()
    ensures Ten(0) == 1.0
  {}

  lemma TenStep(e: int)
    ensures Ten(e + 1) == 10.0 * Ten(e)
  {}

  lemma TwoZero()
    ensures Two(0) == 1.0
  {}

  lemma TwoStep(e: int)
    ensures Two(e + 1) == 2.0 * Two(e)
  {}

  lemma {:induction false} TenAddNat(m: int, n: nat)
    ensures Ten(m + n) == Ten(m) * Ten(n)
  {
    hide *;
    if n == 0 {
      TenZero();
    } else {
      TenAddNat(m, n - 1);
      TenStep(m + (n - 1));
      TenStep(n - 1);
      StepProduct(10.0, Ten(m + n - 1), Ten(m), Ten(n - 1), Ten(m + n), Ten(n));
    }
  }

  lemma {:induction false} TwoAddNat(m: int, n: nat)
    ensures Two(m + n) == Two(m) * Two(n)
  {
    hide *;
    if n == 0 {
      TwoZero();
    } else {
      TwoAddNat(m, n - 1);
      TwoStep(m + (n - 1));
      TwoStep(n - 1);
      StepProduct(2.0, Two(m + n - 1), Two(m), Two(n - 1), Two(m + n), Two(n));
    }
  }

  lemma TenInverse(n: nat)
    ensures Ten(0 - n) * Ten(n) == 1.0
  {
    TenAddNat(0 - n, n);
  }

  lemma TwoInverse(n: nat)
    ensures Two(0 - n) * Two(n) == 1.0
  {
    TwoAddNat(0 - n, n);
  }

  lemma TenAdd(m: int, n: int)
    ensures Ten(m + n) == Ten(m) * Ten(n)
  {
    hide *;
    if n >= 0 {
      TenAddNat(m, n);
    } else {
      TenAddNat(m + n, 0 - n);
      TenInverse(0 - n);
      Cancel(Ten(m), Ten(m + n), Ten(0 - n), Ten(n));
    }
  }

  lemma TwoAdd(m: int, n: int)
    ensures Two(m + n) == Two(m) * Two(n)
  {
    hide *;
    if n >= 0 {
      TwoAddNat(m, n);
    } else {
      TwoAddNat(m + n, 0 - n);
      TwoInverse(0 - n);
      Cancel(Two(m), Two(m + n), Two(0 - n), Two(n));
    }
  }

  lemma {:induction false} TenMonotone(m: int, n: int)
    requires m <= n
    ensures Ten(m) <= Ten(n)
    decreases n - m
  {
    if m < n {
      TenMonotone(m, n - 1);
      TenStep(n - 1);
    }
  }

  lemma {:induction false} TwoMonotone(m: int, n: int)
    requires m <= n
    ensures Two(m) <= Two(n)
    decreases n - m
  {
    if m < n {
      TwoMonotone(m, n - 1);
      TwoStep(n - 1);
    }
  }

  lemma {:induction false} TenOfNat(n: nat)
    ensures Ten(n) == Pow(10, n) as real
  {
    if n > 0 {
      hide *;
      TenOfNat(n - 1);
      TenStep(n - 1);
      PowStep(10, n - 1);
    }
  }

  lemma {:induction false} TwoOfNat(n: nat)
    ensures Two(n) == Pow(2, n) as real
  {
    if n > 0 {
      hide *;
      TwoOfNat(n - 1);
      TwoStep(n - 1);
      PowStep(2, n - 1);
    }
  }

  /** x times 2^e. */
  ghost function Scaled(x: real, e: int): real {
    x * Two(e)
  }

  lemma ScaledDef(x: real, e: int)
    ensures Scaled(x, e) == x * Two(e)
  {}

  lemma ScaledZero(x: real)
    ensures Scaled(x, 0) == x && Scaled(0.0, 0) == 0.0
  {}

  lemma ScaledOfZero(e: int)
    ensures Scaled(0.0, e) == 0.0
  {}

  lemma ScaledAdd(x: real, a: int, b: int)
    ensures Scaled(Scaled(x, a), b) == Scaled(x, a + b)
  {
    hide *;
    ScaledDef(x, a);
    ScaledDef(Scaled(x, a), b);
    ScaledDef(x, a + b);
    TwoAdd(a, b);
    AddProduct(x, Two(a), Two(b), Two(a + b), Scaled(x, a), Scaled(Scaled(x, a), b), Scaled(x, a + b));
  }

  lemma AddProduct(x: real, a: real, b: real, ab: real, xa: real, xab: real, r: real)
    requires ab == a * b && xa == x * a && xab == xa * b && r == x * ab
    ensures xab == r
  {
    assert (x * a) * b == x * (a * b);
  }

  lemma ScaledOrder(x: real, y: real, e: int)
    ensures x < y <==> Scaled(x, e) < Scaled(y, e)
    ensures x <= y <==> Scaled(x, e) <= Scaled(y, e)
  {
    hide *;
    ScaledDef(x, e);
    ScaledDef(y, e);
    if x < y {
      TimesOrder(x, y, Two(e));
    } else if y < x {
      TimesOrder(y, x, Two(e));
    }
  }

  lemma ScaledTwo(a: int, e: int)
    ensures Scaled(Two(a), e) == Two(a + e)
  {
    hide *;
    ScaledDef(Two(a), e);
    TwoAdd(a, e);
  }

  // ----- products, kept apart from the functions above -----

  lemma Assoc(x: int, y: int, z: int)
    ensures x * (y * z) == (x * y) * z
  {}

  lemma Grows(b: nat, x: nat)
    requires b > 0
    ensures x <= b * x
  {}

  lemma StepProduct(b: real, w: real, x: real, y: real, w': real, y': real)
    requires w == x * y && w' == b * w && y' == b * y
    ensures w' == x * y'
  {
    assert b * (x * y) == x * (b * y);
  }

  lemma Cancel(w: real, x: real, y: real, z: real)
    requires w == x * y && z * y == 1.0
    ensures x == w * z
  {
    assert w * z == x * (z * y);
  }

  lemma TimesOrder(x: real, y: real, z: real)
    requires x < y && z > 0.0
    ensures x * z < y * z
  {}

  lemma TimesAtMostReal(x: real, y: real, z: real)
    requires x <= y && z >= 0.0
    ensures x * z <= y * z
  {}

  lemma TimesOrderInt(x: int, y: int, z: int)
    requires x < y && z > 0
    ensures x * z < y * z
  {}

  lemma TimesAtMost(x: int, y: int, z: int)
    requires x <= y && z >= 0
    ensures x * z <= y * z
  {}
}
