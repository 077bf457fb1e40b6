/** When strtod sets errno: the decimal m * 10^s is too large for a double, or too small
    to be one exactly. Overflow is that of section 7.22.1.3 of ISO C11 under rounding to
    nearest; underflow, which C leaves to the implementation, is that of glibc on x86,
    where a value is tiny if it is subnormal after rounding. */
module DoubleRange {

  /** Doubles have 53 bits, lie below 2^1024 and are multiples of 2^-1074. */
  datatype Format = Format(bits: nat, top: nat, bottom: nat)

  const DOUBLE := Format(53, 1024, 1074)

  /** m * b^n. */
  function Scaled(m: nat, b: nat, n: nat): (r: nat)
    ensures m > 0 && b > 0 ==> r > 0
  {
    if n == 0 then m else b * Scaled(m, b, n - 1)
  }

  /** m is a multiple of 10^n. */
  predicate Divides(m: nat, n: nat)
    decreases n
  {
    n == 0 || (m % 10 == 0 && Divides(m / 10, n - 1))
  }

  /** 2^(bits + 1) - 1. */
  function Mantissas(f: Format): (r: nat)
    ensures r > 0
  {
    2 * Scaled(1, 2, f.bits) - 1
  }

  /** Half a unit above the largest number of the format: 2^1024 - 2^970 for doubles. */
  function Limit(f: Format): nat
    requires f.bits < f.top
  {
    Scaled(Mantissas(f), 2, f.top - f.bits - 1)
  }

  predicate Overflows(f: Format, m: nat, s: int)
    requires f.bits < f.top
  {
    if s >= 0 then Scaled(m, 10, s) >= Limit(f) else m >= Scaled(Limit(f), 10, -s)
  }

  /** What still rounds to a subnormal number, for doubles below 2^-1022 - 2^-1076, and
      is no multiple of the smallest one. */
  predicate Underflows(f: Format, m: nat, s: int) {
    && s < 0 && m > 0
    && Scaled(m, 2, f.bottom + 2) < Scaled(Mantissas(f), 10, -s)
    && !Divides(Scaled(m, 2, f.bottom), -s)
  }

  /** strtod does not set errno for m * 10^s. */
  predicate InRange(f: Format, m: nat, s: int)
    requires f.bits < f.top
  {
    !Overflows(f, m, s) && !Underflows(f, m, s)
  }

  // ------------------------------------------------------------------- scaling

  lemma {:induction false} ScaledGrows(m: nat, k: nat, b: nat, n: nat)
    requires m <= k
    ensures Scaled(m, b, n) <= Scaled(k, b, n)
  {
    if n > 0 {
      ScaledGrows(m, k, b, n - 1);
      TimesGrows(b, Scaled(m, b, n - 1), Scaled(k, b, n - 1));
    }
  }

  lemma TimesGrows(a: nat, b: nat, c: nat)
    requires b <= c
    ensures a * b <= a * c
  {
  }

  lemma {:induction false} ScaledTwice(m: nat, b: nat, p: nat, q: nat)
    ensures Scaled(Scaled(m, b, p), b, q) == Scaled(m, b, p + q)
  {
    if q > 0 { ScaledTwice(m, b, p, q - 1); }
  }

  lemma {:induction false} LongerGrows(m: nat, p: nat, q: nat)
    requires p <= q
    ensures Scaled(m, 2, p) <= Scaled(m, 2, q)
  {
    if p < q { LongerGrows(m, p, q - 1); }
  }

  /** Three doublings are less than a factor of ten. */
  lemma {:induction false} EightPerTen(n: nat)
    ensures Scaled(1, 2, 3 * n) <= Scaled(1, 10, n)
  {
    if n > 0 {
      EightPerTen(n - 1);
      assert Scaled(1, 2, 3 * n - 1) == 2 * Scaled(1, 2, 3 * n - 2);
      assert Scaled(1, 2, 3 * n - 2) == 2 * Scaled(1, 2, 3 * n - 3);
    }
  }

  ghost predicate Multiple(m: nat, n: nat) {
    exists k: nat :: m == Scaled(k, 10, n)
  }

  lemma DividesMultiples(m: nat, n: nat)
    ensures Divides(m, n) <==> Multiple(m, n)
  {
    var k := DividesWhat(m, n);
    forall j: nat | m == Scaled(j, 10, n) ensures Divides(m, n) {
      MultipleDivides(j, n);
    }
  }

  lemma {:induction false} DividesWhat(m: nat, n: nat) returns (k: nat)
    ensures Divides(m, n) ==> m == Scaled(k, 10, n)
    decreases n
  {
    if n == 0 {
      k := m;
    } else {
      k := DividesWhat(m / 10, n - 1);
    }
  }

  lemma {:induction false} MultipleDivides(k: nat, n: nat)
    ensures Divides(Scaled(k, 10, n), n)
  {
    if n > 0 { MultipleDivides(k, n - 1); }
  }

  lemma {:induction false} MultiplesAreLarge(m: nat, n: nat)
    requires m > 0 && Divides(m, n)
    ensures m >= Scaled(1, 10, n)
    decreases n
  {
    if n > 0 { MultiplesAreLarge(m / 10, n - 1); }
  }

  // ------------------------------------------------------- in range and out of it

  /** m * 10^s is at least x. */
  predicate Reaches(m: nat, s: int, x: nat) {
    if s >= 0 then Scaled(m, 10, s) >= x else m >= Scaled(x, 10, -s)
  }

  lemma {:induction false} ScaledTakes(m: nat, k: nat, b: nat, n: nat)
    requires k <= m
    ensures Scaled(k, b, n) <= Scaled(m, b, n) && Scaled(m - k, b, n) == Scaled(m, b, n) - Scaled(k, b, n)
  {
    ScaledGrows(k, m, b, n);
    if n > 0 {
      ScaledTakes(m, k, b, n - 1);
      TimesTakes(b, Scaled(m, b, n - 1), Scaled(k, b, n - 1));
    }
  }

  lemma TimesTakes(a: nat, b: int, c: int)
    ensures a * (b - c) == a * b - a * c
  {
  }

  /** A value is too large exactly when it reaches 2^1024 - 2^970. */
  lemma OverflowsFrom(f: Format, m: nat, s: int)
    requires f.bits < f.top
    ensures var top, half := Scaled(1, 2, f.top), Scaled(1, 2, f.top - f.bits - 1);
      half <= top && (Overflows(f, m, s) <==> Reaches(m, s, top - half))
  {
    var q := f.top - f.bits - 1;
    ScaledTwice(1, 2, f.bits + 1, q);
    ScaledTakes(Scaled(1, 2, f.bits + 1), 1, 2, q);
  }

  /** And too small exactly when it is below 2^-1022 - 2^-1076, not zero, and no multiple
      of 2^-1074. */
  lemma UnderflowsBelow(f: Format, m: nat, s: int)
    ensures Underflows(f, m, s) <==>
      && s < 0 && m > 0
      && Scaled(m, 2, f.bottom + 2) < Scaled(Scaled(1, 2, f.bits + 1), 10, -s) - Scaled(1, 10, -s)
      && !Multiple(Scaled(m, 2, f.bottom), -s)
  {
    if s < 0 {
      ScaledTakes(Scaled(1, 2, f.bits + 1), 1, 10, -s);
      DividesMultiples(Scaled(m, 2, f.bottom), -s);
    }
  }

  /** Naturals up to 2^n are in range where 2^(n+1) is. */
  lemma NaturalsInRange(f: Format, m: nat, n: nat)
    requires f.bits < f.top && m <= Scaled(1, 2, n) && n + 1 <= f.top - f.bits - 1
    ensures InRange(f, m, 0)
  {
    var q := f.top - f.bits - 1;
    LongerGrows(1, 0, n);
    LongerGrows(1, n + 1, q);
    ScaledGrows(1, Mantissas(f), 2, q);
  }

  /** From 10^s on, everything is too large if 2^(3s) is. */
  lemma TooLarge(f: Format, m: nat, s: int)
    requires f.bits < f.top && m > 0 && s >= 0 && 3 * s >= f.top
    ensures Overflows(f, m, s)
  {
    var q := f.top - f.bits - 1;
    ScaledGrows(1, m, 10, s);
    EightPerTen(s);
    LongerGrows(1, f.top, 3 * s);
    ScaledTwice(1, 2, f.bits + 1, q);
    ScaledGrows(Mantissas(f), Scaled(1, 2, f.bits + 1), 2, q);
  }

  /** 10^s is too small if 2^(3s) is below all numbers of the format. */
  lemma TooSmall(f: Format, s: int)
    requires s < 0 && -3 * s > f.bottom + 2
    ensures Underflows(f, 1, s)
  {
    EightPerTen(-s);
    LongerGrows(1, 0, f.bottom);
    LongerGrows(1, f.bottom + 3, -3 * s);
    ScaledGrows(1, Mantissas(f), 10, -s);
    if Divides(Scaled(1, 2, f.bottom), -s) { MultiplesAreLarge(Scaled(1, 2, f.bottom), -s); }
  }

  /** 2^53, and so every modelled integer of a tree. */
  lemma Pow53()
    ensures Scaled(1, 2, 53) == 0x20_0000_0000_0000
  {
    Doublings(1, 18);
    Doublings(0x4_0000, 18);
    Doublings(0x10_0000_0000, 17);
    ScaledTwice(1, 2, 18, 18);
    ScaledTwice(1, 2, 36, 17);
  }

  lemma Doublings(m: nat, n: nat)
    requires n == 17 || n == 18
    ensures Scaled(m, 2, n) == m * if n == 17 then 0x2_0000 else 0x4_0000
  {
    FourTimes(m, n);
    FourTimes(m, n - 4);
    FourTimes(m, n - 8);
    FourTimes(m, n - 12);
  }

  lemma FourTimes(m: nat, n: nat)
    requires n >= 4
    ensures Scaled(m, 2, n) == 16 * Scaled(m, 2, n - 4)
  {
    assert Scaled(m, 2, n - 1) == 2 * Scaled(m, 2, n - 2);
    assert Scaled(m, 2, n - 3) == 2 * Scaled(m, 2, n - 4);
  }

  // --------------------------------------------------- normal numbers are in range

  /** m * 10^s is at most 2^n. */
  predicate AtMostPower(m: nat, s: int, n: nat) {
    if s >= 0 then Scaled(m, 10, s) <= Scaled(1, 2, n) else m <= Scaled(Scaled(1, 2, n), 10, -s)
  }

  /** m * 10^s is at least 2^-n. */
  predicate AtLeastPower(m: nat, s: int, n: nat) {
    s >= 0 || Scaled(1, 10, -s) <= Scaled(m, 2, n)
  }

  lemma LimitAbove(f: Format)
    requires 0 < f.bits < f.top
    ensures Scaled(1, 2, f.top - 1) < Limit(f)
  {
    var q := f.top - f.bits - 1;
    ScaledTwice(1, 2, f.bits, q);
    ScaledGrowsStrictly(Scaled(1, 2, f.bits), Mantissas(f), 2, q);
    assert Scaled(1, 2, f.bits) == 2 * Scaled(1, 2, f.bits - 1);
  }

  lemma {:induction false} ScaledGrowsStrictly(m: nat, k: nat, b: nat, n: nat)
    requires m < k && b > 0
    ensures Scaled(m, b, n) < Scaled(k, b, n)
  {
    if n > 0 {
      ScaledGrowsStrictly(m, k, b, n - 1);
      TimesGrowsStrictly(b, Scaled(m, b, n - 1), Scaled(k, b, n - 1));
    }
  }

  lemma TimesGrowsStrictly(a: nat, b: nat, c: nat)
    requires a > 0 && b < c
    ensures a * b < a * c
  {
  }

  /** 2 to the p and 10 to the q, in either order. */
  lemma {:induction false} ScaledSwaps(m: nat, p: nat, q: nat)
    ensures Scaled(Scaled(m, 2, p), 10, q) == Scaled(Scaled(m, 10, q), 2, p)
  {
    if p > 0 {
      ScaledSwaps(m, p - 1, q);
      TwiceScaled(Scaled(m, 2, p - 1), q);
    }
  }

  lemma {:induction false} TwiceScaled(m: nat, n: nat)
    ensures Scaled(2 * m, 10, n) == 2 * Scaled(m, 10, n)
  {
    if n > 0 { TwiceScaled(m, n - 1); }
  }

  /** From 2^-1022 to 2^1023 every decimal is in range of a double. */
  lemma NormalInRange(f: Format, m: nat, s: int)
    requires 0 < f.bits < f.top && f.bits <= f.bottom + 1 && m > 0
    requires AtLeastPower(m, s, f.bottom + 1 - f.bits) && AtMostPower(m, s, f.top - 1)
    ensures InRange(f, m, s)
  {
    LimitAbove(f);
    if s < 0 {
      ScaledGrowsStrictly(Scaled(1, 2, f.top - 1), Limit(f), 10, -s);
      NormalNotTiny(f, m, -s);
    }
  }

  lemma NormalNotTiny(f: Format, m: nat, n: nat)
    requires f.bits <= f.bottom + 1 && Scaled(1, 10, n) <= Scaled(m, 2, f.bottom + 1 - f.bits)
    ensures Scaled(m, 2, f.bottom + 2) >= Scaled(Mantissas(f), 10, n)
  {
    ScaledTwice(m, 2, f.bottom + 1 - f.bits, f.bits + 1);
    ScaledGrows(Scaled(1, 10, n), Scaled(m, 2, f.bottom + 1 - f.bits), 2, f.bits + 1);
    ScaledSwaps(1, f.bits + 1, n);
    ScaledGrows(Mantissas(f), Scaled(1, 2, f.bits + 1), 10, n);
  }

  /** Zero is, with any exponent. */
  lemma ZeroInRange(f: Format, s: int)
    requires f.bits < f.top
    ensures InRange(f, 0, s)
  {
    ScaledZero(10, if s >= 0 then s else 0);
    if s < 0 { assert Scaled(Limit(f), 10, -s) > 0; }
  }

  lemma {:induction false} ScaledZero(b: nat, n: nat)
    ensures Scaled(0, b, n) == 0
  {
    if n > 0 { ScaledZero(b, n - 1); }
  }

  /** 10^3 is less than 2^10. */
  lemma {:induction false} TenDoublings(m: nat, n: nat)
    ensures Scaled(m, 10, 3 * n) <= Scaled(m, 2, 10 * n)
  {
    if n > 0 {
      TenDoublings(m, n - 1);
      ScaledTwice(m, 10, 3 * (n - 1), 3);
      ScaledTwice(m, 2, 10 * (n - 1), 10);
      Thousand(Scaled(m, 10, 3 * (n - 1)), Scaled(m, 2, 10 * (n - 1)));
    }
  }

  lemma Thousand(x: nat, y: nat)
    requires x <= y
    ensures Scaled(x, 10, 3) <= Scaled(y, 2, 10)
  {
    assert Scaled(x, 10, 1) == 10 * x && Scaled(x, 10, 2) == 100 * x;
    assert Scaled(y, 2, 1) == 2 * y && Scaled(y, 2, 2) == 4 * y;
    FourTimes(y, 6);
    FourTimes(y, 10);
  }

  lemma {:induction false} LongerTens(m: nat, p: nat, q: nat)
    requires p <= q
    ensures Scaled(m, 10, p) <= Scaled(m, 10, q)
  {
    if p < q { LongerTens(m, p, q - 1); }
  }

  /** Numbers of up to 2^53 with exponents from -306 to 291 are normal. */
  lemma ModerateInRange(m: nat, s: int, down: nat, up: nat)
    requires m <= Scaled(1, 2, 53) && -3 * down <= s <= 3 * up
    requires down == 102 && up == 97
    ensures InRange(DOUBLE, m, s)
  {
    if m == 0 {
      ZeroInRange(DOUBLE, s);
    } else {
      if s >= 0 { ModerateAbove(m, s, 53, up, 1023); } else { ModerateBelow(m, s, 53, down, 1022, 1023); }
      NormalInRange(DOUBLE, m, s);
    }
  }

  lemma ModerateAbove(m: nat, s: nat, bits: nat, up: nat, n: nat)
    requires m <= Scaled(1, 2, bits) && s <= 3 * up && bits + 10 * up <= n
    ensures Scaled(m, 10, s) <= Scaled(1, 2, n)
  {
    LongerTens(m, s, 3 * up);
    TenDoublings(m, up);
    ScaledGrows(m, Scaled(1, 2, bits), 2, 10 * up);
    ScaledTwice(1, 2, bits, 10 * up);
    LongerGrows(1, bits + 10 * up, n);
  }

  lemma ModerateBelow(m: nat, s: int, bits: nat, down: nat, k: nat, n: nat)
    requires 0 < m <= Scaled(1, 2, bits) && -3 * down <= s < 0 && 10 * down <= k && bits <= n
    ensures AtLeastPower(m, s, k) && AtMostPower(m, s, n)
  {
    LongerTens(1, -s, 3 * down);
    TenDoublings(1, down);
    LongerGrows(1, 10 * down, k);
    ScaledGrows(1, m, 2, k);
    LongerGrows(1, bits, n);
    LongerTens(Scaled(1, 2, n), 0, -s);
  }
}
