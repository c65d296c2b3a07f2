/** Sizes and percentages as shown to the user, over exact rationals: hundredths are whole numbers, and rounding is
    half up, which is round() on what is never negative. */
module Units {

  /** Shown as a number of bytes, or as hundredths of a unit: KiB is unit 1, EiB is unit 6. */
  datatype Shown = Bytes(count: nat) | Scaled(hundredths: nat, exponent: nat)

  const UNITS: nat := 6

  function Pow1024(e: nat): (p: nat)
    ensures p > 0
  {
    if e == 0 then 1 else 1024 * Pow1024(e - 1)
  }

  /** floor(log2(size) / 10): the largest power of 1024 that is not above the size. */
  function Exponent(size: nat): nat {
    if size < 1024 then 0 else 1 + Exponent(size / 1024)
  }

  /** round(n / d). */
  function Rounded(n: nat, d: nat): nat
    requires d > 0
  {
    (2 * n + d) / (2 * d)
  }

  function SiString(size: nat): Shown {
    if size < 1024 then Bytes(size)
    else
      var e := Exponent(size);
      var converted := Rounded(100 * size, Pow1024(e));
      var (hundredths, exponent) := if converted == 102400 then (100, e + 1) else (converted, e);
      if exponent > UNITS then Bytes(size) else Scaled(hundredths, exponent)
  }

  /** What is shown, in hundredths of a byte. */
  function Magnitude(s: Shown): nat {
    match s
    case Bytes(count) => 100 * count
    case Scaled(hundredths, exponent) => hundredths * Pow1024(exponent)
  }

  // ----- Arithmetic -----

  lemma Times(a: nat, b: nat, c: nat)
    requires a <= b
    ensures a * c <= b * c
  {
  }

  lemma Untimes(a: nat, b: nat, c: nat)
    requires a * c < b * c
    ensures a < b
  {
    if b <= a {
      Times(b, a, c);
    }
  }

  /** A quotient is the only whole number between these bounds. */
  lemma Quotient(n: nat, d: nat, q: nat)
    requires d > 0 && q * d <= n < (q + 1) * d
    ensures n / d == q
  {
    Division(n, d);
    Untimes(q, n / d + 1, d);
    Untimes(n / d, q + 1, d);
  }

  lemma Division(n: nat, d: nat)
    requires d > 0
    ensures n / d * d <= n < (n / d + 1) * d
  {
    assert (n / d + 1) * d == n / d * d + d;
  }

  /** Rounding is off by at most half; exactly half is rounded up. */
  lemma RoundedIsNear(n: nat, d: nat)
    requires d > 0
    ensures -(d as int) <= 2 * (n - Rounded(n, d) * d) < d
  {
    var q := Rounded(n, d);
    Division(2 * n + d, 2 * d);
    assert q * (2 * d) == 2 * (q * d) && (q + 1) * (2 * d) == 2 * (q * d) + 2 * d;
  }

  lemma RoundedMonotone(m: nat, n: nat, d: nat)
    requires d > 0 && m <= n
    ensures Rounded(m, d) <= Rounded(n, d)
  {
    Division(2 * m + d, 2 * d);
    Division(2 * n + d, 2 * d);
    Untimes(Rounded(m, d), Rounded(n, d) + 1, 2 * d);
  }

  lemma RoundedMultiple(q: nat, d: nat)
    requires d > 0
    ensures Rounded(q * d, d) == q
  {
    assert q * (2 * d) == 2 * (q * d) && (q + 1) * (2 * d) == 2 * (q * d) + 2 * d;
    Quotient(2 * (q * d) + d, 2 * d, q);
  }

  lemma {:induction false} ExponentFits(size: nat)
    requires size > 0
    ensures var e := Exponent(size); Pow1024(e) <= size < Pow1024(e + 1)
    decreases size
  {
    assert Pow1024(1) == 1024 * Pow1024(0);
    if size >= 1024 {
      ExponentFits(size / 1024);
    }
  }

  lemma {:induction false} PowMonotone(a: nat, b: nat)
    requires a <= b
    ensures Pow1024(a) <= Pow1024(b)
    decreases b
  {
    if a < b {
      PowMonotone(a, b - 1);
    }
  }

  /** Before any roll-over the mantissa is between 1.00 and 1024.00. */
  lemma ConvertedFits(size: nat)
    requires size >= 1024
    ensures 100 <= Rounded(100 * size, Pow1024(Exponent(size))) <= 102400
  {
    var p := Pow1024(Exponent(size));
    ExponentFits(size);
    RoundedMultiple(100, p);
    RoundedMultiple(102400, p);
    RoundedMonotone(100 * p, 100 * size, p);
    RoundedMonotone(100 * size, 102400 * p, p);
  }

  lemma Powers()
    ensures Pow1024(6) == 0x1000_0000_0000_0000
  {
    assert Pow1024(1) == 1024 && Pow1024(2) == 1024 * Pow1024(1) && Pow1024(3) == 1024 * Pow1024(2);
    assert Pow1024(4) == 1024 * Pow1024(3) && Pow1024(5) == 1024 * Pow1024(4);
  }

  lemma ExponentBound(size: nat)
    requires 0 < size < 0x1_0000_0000_0000_0000
    ensures Exponent(size) <= UNITS
  {
    Powers();
    ExponentFits(size);
    assert Pow1024(7) == 1024 * Pow1024(6);
    if Exponent(size) > 6 {
      PowMonotone(7, Exponent(size));
    }
  }

  // ----- Sizes -----

  /** A size below 1024 is shown as it is. */
  lemma SmallSizeIsExact(size: nat)
    ensures SiString(size) == Bytes(size) <== size < 1024
    ensures size < 1024 ==> Magnitude(SiString(size)) == 100 * size
  {
  }

  /** Every 64-bit size from 1024 on is shown in a unit, never by the fallback, with a mantissa from 1.00 to below
      1024.00, and rounded to the nearest hundredth of the unit chosen before any roll-over, half a hundredth up. */
  lemma SizeIsShownWell(size: nat)
    requires 1024 <= size < 0x1_0000_0000_0000_0000
    ensures var s := SiString(size);
            && s.Scaled? && 100 <= s.hundredths < 102400 && 1 <= s.exponent <= UNITS
            && -(Pow1024(Exponent(size)) as int) <= 2 * (100 * size - Magnitude(s)) < Pow1024(Exponent(size))
  {
    var e := Exponent(size);
    var p := Pow1024(e);
    var converted := Rounded(100 * size, p);
    ConvertedFits(size);
    ExponentBound(size);
    RoundedIsNear(100 * size, p);
    if converted == 102400 {
      RolledOver(size);
      assert 100 * Pow1024(e + 1) == 102400 * p;
    }
  }

  /** A roll-over never happens in the largest unit. */
  lemma RolledOver(size: nat)
    requires 1024 <= size < 0x1_0000_0000_0000_0000
    requires Rounded(100 * size, Pow1024(Exponent(size))) == 102400
    ensures Exponent(size) < UNITS
  {
    ExponentBound(size);
    if Exponent(size) == 6 {
      Powers();
      RoundedMultiple(1600, Pow1024(6));
      RoundedMonotone(100 * size, 1600 * Pow1024(6), Pow1024(6));
    }
  }

  lemma MagnitudeOf(size: nat)
    requires 1024 <= size < 0x1_0000_0000_0000_0000
    ensures var p := Pow1024(Exponent(size));
            Magnitude(SiString(size)) == Rounded(100 * size, p) * p
  {
    var e := Exponent(size);
    SizeIsShownWell(size);
    if Rounded(100 * size, Pow1024(e)) == 102400 {
      assert 100 * Pow1024(e + 1) == 102400 * Pow1024(e);
    }
  }

  lemma {:induction false} ExponentMonotone(a: nat, b: nat)
    requires a <= b
    ensures Exponent(a) <= Exponent(b)
    decreases b
  {
    if a >= 1024 {
      ExponentMonotone(a / 1024, b / 1024);
    }
  }

  /** What is shown of a size lies between the power of its unit and the next one. */
  lemma MagnitudeFits(size: nat)
    requires 1024 <= size < 0x1_0000_0000_0000_0000
    ensures var e := Exponent(size);
            100 * Pow1024(e) <= Magnitude(SiString(size)) <= 100 * Pow1024(e + 1)
  {
    var p := Pow1024(Exponent(size));
    MagnitudeOf(size);
    ConvertedFits(size);
    Times(100, Rounded(100 * size, p), p);
    Times(Rounded(100 * size, p), 102400, p);
  }

  /** A larger size never looks smaller, across unit boundaries and roll-overs. */
  lemma SizesAreMonotone(a: nat, b: nat)
    requires a <= b < 0x1_0000_0000_0000_0000
    ensures Magnitude(SiString(a)) <= Magnitude(SiString(b))
  {
    if b >= 1024 {
      if a < 1024 {
        MagnitudeFits(b);
        PowMonotone(1, Exponent(b));
      } else {
        ExponentMonotone(a, b);
        if Exponent(a) == Exponent(b) {
          SameUnit(a, b);
        } else {
          MagnitudeFits(a);
          MagnitudeFits(b);
          PowMonotone(Exponent(a) + 1, Exponent(b));
        }
      }
    }
  }

  lemma SameUnit(a: nat, b: nat)
    requires 1024 <= a <= b < 0x1_0000_0000_0000_0000 && Exponent(a) == Exponent(b)
    ensures Magnitude(SiString(a)) <= Magnitude(SiString(b))
  {
    var p := Pow1024(Exponent(a));
    MagnitudeOf(a);
    MagnitudeOf(b);
    RoundedMonotone(100 * a, 100 * b, p);
    Times(Rounded(100 * a, p), Rounded(100 * b, p), p);
  }

  // ----- Percentages -----

  /** In hundredths of a percent; what would round up to 100% stays at 99.99%. */
  function Percentage(used: nat, total: nat): nat {
    if total == 0 || used >= total then 10000
    else if used == 0 then 0
    else
      var converted := Rounded(10000 * used, total);
      if converted == 10000 then 9999 else converted
  }

  lemma BelowFull(used: nat, total: nat)
    requires 0 < used < total
    ensures Percentage(used, total) <= 9999 && Rounded(10000 * used, total) <= 10000
  {
    RoundedMultiple(10000, total);
    RoundedMonotone(10000 * used, 10000 * total, total);
  }

  /** 100% is shown only when everything is used or there is nothing. */
  lemma FullExactly(used: nat, total: nat)
    ensures Percentage(used, total) == 10000 <==> used >= total || total == 0
  {
    if 0 < used < total {
      BelowFull(used, total);
    }
  }

  lemma PercentageMonotone(a: nat, b: nat, total: nat)
    requires a <= b
    ensures Percentage(a, total) <= Percentage(b, total)
  {
    if 0 < a && b < total {
      RoundedMonotone(10000 * a, 10000 * b, total);
      BelowFull(b, total);
    }
    FullExactly(b, total);
    if 0 < a < total {
      BelowFull(a, total);
    }
  }

  /** A percentage is rounded to the nearest hundredth, half a hundredth up, or held at 99.99% when the truth is above 99.995%. */
  lemma PercentageIsNear(used: nat, total: nat)
    requires used <= total && total > 0
    ensures var error := 2 * (10000 * used - Percentage(used, total) * total);
            -(total as int) <= error < total || (Percentage(used, total) == 9999 && 20000 * used >= 19999 * total)
  {
    if 0 < used < total {
      RoundedIsNear(10000 * used, total);
    }
  }
}
