/** Rounding to a cash interval (pkg/util/decimal.go), and when the interval 15 rounds as documented: to
    ten hundredths, with the tie going down. */
module DecimalCash {
  import opened Options
  import opened IntegerMath
  import opened Decimals
  import opened DecimalRounding
  import opened DecimalRemainder

  /** The unit of a cash interval in hundredths: the interval 15 rounds to ten. */
  function CashUnit(interval: int): int {
    if interval == 15 then 10 else interval
  }

  /** RoundCash gives the multiple of the interval, in hundredths, nearest to d, ties away from zero; for
      the interval 15 it is the multiple of ten nearest to the lowered number. */
  lemma RoundCashNearest(d: Dec, interval: int) returns (n: int)
    requires interval in {5, 10, 15, 25, 50, 100} && InInt32(d.exp)
    ensures d.RoundCash(interval) == Some(Dec(n * CashUnit(interval), -2))
    ensures interval != 15 ==> NearestAway(n, interval as real / 100.0, Num(d))
    ensures interval == 15 ==> NearestAway(n, 10.0 / 100.0, Num(ShiftedDown(d)))
  {
    LoweredIs(d);
    var from := if interval == 15 then ShiftedDown(d) else d;
    var i := CashDivisor(interval).value;
    var scaled := Dec(from.value * i, from.exp);
    var unit := CashUnit(interval);
    hide *;
    n := scaled.Round(0).value;
    RoundWhole(scaled);
    CashUnitDivisor(interval);
    CashQuotient(n, unit);
    CashUnfolded(d, from, interval, i, n);
    CashNearest(from, unit, i, n);
  }

  /** Only an unsupported interval panics. */
  lemma RoundCashPanics(d: Dec, interval: int)
    requires InInt32(d.exp)
    ensures d.RoundCash(interval).None? <==> interval !in {5, 10, 15, 25, 50, 100}
  {
    if interval in {5, 10, 15, 25, 50, 100} {
      var n := RoundCashNearest(d, interval);
      hide Dec.RoundCash;
    }
  }

  lemma RoundWhole(d: Dec)
    ensures d.Round(0).exp == 0 && NearestAway(d.Round(0).value, 1.0, Num(d))
  {
    UnitNum(0);
    TenZero();
    hide NearestAway, Num, Ten, Dec.Round;
    RoundNearest(d, 0);
    assert WrapInt32(0) == 0;
  }

  lemma CashUnitDivisor(interval: int)
    requires interval in {5, 10, 15, 25, 50, 100}
    ensures CashUnit(interval) in {5, 10, 25, 50, 100}
    ensures CashDivisor(CashUnit(interval)) == CashDivisor(interval) && CashDivisor(interval).Some?
    ensures interval == 15 ==> CashUnit(interval) == 10
    ensures interval != 15 ==> CashUnit(interval) == interval
  {
  }

  lemma CashNearest(d: Dec, interval: int, i: int, n: int)
    requires interval > 0 && interval != 15 && Some(i) == CashDivisor(interval)
    requires NearestAway(n, 1.0, Num(Dec(d.value * i, d.exp)))
    ensures NearestAway(n, interval as real / 100.0, Num(d))
  {
    var c, x := interval as real / 100.0, Num(Dec(d.value * i, d.exp));
    hide *;
    ScaledNum(d, i);
    CashShare(i, interval, Num(d), x);
    NearestTimes(n, 1.0, x, c, c, Num(d));
  }

  lemma ScaledNum(d: Dec, i: int)
    ensures Num(Dec(d.value * i, d.exp)) == Num(d) * i as real
  {
  }

  lemma CashUnfolded(d: Dec, from: Dec, interval: int, i: int, n: int)
    requires CashDivisor(interval) == Some(i) && InInt32(from.exp)
    requires (if interval == 15 then d.Lowered() else Some(d)) == Some(from)
    requires Dec(from.value * i, from.exp).Round(0) == Dec(n, 0)
    requires Dec(n, 0).Div(Dec(i, 0)).Some?
    ensures d.RoundCash(interval) == Some(Dec(n, 0).Div(Dec(i, 0)).value.Truncate(2))
  {
    hide Dec.Lowered, Dec.Div, Dec.Round, Dec.Truncate;
  }

  lemma CashShare(i: int, interval: int, x: real, y: real)
    requires interval != 15 && Some(i) == CashDivisor(interval) && y == x * i as real
    ensures y * (interval as real / 100.0) == x
  {
  }

  /** Nearest multiples scale with the unit. */
  lemma NearestTimes(n: int, unit: real, x: real, c: real, unitC: real, xC: real)
    requires c > 0.0 && unitC == unit * c && xC == x * c && NearestAway(n, unit, x)
    ensures NearestAway(n, unitC, xC)
  {
    hide Scale, AbsR;
    var p, pC, u := Scale(n, unit), Scale(n, unitC), AbsR(x - Scale(n, unit));
    ScaleTimes(n, unit, c, unitC);
    TimesAbs(x - p, c, xC - pC) by {
      assert (x - p) * c == x * c - p * c;
    }
    TimesAbs(unit, c, unitC);
    TimesAbs(p, c, pC);
    TimesAbs(x, c, xC);
    assert 2.0 * AbsR(xC - pC) == (2.0 * u) * c;
    TimesOrder(2.0 * u, AbsR(unit), c);
    TimesOrder(AbsR(p), AbsR(x), c);
  }

  lemma TimesAbs(x: real, c: real, xC: real)
    requires c > 0.0 && xC == x * c
    ensures AbsR(xC) == AbsR(x) * c
  {
  }

  lemma TimesOrder(x: real, y: real, c: real)
    requires c > 0.0
    ensures x * c <= y * c <==> x <= y
    ensures x * c == y * c <==> x == y
  {
  }

  /** Dividing a whole number by the cash divisor is exact within the precision. */
  lemma CashQuotient(n: int, interval: int)
    requires interval in {5, 10, 25, 50, 100}
    ensures Dec(n, 0).Div(Dec(CashDivisor(interval).value, 0)).Some?
    ensures Dec(n, 0).Div(Dec(CashDivisor(interval).value, 0)).value.Truncate(2) == Dec(n * interval, -2)
  {
    var i := CashDivisor(interval).value;
    hide Dec.Div, Dec.Truncate;
    CashShares(i, interval);
    WholeQuotient(n, i, interval * Pow10(14));
    CutToCents(n, interval);
  }

  lemma CashShares(i: int, interval: int)
    requires interval != 15 && CashDivisor(interval) == Some(i)
    ensures i * (interval * Pow10(14)) == P
  {
    Pow10Values();
  }

  lemma CutToCents(n: int, k: int)
    ensures Dec(n * (k * Pow10(14)), -DIVISION_PRECISION).Truncate(2) == Dec(n * k, -2)
  {
    hide Pow10, Quo;
    QuoUnique(n * (k * Pow10(14)), Pow10(14), n * k, 0) by {
      Regroup(n, k, Pow10(14));
    }
  }

  // ----- The interval 15 -----

  /** The guard of the interval 15: the number has a fraction, and its coefficient is a multiple of five. */
  predicate Lowers(d: Dec) {
    d.exp < 0 && d.value % 5 == 0
  }

  /** What the interval 15 rounds: d, less a few units of its last digit if its coefficient is a multiple
      of five. */
  function ShiftedDown(d: Dec): Dec {
    if Lowers(d) then Dec(d.value - Xor(10, -d.exp), d.exp) else d
  }

  /** The remainder of a whole number by five. */
  lemma WholeMod5(v: int)
    ensures Dec(v, 0).Mod(Dec(5, 0)) == Some(Dec(v - 5 * Quo(v, 5), 0))
  {
    var q := Quo(v, 5);
    CutFifth(v);
    hide Pow10, Dec.Div, Dec.Truncate, Dec.Sub, Quo;
    WholeQuotient(v, 5, P / 5);
    SubAtOwnExponent(v, 5 * q, 0);
    assert Dec(5, 0).Mul(Dec(q, 0)) == Some(Dec(5 * q, 0));
  }

  lemma CutFifth(v: int)
    ensures 5 * (P / 5) == P
    ensures Dec(v * (P / 5), -DIVISION_PRECISION).Truncate(0) == Dec(Quo(v, 5), 0)
  {
    Pow10Values();
    QuoRemBounds(v, 5);
    RemDef(v, 5);
    var q, r, share := Quo(v, 5), Rem(v, 5), P / 5;
    hide Pow10, Quo, Rem;
    assert P == 5 * share && v * share == q * P + r * share;
    QuoUnique(v * share, P, q, r * share);
  }

  lemma Divisible(v: int)
    ensures v - 5 * Quo(v, 5) == 0 <==> v % 5 == 0
  {
  }

  lemma LoweredIs(d: Dec)
    ensures d.Lowered() == Some(ShiftedDown(d))
  {
    Divisible(d.value);
    hide Dec.Mod, Dec.Cmp, Dec.Sub, Quo, Xor;
    WholeMod5(d.value);
    ZeroTest(d.value - 5 * Quo(d.value, 5));
    if d.exp < 0 {
      SubAtOwnExponent(d.value, Xor(10, -d.exp), d.exp);
    }
  }

  lemma ZeroTest(r: int)
    ensures Dec(r, 0).Cmp(Dec(0, 1)) == 0 <==> r == 0
  {
  }

  lemma SubAtOwnExponent(v: int, w: int, e: int)
    ensures Dec(v, e).Sub(Dec(w, e)) == Dec(v - w, e)
  {
  }

  /** n tenths are nearest to x, the tie going down. */
  ghost predicate NearestTenthDown(n: int, x: real) {
    2.0 * AbsR(x - n as real / 10.0) <= 0.1 && (2.0 * AbsR(x - n as real / 10.0) == 0.1 ==> n as real / 10.0 < x)
  }

  /** A number that is not lowered is not halfway between two tenths. */
  lemma NoTie(d: Dec, n: int)
    requires !Lowers(d)
    ensures 20.0 * Num(d) != (2 * n + 1) as real
  {
    hide Num, Scale, Ten, Pow10;
    if d.exp >= 0 {
      var k := WholeWhenNotNegative(d);
      assert 20 * k != 2 * n + 1;
    } else {
      var k, t := Pow10(-d.exp), Ten(d.exp);
      NumOf(d.value, d.exp);
      TenAdd(d.exp, -d.exp);
      TenZero();
      TwentyTimes(d.value, t);
      OddTimes(2 * n + 1, k, t);
      NotHalfway(d.value, 2 * n + 1, -d.exp);
      ScaleOrder(20 * d.value, (2 * n + 1) * k, t);
      ScaleOrder((2 * n + 1) * k, 20 * d.value, t);
    }
  }

  lemma TwentyTimes(v: int, t: real)
    ensures Scale(20 * v, t) == 20.0 * Scale(v, t)
  {
  }

  lemma OddTimes(j: int, k: int, t: real)
    requires Scale(k, t) == 1.0
    ensures Scale(j * k, t) == j as real
  {
    ScaleMul(j, k, t);
    hide Scale;
    ScaleUnit(j);
  }

  lemma TenFirst(x: int, y: int)
    ensures x * (10 * y) == 10 * (x * y)
  {
  }

  lemma NotHalfway(v: int, odd: int, k: nat)
    requires k > 0 && odd % 2 == 1 && v % 5 != 0
    ensures 20 * v != odd * Pow10(k)
  {
    var p := Pow10(k - 1);
    assert Pow10(k) == 10 * p;
    if k > 1 {
      var m := Pow10(k - 2);
      assert p == 10 * m;
      hide Pow10;
      TenFirst(odd, p);
      TenFirst(odd, m);
      NotFiveFold(v, odd * m);
    } else {
      TenFirst(odd, p);
    }
  }

  lemma NotFiveFold(v: int, m: int)
    requires v % 5 != 0
    ensures 20 * v != 10 * (10 * m)
  {
    assert 20 * v == 10 * (10 * m) ==> v == 5 * m;
  }

  /** By how much the number exceeds the least number that rounds to n tenths. */
  ghost function Margin(d: Dec, n: int): real {
    Num(d) - (n as real - 0.5) / 10.0
  }

  /** How much the interval 15 takes off. */
  ghost function Shift(d: Dec): real {
    Num(d) - Num(ShiftedDown(d))
  }

  /** The interval 15 rounds to the nearest ten hundredths, the tie going down, exactly when it does not
      lower the number or what it takes off does not reach below the numbers that round there, and is
      something on a positive tie. */
  lemma RoundCash15Iff(d: Dec, n: int)
    requires InInt32(d.exp) && NearestTenthDown(n, Num(d))
    ensures d.RoundCash(15) == Some(Dec(n * 10, -2))
       <==> || !Lowers(d)
            || (&& (Shift(d) < Margin(d, n) || (Shift(d) == Margin(d, n) && n >= 1))
                && (Shift(d) == 0.0 && Margin(d, n) == 0.1 ==> n < 0))
  {
    var k := RoundCashNearest(d, 15);
    TenthUnit(k);
    if Lowers(d) {
      ShiftIsPositive(d);
    } else {
      NoTie(d, n);
      NoTie(d, n - 1);
    }
    hide Num, Dec.RoundCash, Scale, ShiftedDown, Lowers;
    TenthsMeet(k, n, Num(d), Shift(d));
  }

  /** The linear core: k tenths nearest to x - shift, ties away from zero, against n nearest to x. */
  lemma TenthsMeet(k: int, n: int, x: real, shift: real)
    requires shift >= 0.0 && NearestTenthDown(n, x)
    requires var y := x - shift;
             && 2.0 * AbsR(y - k as real / 10.0) <= 0.1
             && (2.0 * AbsR(y - k as real / 10.0) == 0.1 ==> AbsR(k as real / 10.0) > AbsR(y))
    ensures var margin := x - (n as real - 0.5) / 10.0;
            k == n <==> && (shift < margin || (shift == margin && n >= 1))
                        && (shift == 0.0 && margin == 0.1 ==> n < 0)
  {
    if k < n {
      assert k as real <= n as real - 1.0;
    } else if k > n {
      assert k as real >= n as real + 1.0;
    }
  }

  lemma TenthUnit(k: int)
    ensures Scale(k, 10.0 / 100.0) == k as real / 10.0
  {
  }

  lemma ShiftIsPositive(d: Dec)
    requires Lowers(d)
    ensures Shift(d) >= 0.0 && Shift(d) == Num(Dec(Xor(10, -d.exp), d.exp))
  {
    var x := Xor(10, -d.exp);
    ScaleAdd(d.value, d.value - x, Ten(d.exp));
    ScaleSign(x, Ten(d.exp));
    hide Scale, Ten, Xor;
  }

  /** On amounts in hundredths, what cash rounding is for, the interval 15 is right exactly when the amount
      is not already a multiple of ten: those it takes down by a whole tenth. */
  lemma RoundCash15OnHundredths(v: int, n: int)
    requires NearestTenthDown(n, v as real / 100.0)
    ensures Dec(v, -2).RoundCash(15) == Some(Dec(n * 10, -2)) <==> v % 10 != 0
  {
    var d := Dec(v, -2);
    Hundredths(v);
    ShiftOfHundredths(v);
    hide Num, Dec.RoundCash, Lowers, Shift, Margin, NearestTenthDown, ShiftedDown;
    RoundCash15Iff(d, n);
    MarginOf(v, n);
    FiveApart(v, n);
  }

  lemma Hundredths(v: int)
    ensures Num(Dec(v, -2)) == v as real / 100.0
  {
    assert Ten(-1) == 0.1 && Ten(-2) == 0.01;
  }

  lemma ShiftOfHundredths(v: int)
    ensures Lowers(Dec(v, -2)) <==> v % 5 == 0
    ensures v % 5 == 0 ==> ShiftedDown(Dec(v, -2)) == Dec(v - 8, -2) && Shift(Dec(v, -2)) == 0.08
  {
    assert Xor(10, 2) == 8;
    hide Xor;
    Hundredths(v);
    Hundredths(v - 8);
    hide Num;
  }

  /** Distances in hundredths. */
  lemma MarginOf(v: int, n: int)
    requires NearestTenthDown(n, v as real / 100.0)
    ensures Margin(Dec(v, -2), n) == (v - 10 * n + 5) as real / 100.0
    ensures -5 < v - 10 * n <= 5
  {
    Hundredths(v);
    hide Num;
    var gap := v - 10 * n;
    assert v as real / 100.0 - n as real / 10.0 == gap as real / 100.0;
  }

  lemma FiveApart(v: int, n: int)
    requires -5 < v - 10 * n <= 5
    ensures v % 5 == 0 ==> v == 10 * n || v == 10 * n + 5
    ensures v == 10 * n <==> v % 10 == 0
    ensures v % 5 != 0 ==> v % 10 != 0
  {
    LastDigit(v);
    var k := v / 10;
    assert k == n || (k == n - 1 && v % 10 > 5);
  }

  lemma LastDigit(v: int)
    ensures v == 10 * (v / 10) + v % 10 && 0 <= v % 10 < 10
    ensures v % 5 == 0 <==> v % 10 == 0 || v % 10 == 5
  {
    var q, r := v / 10, v % 10;
    if r < 5 {
      Mod5(v, 2 * q, r);
    } else {
      Mod5(v, 2 * q + 1, r - 5);
    }
  }

  lemma Mod5(v: int, q: int, r: int)
    requires v == 5 * q + r && 0 <= r < 5
    ensures v % 5 == r
  {
  }

  /** Multiples of ten cents lose ten cents: 3.40 becomes 3.30. */
  lemma RoundCash15TakesTen(m: int)
    ensures Dec(10 * m, -2).RoundCash(15) == Some(Dec(10 * (m - 1), -2))
  {
    ShiftedTens(m);
    CashUnitDivisor(15);
    assert InInt32(-2);
    hide *;
    var k := RoundCashNearest(Dec(10 * m, -2), 15);
    JustBelow(k, m);
  }

  lemma ShiftedTens(m: int)
    ensures ShiftedDown(Dec(10 * m, -2)) == Dec(10 * m - 8, -2)
  {
    assert (10 * m) % 5 == 0;
    ShiftOfHundredths(10 * m);
    hide ShiftedDown, Lowers, Shift;
  }

  lemma JustBelow(k: int, m: int)
    requires NearestAway(k, 10.0 / 100.0, Num(Dec(10 * m - 8, -2)))
    ensures k == m - 1
  {
    Hundredths(10 * m - 8);
    TenthUnit(k);
    hide Scale, Num;
    var gap := 10 * m - 8 - 10 * k;
    assert (10 * m - 8) as real / 100.0 - k as real / 10.0 == gap as real / 100.0;
  }
}
