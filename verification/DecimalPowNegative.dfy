/** Powers with a negative whole exponent (pkg/util/decimal.go): the same halving on the other side of zero,
    with a division by the base where the exponent is odd. */
module DecimalPowNegative {
  import opened Options
  import opened IntegerMath
  import opened Decimals
  import opened DecimalRounding
  import opened DecimalRemainder
  import opened DecimalPow

  /** The power -f by halving whole numbers: the square of the power -(f / 2), divided by d if f is odd. */
  function NegativePower(d: Dec, f: nat): Option<Dec> {
    if f == 0 then Some(Dec(1, 0))
    else
      match NegativePower(d, f / 2)
      case None => None
      case Some(t) =>
        match t.Mul(t)
        case None => None
        case Some(square) => if f % 2 == 0 then Some(square) else square.Div(d)
  }

  // ----- Negation -----

  lemma QuoRemNeg(a: int, b: int)
    requires b != 0
    ensures Quo(-a, b) == -Quo(a, b) && Rem(-a, b) == -Rem(a, b)
  {
    QuoRemBounds(a, b);
    RemDef(a, b);
    var q, r := Quo(a, b), Rem(a, b);
    hide Quo, Rem;
    assert -q * b == -(q * b);
    QuoUnique(-a, b, -q, -r);
  }

  lemma RoundedQuoNeg(a: int, b: int)
    requires b != 0
    ensures RoundedQuo(-a, b) == -RoundedQuo(a, b)
  {
    hide Quo, Rem;
    QuoRemNeg(a, b);
    QuoRemBounds(a, b);
    RemDef(a, b);
    assert a == 0 ==> Rem(a, b) == 0;
    FlipSign(a, b);
  }

  lemma FlipSign(a: int, b: int)
    ensures Sign(-a) * Sign(b) == -(Sign(a) * Sign(b))
    ensures a != 0 && b != 0 ==> Sign(a) * Sign(b) != 0
  {
  }

  lemma AtNeg(d: Dec, m: int)
    requires m <= d.exp
    ensures At(d.Neg(), m) == -At(d, m)
  {
  }

  /** Division is symmetric in the sign of the dividend. */
  lemma DivRoundNeg(d: Dec, d2: Dec, precision: int)
    requires d2.value != 0 && DivRoundFits(d.exp, d2.exp, precision)
    ensures d.DivRound(d2, precision).Some?
    ensures d.Neg().DivRound(d2, precision) == Some(d.DivRound(d2, precision).value.Neg())
  {
    hide Scale, Ten, Num, At, RoundedQuo, Dec.DivRound;
    var m, a, b := DivRoundIntegers(d, d2, precision);
    var m', a', b' := DivRoundIntegers(d.Neg(), d2, precision);
    AtNeg(d, m);
    RoundedQuoNeg(a, b);
  }

  /** So is the integer part, within int64. */
  lemma IntPartNeg(d: Dec)
    requires 0 <= d.IntPart() == d.Rescale(0).value
    ensures d.Neg().IntPart() == -d.IntPart()
  {
    if d.exp < 0 {
      QuoRemNeg(d.value, Pow10(-d.exp));
    } else {
      assert (-d.value) * Pow10(d.exp) == -(d.value * Pow10(d.exp));
    }
    hide Quo, Pow10;
  }

  // ----- Whole negative exponents -----

  /** A level of the halving below zero. */
  function Below(x: nat): Dec {
    Dec(x, -DIVISION_PRECISION).Neg()
  }

  lemma NegLevel(x: nat, f: nat)
    requires f * P <= x < (f + 1) * P && f < 0x8000_0000_0000_0000
    ensures Below(x).IntPart() == 0 - f
  {
    IntPartOfLevel(x, f);
    LevelInRange(x, f);
    hide Dec.IntPart, Dec.Rescale, Dec.Neg, Pow10;
    IntPartNeg(Dec(x, -DIVISION_PRECISION));
  }

  lemma NegHalf(x: nat)
    ensures Below(x).Div(TWO) == Some(Below((x + 1) / 2))
  {
    HalfLevel(x);
    hide Dec.DivRound, Dec.Neg;
    DivRoundNeg(Dec(x, -DIVISION_PRECISION), TWO, DIVISION_PRECISION);
  }

  lemma LevelInRange(x: nat, f: nat)
    requires f * P <= x < (f + 1) * P && f < 0x8000_0000_0000_0000
    ensures Dec(x, -DIVISION_PRECISION).Rescale(0).value == f
  {
    var q, r := f, x - f * P;
    QuoUnique(x, P, q, r);
    hide Quo, Rem;
  }

  /** One call of Pow on a negative whole exponent. */
  lemma PowUnfolded(d: Dec, d2: Dec, f: nat, half: Dec)
    requires InInt32(d2.exp) && f > 0 && d2.IntPart() == 0 - f && d2.Div(TWO) == Some(half)
    requires InInt32(half.exp) && Pow(d, half) == NegativePower(d, f / 2)
    ensures Pow(d, d2) == NegativePower(d, f)
  {
    RemTwo(f);
    hide Dec.Div, Dec.Mul, Dec.IntPart, Rem;
  }

  lemma RemTwo(f: nat)
    ensures Rem(0 - f, 2) == 0 <==> f % 2 == 0
  {
  }

  lemma {:induction false} PowAtNegativeLevel(d: Dec, x: nat, n: nat, k: nat, f: nat)
    requires k <= 53 && Ceiling(x, n, PowInt(2, k))
    requires f * PowInt(2, k) <= n < (f + 1) * PowInt(2, k)
    requires n < 0x20_0000_0000_0000
    ensures Pow(d, Below(x)) == NegativePower(d, f)
    decreases f
  {
    hide Ceiling, Dec.Div, Dec.IntPart, Dec.Mul;
    var t := PowInt(2, k);
    PowersOfTwo(k);
    CeilingIntPart(x, n, t, f);
    FitsInt64(f, t, n);
    NegLevel(x, f);
    if f > 0 {
      var h, y := f / 2, (x + 1) / 2;
      FitsLevel(f, t, n, k);
      HalfOfCeiling(x, n, t);
      NextFloor(f, t, n);
      PowAtNegativeLevel(d, y, n, k + 1, h);
      NegHalf(x);
      PowUnfolded(d, Below(x), f, Below(y));
    }
  }

  /** For every decimal that denotes -n, Pow is the recursion on whole numbers, in spite of the rounding of
      the exponents it halves. */
  lemma PowNegative(d: Dec, d2: Dec, n: nat)
    requires Num(d2) == -(n as real) && n < 0x20_0000_0000_0000 && InInt32(d2.exp)
    ensures Pow(d, d2) == NegativePower(d, n)
  {
    NegIntPart(d2, n);
    if n > 0 {
      NegWholeHalf(d2, n);
      FirstCeiling(n);
      hide Num, Dec.Div, Dec.IntPart, Dec.Mul, Pow, NegativePower, Ceiling;
      PowAtNegativeLevel(d, n * (P / 2), n, 1, n / 2);
      PowUnfolded(d, d2, n, Below(n * (P / 2)));
    }
  }

  lemma NegIntPart(d2: Dec, n: nat)
    requires Num(d2) == -(n as real) && n < 0x20_0000_0000_0000
    ensures d2.IntPart() == 0 - n
  {
    NegExact(d2);
    hide Num, Dec.IntPart, Dec.Rescale;
    WholeIntPart(d2.Neg(), n);
    WholeRescaled(d2.Neg(), n);
    IntPartNeg(d2.Neg());
    assert d2.Neg().Neg() == d2;
  }

  lemma NegWholeHalf(d2: Dec, n: nat)
    requires Num(d2) == -(n as real) && 0 < n < 0x20_0000_0000_0000 && InInt32(d2.exp)
    ensures P % 2 == 0 && n * (P / 2) >= 0
    ensures d2.Div(TWO) == Some(Below(n * (P / 2)))
  {
    NegExact(d2);
    NegIntPart(d2, n);
    HalfFits(d2);
    hide Num, Dec.DivRound, Dec.IntPart;
    WholeHalf(d2.Neg(), n);
    FirstCeiling(n);
    DivRoundNeg(d2.Neg(), TWO, DIVISION_PRECISION);
    assert d2.Neg().Neg() == d2;
  }

  lemma WholeRescaled(d: Dec, n: nat)
    requires Num(d) == n as real && n < 0x8000_0000_0000_0000
    ensures d.Rescale(0).value == n
  {
    var m := Min(d.exp, 0);
    WholeAt(d, n, m);
    hide Num;
    if d.exp < 0 {
      assert d.value == n * Pow10(-d.exp);
      QuoUnique(d.value, Pow10(-d.exp), n, 0);
    } else {
      RescaleDown(d, 0);
    }
  }

  // ----- What the negative powers are -----

  /** Without an integer part the power is one. */
  lemma PowOfFraction(d: Dec, d2: Dec)
    requires InInt32(d2.exp) && d2.IntPart() == 0
    ensures Pow(d, d2) == Some(Dec(1, 0))
  {
  }

  /** One half is 2 to the power -1. */
  lemma HalfIsPower()
    ensures Pow(Dec(2, 0), Dec(-1, 0)) == Some(Dec(5000000000000000, -16))
  {
    WholeNum(-1);
    PowNegative(Dec(2, 0), Dec(-1, 0), 1);
    Pow10Values();
    WholeQuotient(1, 2, P / 2);
    assert NegativePower(Dec(2, 0), 0) == Some(Dec(1, 0));
    hide Num, Dec.Div, Pow, Pow10;
  }

  /** Zero has no negative powers. */
  lemma {:induction false} NoPowerOfZero(d: Dec, n: nat)
    requires d.value == 0 && n > 0
    ensures NegativePower(d, n).None?
  {
    if n > 1 {
      NoPowerOfZero(d, n / 2);
    }
  }

  /** The places of the power -f: 16 for an odd f, doubled with each squaring. */
  ghost function PowerPlaces(f: nat): nat
    requires f > 0
  {
    if f % 2 == 1 then DIVISION_PRECISION else 2 * PowerPlaces(f / 2)
  }

  /** No square on the way has more places than an int32 exponent can say. */
  ghost predicate SquaresFit(f: nat) {
    f > 1 ==> SquaresFit(f / 2) && 2 * PowerPlaces(f / 2) <= 0x8000_0000
  }

  lemma DivPlaces(d: Dec, d2: Dec)
    requires d2.value != 0
    ensures d.Div(d2).Some? && d.Div(d2).value.exp == -DIVISION_PRECISION
  {
  }

  /** When there is a power, and with how many places. */
  lemma {:induction false} NegativePowerDefined(d: Dec, f: nat)
    requires f > 0
    ensures NegativePower(d, f).Some? <==> d.value != 0 && SquaresFit(f)
    ensures NegativePower(d, f).Some? ==> NegativePower(d, f).value.exp == 0 - PowerPlaces(f)
  {
    hide Dec.Div;
    if d.value == 0 {
      NoPowerOfZero(d, f);
    } else {
      if f > 1 {
        NegativePowerDefined(d, f / 2);
      }
      if NegativePower(d, f / 2).Some? {
        var t := NegativePower(d, f / 2).value;
        if t.Mul(t).Some? {
          DivPlaces(t.Mul(t).value, d);
        }
      }
    }
  }

  /** An even power is the square of the power of half the exponent, and an odd one that square divided by
      the base: the decimal of 16 places for which its product with the base is nearest to the square. */
  lemma NegativePowerStep(d: Dec, f: nat)
    requires f > 0 && NegativePower(d, f).Some?
    ensures d.value != 0 && NegativePower(d, f / 2).Some? && NegativePower(d, 0) == Some(Dec(1, 0))
    ensures var t, r := NegativePower(d, f / 2).value, NegativePower(d, f).value;
            && t.Mul(t).Some?
            && (f % 2 == 0 ==> r == t.Mul(t).value)
            && (f % 2 == 1 && DivRoundFits(2 * t.exp, d.exp, DIVISION_PRECISION) ==>
                  IsRoundedQuotient(r, t.Mul(t).value, d, DIVISION_PRECISION))
  {
    if d.value == 0 {
      NoPowerOfZero(d, f);
    }
    var t := NegativePower(d, f / 2).value;
    if f % 2 == 1 && DivRoundFits(2 * t.exp, d.exp, DIVISION_PRECISION) {
      DivRoundNearest(t.Mul(t).value, d, DIVISION_PRECISION);
    }
    hide Num, Dec.DivRound, IsRoundedQuotient, DivRoundFits, StepOf;
  }

  // ----- When they are exact -----

  /** r is 1 / x. */
  ghost predicate Inverse(r: real, x: real) {
    Times(r, x) == 1.0
  }

  /** The power -f of d has at most 16 places, and so do those of the exponents halved on the way that are
      odd; the exponents fit. */
  ghost predicate Representable(d: Dec, f: nat) {
    f > 0 ==>
      && Representable(d, f / 2) && NegativePower(d, f).Some?
      && (f % 2 == 1 ==>
            && DivRoundFits(2 * NegativePower(d, f / 2).value.exp, d.exp, DIVISION_PRECISION)
            && exists c: int :: InverseAt(c, d, f))
  }

  /** c units of 10^-16 are the power -f of d. */
  ghost predicate InverseAt(c: int, d: Dec, f: nat) {
    Inverse(Num(Dec(c, -DIVISION_PRECISION)), PowerOf(Num(d), f))
  }

  lemma {:induction false} PowerSum(x: real, h: nat, k: nat)
    ensures PowerOf(x, h + k) == Times(PowerOf(x, h), PowerOf(x, k))
  {
    if h > 0 {
      PowerSum(x, h - 1, k);
      ProductOfThree(x, PowerOf(x, h - 1), PowerOf(x, k));
    }
  }

  lemma ProductOfThree(x: real, y: real, z: real)
    ensures Times(x, Times(y, z)) == Times(Times(x, y), z)
  {
  }

  lemma TimesSwap(x: real, y: real)
    ensures Times(x, y) == Times(y, x) && Times(x, 1.0) == x
  {
  }

  lemma SquareOfInverse(r: real, x: real)
    requires Inverse(r, x)
    ensures Inverse(Times(r, r), Times(x, x))
  {
    ProductOfThree(r, r, Times(x, x));
    ProductOfThree(r, x, x);
    TimesSwap(x, 1.0);
    hide Times;
  }

  /** A nearest multiple of a number is that number when it is a multiple. */
  lemma NearestIsExact(r: int, c: int, unit: real, x: real)
    requires unit != 0.0 && NearestAway(r, unit, x) && x == Scale(c, unit)
    ensures r == c
  {
    ScaleAdd(c, r, unit);
    FarMultiple(c - r, unit);
    hide Scale;
  }

  lemma FarMultiple(k: int, unit: real)
    requires unit != 0.0
    ensures k != 0 ==> AbsR(Scale(k, unit)) >= AbsR(unit) && AbsR(unit) > 0.0
  {
    assert Scale(k, unit) == k as real * unit;
    if k >= 1 {
      assert (k as real - 1.0) * AbsR(unit) >= 0.0;
    } else if k <= -1 {
      assert (-k as real - 1.0) * AbsR(unit) >= 0.0;
    }
  }

  /** Only one number is the inverse of x; if c * d is that of x, the quotient is c. */
  lemma SameInverse(s: real, x: real, c: real, d: real)
    requires Inverse(s, x) && Inverse(c, Times(d, x))
    ensures s == Times(c, d)
  {
    hide Times;
    ProductOfThree(c, d, x);
    ProductOfThree(Times(c, d), x, s);
    TimesSwap(s, x);
    TimesSwap(Times(c, d), 1.0);
    TimesSwap(1.0, s);
  }

  lemma SquareIsInverse(t: Dec, x: real)
    requires t.Mul(t).Some? && Inverse(Num(t), x)
    ensures Inverse(Num(t.Mul(t).value), Times(x, x))
  {
    hide *;
    MulExact(t, t);
    TimesIs(Num(t), Num(t));
    SquareOfInverse(Num(t), x);
  }

  lemma ExactQuotient(d: Dec, square: Dec, r: Dec, x: real, c: int)
    requires d.value != 0 && IsRoundedQuotient(r, square, d, DIVISION_PRECISION)
    requires Inverse(Num(square), x) && Inverse(Num(Dec(c, -DIVISION_PRECISION)), Times(Num(d), x))
    ensures r == Dec(c, -DIVISION_PRECISION)
  {
    hide Num, Scale, Ten, NearestAway, Inverse, StepOf, Times;
    QuotientUnit(d, c);
    SameInverse(Num(square), x, Num(Dec(c, -DIVISION_PRECISION)), Num(d));
    NearestIsExact(r.value, c, Num(StepOf(d, DIVISION_PRECISION)), Num(square));
  }

  lemma QuotientUnit(d: Dec, c: int)
    requires d.value != 0
    ensures Scale(c, Num(StepOf(d, DIVISION_PRECISION))) == Times(Num(Dec(c, -DIVISION_PRECISION)), Num(d))
    ensures Num(StepOf(d, DIVISION_PRECISION)) != 0.0
  {
    ScaleSign(d.value, Ten(d.exp - DIVISION_PRECISION));
    NumOf(d.value, d.exp - DIVISION_PRECISION);
    hide *;
    StepNum(d, DIVISION_PRECISION);
    TimesIs(Num(Dec(c, -DIVISION_PRECISION)), Num(d));
    NumOf(c, -DIVISION_PRECISION);
    ScaleTimes(c, Ten(-DIVISION_PRECISION), Num(d), Num(StepOf(d, DIVISION_PRECISION)));
  }

  /** The power is then exactly 1 / d^f. */
  lemma {:induction false} NegativePowerExact(d: Dec, f: nat)
    requires d.value != 0 && Representable(d, f)
    ensures NegativePower(d, f).Some? && Inverse(Num(NegativePower(d, f).value), PowerOf(Num(d), f))
  {
    if f == 0 {
      WholeNum(1);
      hide Num;
    } else {
      NegativePowerExact(d, f / 2);
      NegativePowerStep(d, f);
      ExactStep(d, f, NegativePower(d, f / 2).value, NegativePower(d, f).value);
    }
  }

  lemma ExactStep(d: Dec, f: nat, t: Dec, r: Dec)
    requires d.value != 0 && f > 0 && t.Mul(t).Some? && Inverse(Num(t), PowerOf(Num(d), f / 2))
    requires f % 2 == 0 ==> r == t.Mul(t).value
    requires f % 2 == 1 ==> IsRoundedQuotient(r, t.Mul(t).value, d, DIVISION_PRECISION)
    requires f % 2 == 1 ==> exists c: int :: InverseAt(c, d, f)
    ensures Inverse(Num(r), PowerOf(Num(d), f))
  {
    var x := PowerOf(Num(d), f / 2);
    SquareIsInverse(t, x);
    PowerSum(Num(d), f / 2, f / 2);
    if f % 2 == 1 {
      var c: int :| InverseAt(c, d, f);
      PowerNext(Num(d), f);
      ExactQuotient(d, t.Mul(t).value, r, Times(x, x), c);
    }
    hide Num, Inverse, IsRoundedQuotient, Dec.Mul, Times;
  }

  lemma PowerNext(x: real, f: nat)
    requires f > 0
    ensures PowerOf(x, f) == Times(x, PowerOf(x, f - 1))
  {
  }
}
