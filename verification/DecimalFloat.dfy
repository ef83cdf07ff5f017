/** Decimals from IEEE 754 binary64 numbers (pkg/util/decimal.go).  The number is given by its three bit
    fields, laid out as in section 3.4 of IEEE 754-2008. */
module DecimalFloat {
  import opened Options
  import opened IntegerMath
  import opened Decimals
  import opened DecimalRounding

  const MIN_INT32 := -0x8000_0000

  /** Sign bit, 11-bit biased exponent and 52-bit fraction. */
  datatype Float64 = Float64(negative: bool, biased: nat, fraction: nat) {
    ghost predicate Valid() {
      biased < 0x800 && fraction < 0x10_0000_0000_0000
    }

    /** NaN or an infinity. */
    predicate Special() {
      biased == 0x7ff
    }
  }

  /** 2 to the power e. */
  ghost function Two(e: int): (r: real)
    ensures r > 0.0
    decreases Abs(e)
  {
    if e == 0 then 1.0 else if e > 0 then 2.0 * Two(e - 1) else Two(e + 1) / 2.0
  }

  /** 5 to the power e. */
  ghost function Five(e: int): (r: real)
    ensures r > 0.0
    decreases Abs(e)
  {
    if e == 0 then 1.0 else if e > 0 then 5.0 * Five(e - 1) else Five(e + 1) / 5.0
  }

  /** The number of a finite float: subnormals have no hidden bit. */
  ghost function FloatNum(f: Float64): real {
    var magnitude :=
      if f.biased == 0 then Scale(f.fraction, Two(-1074))
      else Scale(f.fraction + 0x10_0000_0000_0000, Two(f.biased - 1075));
    if f.negative then -magnitude else magnitude
  }

  /** The size of the float is an odd number times 2^e2. */
  ghost predicate OddTimesTwo(f: Float64, m: nat, e2: int) {
    m % 2 == 1 && Scale(m, Two(e2)) == (if f.negative then -FloatNum(f) else FloatNum(f))
  }

  lemma {:induction false} TwoAdd(m: int, n: nat)
    ensures PowInt(2, n) > 0
    ensures Two(m + n) == Scale(PowInt(2, n), Two(m))
  {
    if n > 0 {
      TwoAdd(m, n - 1);
      assert Two(m + n) == 2.0 * Two(m + n - 1);
      ScaleMul(2, PowInt(2, n - 1), Two(m));
    }
  }

  lemma {:induction false} FiveAdd(m: int, n: nat)
    ensures PowInt(5, n) > 0
    ensures Five(m + n) == Scale(PowInt(5, n), Five(m))
  {
    if n > 0 {
      FiveAdd(m, n - 1);
      assert Five(m + n) == 5.0 * Five(m + n - 1);
      ScaleMul(5, PowInt(5, n - 1), Five(m));
    }
  }

  lemma {:induction false} TenIsTwoFive(e: int)
    ensures Ten(e) == Two(e) * Five(e)
    decreases Abs(e)
  {
    if e > 0 {
      TenIsTwoFive(e - 1);
      TenSteps(Two(e - 1), Five(e - 1), Two(e), Five(e));
    } else if e < 0 {
      TenIsTwoFive(e + 1);
      TenSteps(Two(e), Five(e), Two(e + 1), Five(e + 1));
    }
  }

  lemma TenSteps(x: real, y: real, x2: real, y5: real)
    requires x2 == 2.0 * x && y5 == 5.0 * y
    ensures x2 * y5 == 10.0 * (x * y)
  {
  }

  lemma ScaleBoth(j: int, k: int, x: real, y: real, p: real)
    requires p == x * y
    ensures Scale(j, x) * Scale(k, y) == Scale(j * k, p)
  {
  }

  /** The scale at which both m * 2^e2 and 10^exp are whole. */
  ghost function Grain(e2: int, exp: int): real {
    Two(Min(e2, exp)) * Five(Min(0, exp))
  }

  lemma GrainPositive(e2: int, exp: int)
    ensures Grain(e2, exp) > 0.0
  {
  }

  /** Numerator and denominator of m * 2^e2 / 10^exp, as the program builds them. */
  ghost function Numerator(m: nat, e2: int, exp: int): int {
    m * PowInt(2, e2 - Min(e2, exp)) * PowInt(5, 0 - Min(0, exp))
  }

  ghost function Denominator(e2: int, exp: int): int {
    PowInt(2, exp - Min(e2, exp)) * PowInt(5, exp - Min(0, exp))
  }

  lemma NumeratorScaled(m: nat, e2: int, exp: int)
    ensures Scale(m, Two(e2)) == Scale(Numerator(m, e2, exp), Grain(e2, exp))
  {
    hide Two, Five, Scale;
    var lo, j, k := Min(e2, exp), PowInt(2, e2 - Min(e2, exp)), PowInt(5, 0 - Min(0, exp));
    TwoAdd(lo, e2 - lo);
    FiveAdd(Min(0, exp), 0 - Min(0, exp));
    FiveZero();
    ScaleMul(m, j, Two(lo));
    var x, y := Two(lo), Five(Min(0, exp));
    ScaleBoth(m * j, k, x, y, Grain(e2, exp));
    TimesOne(Scale(m * j, x), Scale(k, y));
  }

  lemma TimesOne(x: real, y: real)
    requires y == 1.0
    ensures x * y == x
  {
  }

  lemma FiveZero()
    ensures Five(0) == 1.0
  {
  }

  lemma DenominatorScaled(e2: int, exp: int)
    ensures Denominator(e2, exp) > 0
    ensures Ten(exp) == Scale(Denominator(e2, exp), Grain(e2, exp))
  {
    hide Two, Five, Scale, Ten;
    var lo, lo5 := Min(e2, exp), Min(0, exp);
    TenIsTwoFive(exp);
    TwoAdd(lo, exp - lo);
    FiveAdd(lo5, exp - lo5);
    ScaleBoth(PowInt(2, exp - lo), PowInt(5, exp - lo5), Two(lo), Five(lo5), Grain(e2, exp));
    MulMono(1, PowInt(2, exp - lo), PowInt(5, exp - lo5));
  }

  /** Adding half the divisor and dividing rounds half up, which for these is away from zero. */
  lemma RoundedByHalf(n: nat, t: int)
    requires t > 0
    ensures HalfAway((n + t / 2) / t, n, t)
  {
    var m := n + t / 2;
    assert m == (m / t) * t + m % t;
    HalfUp(n, t, m / t, m % t);
  }

  lemma HalfUp(n: nat, t: int, q: int, r: int)
    requires t > 0 && n + t / 2 == q * t + r && 0 <= r < t && q >= 0
    ensures HalfAway(q, n, t)
  {
    var p := q * t;
    assert p >= 0;
  }

  lemma NegatedNearest(k: int, unit: real, x: real)
    ensures NearestAway(k, unit, x) ==> NearestAway(-k, unit, -x)
  {
    assert Scale(-k, unit) == -Scale(k, unit);
  }

  /** The result for m * 2^e2 at exponent exp, before the sign. */
  lemma FloatRounded(m: nat, e2: int, exp: int)
    ensures Denominator(e2, exp) > 0
    ensures var n, t := Numerator(m, e2, exp), Denominator(e2, exp);
            NearestAway((n + t / 2) / t, Ten(exp), Scale(m, Two(e2)))
    ensures exp <= Min(e2, 0) ==> Denominator(e2, exp) == 1
    ensures exp <= Min(e2, 0) ==> Num(Dec(Numerator(m, e2, exp), exp)) == Scale(m, Two(e2))
  {
    hide Scale, Two, Ten, NearestAway, Grain;
    var n, t := Numerator(m, e2, exp), Denominator(e2, exp);
    NumeratorScaled(m, e2, exp);
    DenominatorScaled(e2, exp);
    GrainPositive(e2, exp);
    NumeratorNonneg(m, e2, exp);
    hide Numerator, Denominator;
    RoundedByHalf(n, t);
    NearestFromIntegers((n + t / 2) / t, n, t, Grain(e2, exp), Scale(m, Two(e2)), Ten(exp));
    if exp <= Min(e2, 0) {
      DenominatorOne(e2, exp);
      ScaleOne(Grain(e2, exp));
      NumOf(n, exp);
    }
  }

  lemma DenominatorOne(e2: int, exp: int)
    requires exp <= Min(e2, 0)
    ensures Denominator(e2, exp) == 1
  {
  }

  lemma NumeratorNonneg(m: nat, e2: int, exp: int)
    ensures Numerator(m, e2, exp) >= 0
  {
    var j, k := e2 - Min(e2, exp), 0 - Min(0, exp);
    TwoAdd(0, j);
    FiveAdd(0, k);
    MulMono(0, m, PowInt(2, j));
    MulMono(0, m * PowInt(2, j), PowInt(5, k));
  }

  lemma HalveMantissa(m: nat, e: int)
    requires m % 2 == 0
    ensures Scale(m / 2, Two(e + 1)) == Scale(m, Two(e))
  {
  }

  /** The decoder: normalise, choose the exponent, scale by powers of five and two, round, sign.
      The result is the nearest multiple of 10^exp, ties away from zero; or, when that would take more
      digits than the number has, the number itself at a larger exponent, that of its last binary digit
      or 0. */
  method NewFromFloatWithExponent(f: Float64, exp: int) returns (r: Option<Dec>)
    requires f.Valid()
    ensures r.None? <==> f.Special()
    ensures r.Some? && FloatNum(f) == 0.0 ==> r.value == Dec(0, 0)
    ensures r.Some? && FloatNum(f) != 0.0 ==>
              || (r.value.exp == exp && NearestAway(r.value.value, Ten(exp), FloatNum(f)))
              || (r.value.exp > exp && Num(r.value) == FloatNum(f))
    ensures r.Some? && FloatNum(f) != 0.0 ==>
              exists m: nat, e2: int :: OddTimesTwo(f, m, e2)
                && r.value.exp == (if exp < 0 && exp < e2 then Min(e2, 0) else exp)
    ensures r.Some? && exp <= -1074 ==> Num(r.value) == FloatNum(f)
  {
    hide Scale, Two, Ten, NearestAway, Num;
    if f.Special() {
      return None;
    }
    var mant: nat, exp2: int := f.fraction, f.biased;
    if exp2 == 0 {
      if mant == 0 {
        ZeroFloat();
        return Some(Dec(0, 0));
      }
      exp2 := exp2 + 1;
    } else {
      mant := mant + 0x10_0000_0000_0000;
    }
    exp2 := exp2 - (1023 + 52);
    ghost var magnitude := Scale(mant, Two(exp2));
    ScaleSign(mant, Two(exp2));
    while mant % 2 == 0
      invariant mant > 0 && exp2 >= -1074
      invariant Scale(mant, Two(exp2)) == magnitude
      decreases mant
    {
      HalveMantissa(mant, exp2);
      mant := mant / 2;
      exp2 := exp2 + 1;
    }
    var e := exp;
    if e < 0 && e < exp2 {
      e := if exp2 < 0 then exp2 else 0;
    }
    FloatRounded(mant, exp2, e);
    NumeratorNonneg(mant, exp2, e);
    var dMant := ScaledQuotient(mant, exp2, e);
    NegatedNearest(dMant, Ten(e), magnitude);
    NegatedNum(dMant, e);
    if f.negative {
      dMant := -dMant;
    }
    assert OddTimesTwo(f, mant, exp2);
    r := Some(Dec(dMant, e));
  }

  lemma ZeroFloat()
    ensures Scale(0, Two(-1074)) == 0.0 && Num(Dec(0, 0)) == 0.0
  {
  }

  lemma NegatedNum(v: int, e: int)
    ensures Num(Dec(-v, e)) == -Num(Dec(v, e))
  {
  }

  /** The integer part of the decoder: multiply or divide by powers of five and two, rounding the
      division by adding half the divisor. */
  method ScaledQuotient(mant: nat, exponent2: int, exp: int) returns (dMant: int)
    ensures Denominator(exponent2, exp) > 0 && Numerator(mant, exponent2, exp) >= 0
    ensures dMant == (Numerator(mant, exponent2, exp) + Denominator(exponent2, exp) / 2) / Denominator(exponent2, exp)
  {
    hide Scale, Two, Ten;
    DenominatorScaled(exponent2, exp);
    NumeratorNonneg(mant, exponent2, exp);
    var exp2, temp := exponent2 - exp, 1;
    dMant := mant;
    if exp > 0 {
      temp := PowInt(5, exp);
    } else if exp < 0 {
      dMant := dMant * PowInt(5, -exp);
    }
    if exp2 > 0 {
      dMant := dMant * PowInt(2, exp2);
    } else if exp2 < 0 {
      temp := temp * PowInt(2, -exp2);
    }
    assert dMant == Numerator(mant, exponent2, exp) && temp == Denominator(exponent2, exp);
    if exp > 0 || exp2 < 0 {
      var halfDown := temp / 2;
      dMant := (dMant + halfDown) / temp;
    }
  }

  /** NewFromFloat denotes the float exactly. */
  method NewFromFloat(f: Float64) returns (r: Option<Dec>)
    requires f.Valid()
    ensures r.None? <==> f.Special()
    ensures r.Some? ==> Num(r.value) == FloatNum(f)
  {
    r := NewFromFloatWithExponent(f, MIN_INT32);
  }
}
