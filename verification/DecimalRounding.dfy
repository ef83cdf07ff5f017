/** What division, remainder and the rounding operations of decimals guarantee (pkg/util/decimal.go). */
module DecimalRounding {
  import opened Options
  import opened IntegerMath
  import opened Decimals

  // ----- DivRound -----

  lemma MagnitudeNum(d: Dec)
    ensures Num(d.Magnitude()) == AbsR(Num(d))
  {
  }

  /** Comparing the doubled remainder with the divisor is comparing 2|r| with |b|. */
  lemma HalfwayTest(d2: Dec, precision: int, m: int, r: int)
    requires m <= d2.exp - precision
    ensures var b := At(StepOf(d2, precision), m);
            Dec(2 * Abs(r), m + precision).Cmp(d2.Magnitude()) < 0 <==> 2 * Abs(r) < Abs(b)
  {
  }

  /** Moving a coefficient by one at its own exponent. */
  lemma NextCoefficient(q: int, e: int)
    ensures Dec(q, e).Add(Dec(1, e)) == Dec(q + 1, e)
    ensures Dec(q, e).Sub(Dec(1, e)) == Dec(q - 1, e)
  {
  }

  lemma SignOfStep(d: Dec, d2: Dec, precision: int, m: int)
    requires m <= d.exp && m <= d2.exp - precision
    ensures Sign(At(d, m)) == Sign(d.value)
    ensures Sign(At(StepOf(d2, precision), m)) == Sign(d2.value)
  {
  }

  lemma SignScaled(x: int, k: int)
    requires k > 0
    ensures Sign(x * k) == Sign(x)
  {
  }

  /** The remainder is compared at the working exponent plus the precision, even where its own exponent
      has wrapped around. */
  lemma ComparedAt(d: Dec, d2: Dec, precision: int)
    requires DivRoundFits(d.exp, d2.exp, precision)
    ensures WrapInt32(RemainderExp(d, d2, precision) + precision) == Common(d, d2, precision) + precision
  {
    Wraps(d2.exp - precision, precision);
    Wraps(Common(d, d2, precision) + precision, 0);
    hide WrapInt32;
  }

  /** The program's division is RoundedQuo of the two integers. */
  lemma DivRoundIntegers(d: Dec, d2: Dec, precision: int) returns (m: int, a: int, b: int)
    requires d2.value != 0 && DivRoundFits(d.exp, d2.exp, precision)
    ensures m == Common(d, d2, precision) && m <= d.exp && m <= StepOf(d2, precision).exp
    ensures a == At(d, m) && b == At(StepOf(d2, precision), m) && b != 0
    ensures Num(d) == Scale(a, Ten(m)) && Num(d2) * Ten(-precision) == Scale(b, Ten(m))
    ensures d.DivRound(d2, precision) == Some(Dec(RoundedQuo(a, b), -precision))
  {
    Wraps(-precision, 0);
    ComparedAt(d, d2, precision);
    hide Scale, Ten, At, Num, Quo, Rem, Abs, Sign, WrapInt32, RemainderExp, Dec.QuoRem, Dec.DivRound, Dec.Cmp,
      Dec.Magnitude;
    m, a, b := QuoRemIntegers(d, d2, precision);
    HalfwayTest(d2, precision, m, Rem(a, b));
    SignOfStep(d, d2, precision, m);
    RoundingStep(d, d2, precision, Quo(a, b), Dec(Rem(a, b), RemainderExp(d, d2, precision)));
  }

  /** DivRound from the result of QuoRem. */
  lemma RoundingStep(d: Dec, d2: Dec, precision: int, q: int, r: Dec)
    requires InInt32(-precision) && d.QuoRem(d2, precision) == Some((Dec(q, -precision), r))
    ensures var c := Dec(2 * Abs(r.value), WrapInt32(r.exp + precision)).Cmp(d2.Magnitude());
            var next := if Sign(d.value) * Sign(d2.value) < 0 then q - 1 else q + 1;
            d.DivRound(d2, precision) == Some(Dec(if c < 0 then q else next, -precision))
  {
    Wraps(-precision, 0);
    NextCoefficient(q, -precision);
    hide Dec.QuoRem, Dec.Cmp, Dec.Magnitude, Dec.Add, Dec.Sub, WrapInt32, Abs, Sign;
  }

  /** r is the multiple of 10^-precision for which r * d2 is nearest to d, ties away from zero. */
  ghost predicate IsRoundedQuotient(r: Dec, d: Dec, d2: Dec, precision: int) {
    r.exp == -precision && NearestAway(r.value, Num(StepOf(d2, precision)), Num(d))
  }

  /** The documented contract of DivRound. */
  lemma DivRoundNearest(d: Dec, d2: Dec, precision: int)
    requires d2.value != 0 && DivRoundFits(d.exp, d2.exp, precision)
    ensures d.DivRound(d2, precision).Some?
    ensures IsRoundedQuotient(d.DivRound(d2, precision).value, d, d2, precision)
  {
    StepNum(d2, precision);
    hide Scale, Ten, At, Num, Quo, Rem, Abs, NearestAway, HalfAway, RoundedQuo, Dec.DivRound;
    var m, a, b := DivRoundIntegers(d, d2, precision);
    RoundedQuoIsHalfAway(a, b);
    NearestFromIntegers(RoundedQuo(a, b), a, b, Ten(m), Num(d), Num(StepOf(d2, precision)));
  }

  // ----- Round -----

  /** The last digit dropped by Round, half away from zero. */
  function DropDigit(t: int): int {
    var shifted := if t < 0 then t - 5 else t + 5;
    var q, m := shifted / 10, shifted % 10;
    if q < 0 && m != 0 then q + 1 else q
  }

  lemma DropDigitSymmetric(t: int)
    ensures t >= 0 ==> DropDigit(t) == (t + 5) / 10
    ensures t <= 0 ==> DropDigit(t) == -((-t + 5) / 10)
  {
  }

  /** Dropping a digit of a truncated quotient rounds the untruncated one. */
  lemma DropDigitOfQuotient(v: int, k: int)
    requires k > 0
    ensures HalfAway(DropDigit(Quo(v, k)), v, 10 * k)
  {
    hide Quo, Rem, DropDigit, HalfAway;
    QuoRemBounds(v, k);
    RemDef(v, k);
    QuoSign(v, k);
    DroppedFrom(v, k, Quo(v, k), Rem(v, k));
  }

  lemma DroppedFrom(v: int, k: int, t: int, r: int)
    requires k > 0 && v == t * k + r && Abs(r) < k
    requires v >= 0 ==> t >= 0 && r >= 0
    requires v <= 0 ==> t <= 0 && r <= 0
    ensures HalfAway(DropDigit(t), v, 10 * k)
  {
    hide DropDigit;
    var z := DropDigit(t);
    var rest := t - 10 * z;
    DropDigitRest(t);
    SplitDigit(t, z, k);
    SignScaled(z, 10 * k);
    DroppedDistance(v, k, z * (10 * k), rest, r, rest * k);
  }

  lemma SplitDigit(t: int, z: int, k: int)
    ensures t * k == z * (10 * k) + (t - 10 * z) * k
  {
  }

  lemma DropDigitRest(t: int)
    ensures t >= 0 ==> DropDigit(t) >= 0 && -5 <= t - 10 * DropDigit(t) <= 4
    ensures t <= 0 ==> DropDigit(t) <= 0 && -4 <= t - 10 * DropDigit(t) <= 5
  {
  }

  lemma QuoSign(v: int, k: int)
    requires k > 0
    ensures v >= 0 ==> Quo(v, k) >= 0
    ensures v <= 0 ==> Quo(v, k) <= 0
  {
  }

  lemma DroppedDistance(v: int, k: int, p: int, rest: int, r: int, restK: int)
    requires k > 0 && Abs(r) < k && v == p + restK + r && restK == rest * k
    requires v >= 0 ==> r >= 0 && -5 <= rest <= 4 && p >= 0
    requires v <= 0 ==> r <= 0 && -4 <= rest <= 5 && p <= 0
    ensures 2 * Abs(v - p) <= Abs(10 * k)
    ensures 2 * Abs(v - p) == Abs(10 * k) ==> Abs(p) > Abs(v)
  {
    MulMono(-5, rest, k);
    MulMono(rest, 5, k);
    if v >= 0 {
      MulMono(rest, 4, k);
    }
    if v <= 0 {
      MulMono(-4, rest, k);
    }
  }

  /** Which exponents Round works with: cutting one digit later never leaves int32, and putting the
      exponent back up does so for the least int32 only. */
  lemma RoundExponents(places: int)
    requires InInt32(places)
    ensures WrapInt32(-places - 1) == -places - 1
    ensures WrapInt32(WrapInt32(-places - 1) + 1) == WrapInt32(-places)
    ensures WrapInt32(-places) == -places <==> InInt32(-places)
  {
    Wraps(-places - 1, 1);
    Wraps(-places, 0);
    hide WrapInt32;
  }

  /** The integers whose quotient Round rounds. */
  lemma RoundIntegers(d: Dec, places: int) returns (m: int, a: int, b: int)
    requires InInt32(places)
    ensures m == Min(d.exp, -places) && a == At(d, m) && b == At(Dec(1, -places), m) && b > 0
    ensures d.Round(places).exp == WrapInt32(-places) && HalfAway(d.Round(places).value, a, b)
    ensures Num(d) == Scale(a, Ten(m)) && Ten(-places) == Scale(b, Ten(m))
  {
    RoundExponents(places);
    hide WrapInt32;
    m := Min(d.exp, -places);
    a, b := At(d, m), At(Dec(1, -places), m);
    var e := -places - 1;
    var t := d.Rescale(e).value;
    assert d.Round(places).value == DropDigit(t);
    if d.exp <= e {
      var k := Pow10(e - d.exp);
      assert b == 10 * k && a == d.value * 1;
      assert t == Quo(d.value, k);
      DropDigitOfQuotient(d.value, k);
    } else {
      assert b == 1;
      RescaleDown(d, e);
      AtNext(d, m);
      DropDigitSymmetric(10 * a);
      assert t == 10 * a && DropDigit(t) == a;
      assert a * b == a;
    }
    hide Scale, Ten, At, Num, HalfAway;
    NumAt(d, m);
    NumAt(Dec(1, -places), m);
    NumOf(1, -places);
    ScaleOne(Ten(-places));
  }

  lemma ScaleOne(s: real)
    ensures Scale(1, s) == s
  {
  }

  lemma AtNext(d: Dec, m: int)
    requires m <= d.exp
    ensures At(d, m - 1) == 10 * At(d, m)
  {
  }

  /** r is the multiple of 10^-places nearest to d, ties away from zero. */
  ghost predicate IsRounded(r: Dec, d: Dec, places: int) {
    r.exp == -places && NearestAway(r.value, Num(Dec(1, -places)), Num(d))
  }

  /** The coefficient of Round is that of the nearest multiple of 10^-places, ties away from zero, for
      every int32; its exponent is -places wrapped around. */
  lemma RoundNearest(d: Dec, places: int)
    requires InInt32(places)
    ensures d.Round(places).exp == WrapInt32(-places)
    ensures NearestAway(d.Round(places).value, Num(Dec(1, -places)), Num(d))
  {
    UnitNum(places);
    hide Scale, Ten, At, Num, HalfAway, NearestAway, Quo, WrapInt32, Dec.Round;
    var m, a, b := RoundIntegers(d, places);
    NearestFromIntegers(d.Round(places).value, a, b, Ten(m), Num(d), Ten(-places));
  }

  lemma UnitNum(places: int)
    ensures Num(Dec(1, -places)) == Ten(-places)
  {
    NumOf(1, -places);
    ScaleOne(Ten(-places));
    hide Num, Scale, Ten;
  }

  /** Round keeps its contract exactly when the number of places has an int32 opposite. */
  lemma RoundHoldsIff(d: Dec, places: int)
    requires InInt32(places)
    ensures IsRounded(d.Round(places), d, places) <==> InInt32(-places)
  {
    RoundExponents(places);
    hide NearestAway, Num, WrapInt32, Dec.Round;
    RoundNearest(d, places);
  }

  /** It then gives the only decimal that meets the contract. */
  lemma RoundUnique(d: Dec, places: int, r: Dec)
    requires InInt32(places) && InInt32(-places)
    ensures r == d.Round(places) <==> IsRounded(r, d, places)
  {
    RoundHoldsIff(d, places);
    if IsRounded(r, d, places) {
      UnitNum(places);
      hide Scale, Ten, At, Num, HalfAway, NearestAway, Quo, WrapInt32, Dec.Round;
      var m, a, b := RoundIntegers(d, places);
      NearestFromIntegers(r.value, a, b, Ten(m), Num(d), Ten(-places));
      HalfAwayUnique(r.value, d.Round(places).value, a, b);
    }
  }

  /** Rounding is division by one, although the two are computed in different ways. */
  lemma RoundIsDivisionByOne(d: Dec, places: int)
    requires InInt32(places) && DivRoundFits(d.exp, 0, places)
    ensures d.DivRound(Dec(1, 0), places) == Some(d.Round(places))
  {
    RoundExponents(places);
    hide Scale, Ten, At, Num, HalfAway, Quo, Rem, RoundedQuo, Abs, WrapInt32, Dec.Round, Dec.DivRound;
    var m, a, b := DivRoundIntegers(d, Dec(1, 0), places);
    RoundedQuoIsHalfAway(a, b);
    var m', a', b' := RoundIntegers(d, places);
    HalfAwayUnique(RoundedQuo(a, b), d.Round(places).value, a, b);
  }

  // ----- RoundBank -----

  /** From a tie rounded away from zero, one step back is the other side of the tie. */
  lemma StepBack(k: int, a: int, b: int)
    requires b > 0 && HalfAway(k, a, b) && Tie(k, a, b)
    ensures k != 0
    ensures Tie(if k < 0 then k + 1 else k - 1, a, b)
  {
    assert (k + 1) * b == k * b + b && (k - 1) * b == k * b - b;
    SignScaled(k, b);
  }

  lemma BankStep(k: int, a: int, b: int)
    requires b > 0 && HalfAway(k, a, b)
    ensures HalfEven(if Tie(k, a, b) && k % 2 != 0 then (if k < 0 then k + 1 else k - 1) else k, a, b)
  {
    if Tie(k, a, b) && k % 2 != 0 {
      StepBack(k, a, b);
    }
  }

  /** The comparison with half a unit detects exactly the ties. */
  lemma TieTest(d: Dec, places: int, round: Dec, m: int, a: int, b: int)
    requires round.exp == -places && b > 0
    requires Num(d) == Scale(a, Ten(m)) && Ten(-places) == Scale(b, Ten(m))
    ensures d.Sub(round).Magnitude().Cmp(Dec(5, -places - 1)) == 0 <==> Tie(round.value, a, b)
  {
    hide Scale, Ten, Num, AbsR;
    var p := round.value * b;
    CmpIsOrder(d.Sub(round).Magnitude(), Dec(5, -places - 1));
    MagnitudeNum(d.Sub(round));
    AddSubExact(d, round);
    NumOf(round.value, -places);
    ScaleMul(round.value, b, Ten(m));
    ScaleAdd(a, p, Ten(m));
    ScaleAbs(a - p, Ten(m));
    HalfUnit(places);
    ScaleAdd(Abs(a - p), Abs(a - p), Ten(m));
    ScaleOrder(Abs(a - p) + Abs(a - p), b, Ten(m));
  }

  lemma HalfUnit(places: int)
    ensures 2.0 * Num(Dec(5, -places - 1)) == Ten(-places)
  {
  }

  /** r is the multiple of 10^-places nearest to d, with an even coefficient on ties. */
  ghost predicate IsBankRounded(r: Dec, d: Dec, places: int) {
    r.exp == -places && NearestEven(r.value, Num(Dec(1, -places)), Num(d))
  }

  lemma BankUnfolded(d: Dec, places: int)
    requires InInt32(places) && InInt32(-places)
    ensures var round := d.Round(places);
            if d.Sub(round).Magnitude().Cmp(Dec(5, -places - 1)) == 0 && round.value % 2 != 0 then
              d.RoundBank(places) == Dec(if round.value < 0 then round.value + 1 else round.value - 1, round.exp)
            else d.RoundBank(places) == round
  {
    RoundExponents(places);
    hide Dec.Round, Dec.Sub, Dec.Cmp, WrapInt32;
  }

  /** RoundBank gives the nearest multiple of 10^-places and an even coefficient on ties. */
  lemma RoundBankNearest(d: Dec, places: int)
    requires InInt32(places) && InInt32(-places)
    ensures IsBankRounded(d.RoundBank(places), d, places)
  {
    BankUnfolded(d, places);
    UnitNum(places);
    RoundExponents(places);
    hide Scale, Ten, At, Num, HalfAway, HalfEven, Tie, NearestEven, Quo, Abs, WrapInt32, Dec.Round, Dec.RoundBank,
      Dec.Sub, Dec.Cmp, Dec.Magnitude;
    var m, a, b := RoundIntegers(d, places);
    var round := d.Round(places);
    TieTest(d, places, round, m, a, b);
    BankStep(round.value, a, b);
    NearestFromIntegers(d.RoundBank(places).value, a, b, Ten(m), Num(d), Ten(-places));
  }

  /** RoundBank keeps its contract exactly when the number of places has an int32 opposite. */
  lemma RoundBankHoldsIff(d: Dec, places: int)
    requires InInt32(places)
    ensures IsBankRounded(d.RoundBank(places), d, places) <==> InInt32(-places)
  {
    RoundExponents(places);
    if InInt32(-places) {
      RoundBankNearest(d, places);
    }
    hide NearestEven, Num, WrapInt32, Dec.Sub, Dec.Cmp, Dec.Rescale;
  }

  /** It then gives the only decimal that meets the contract. */
  lemma RoundBankUnique(d: Dec, places: int, r: Dec)
    requires InInt32(places) && InInt32(-places)
    ensures r == d.RoundBank(places) <==> IsBankRounded(r, d, places)
  {
    RoundBankNearest(d, places);
    if IsBankRounded(r, d, places) {
      UnitNum(places);
      hide Scale, Ten, At, Num, HalfEven, NearestEven, Quo, WrapInt32, Dec.Round, Dec.RoundBank;
      var m, a, b := RoundIntegers(d, places);
      var bank := d.RoundBank(places);
      NearestFromIntegers(r.value, a, b, Ten(m), Num(d), Ten(-places));
      NearestFromIntegers(bank.value, a, b, Ten(m), Num(d), Ten(-places));
      HalfEvenUnique(r.value, bank.value, a, b);
    }
  }

  /** The two roundings differ exactly on ties whose coefficient away from zero is odd. */
  lemma BankDiffersOnOddTies(d: Dec, places: int)
    requires InInt32(places) && InInt32(-places)
    ensures d.RoundBank(places) != d.Round(places)
       <==> d.Round(places).value % 2 != 0 && 2.0 * AbsR(Num(d) - Num(d.Round(places))) == Ten(-places)
  {
    BankUnfolded(d, places);
    hide Scale, Ten, Num, Quo, Dec.Round, Dec.RoundBank, Dec.Sub, Dec.Cmp, Dec.Magnitude;
    var round := d.Round(places);
    CmpIsOrder(d.Sub(round).Magnitude(), Dec(5, -places - 1));
    MagnitudeNum(d.Sub(round));
    AddSubExact(d, round);
    HalfUnit(places);
  }
}
