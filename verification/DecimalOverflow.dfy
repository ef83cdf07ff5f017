/** For which exponents division keeps its contract (pkg/util/decimal.go).  Exponents are int32s and the
    program subtracts them without widening first; past that range the division is by the wrong power of
    ten.  Whether that can happen depends on the exponents and the precision alone. */
module DecimalOverflow {
  import opened Options
  import opened IntegerMath
  import opened Decimals
  import opened DecimalRounding

  // ----- Powers of ten are far apart -----

  lemma TenApart(a: int, b: int)
    ensures a < b ==> 10.0 * Ten(a) <= Ten(b)
  {
    if a < b {
      TenAdd(a, b - a);
      var p := Pow10(b - a - 1);
      assert Pow10(b - a) == 10 * p;
      ScaleMul(10, p, Ten(a));
      hide Ten;
      ScaleAtLeast(p, Ten(a));
    }
  }

  lemma ScaleAtLeast(p: int, s: real)
    requires p >= 1 && s > 0.0
    ensures Scale(p, s) >= s && Scale(10, Scale(p, s)) == 10.0 * Scale(p, s)
  {
  }

  lemma TenInjective(a: int, b: int)
    ensures Ten(a) == Ten(b) <==> a == b
  {
    TenApart(a, b);
    TenApart(b, a);
    hide Ten;
  }

  /** The number of a power of ten as a decimal. */
  lemma PowerNum(n: nat, e: int)
    ensures Num(Dec(Pow10(n), e)) == Ten(e + n)
  {
    TenAdd(e, n);
  }

  lemma SmallNums(e: int)
    ensures Num(Dec(0, e)) == 0.0 && Num(Dec(1, e)) == Ten(e) && Num(Dec(2, e)) == 2.0 * Ten(e)
  {
  }

  /** The exponents and the precision are int32s. */
  predicate Given(e1: int, e2: int, precision: int) {
    InInt32(e1) && InInt32(e2) && InInt32(precision)
  }

  /** The exponent difference that the program works with. */
  function Narrowed(e1: int, e2: int, precision: int): int {
    WrapInt32(e1 - e2 + precision)
  }

  /** A pair that the program divides exactly whatever its exponents: 10^n by 1, with n as large as the
      working exponent is negative. */
  function Probe(e1: int, e: int): Dec {
    Dec(Pow10(if e < 0 then -e else 0), e1)
  }

  lemma ProbeQuotient(e1: int, e2: int, precision: int)
    requires Given(e1, e2, precision) && InInt32(-precision)
    ensures var e := Narrowed(e1, e2, precision);
            var q := Dec(Pow10(if e < 0 then 0 else e), -precision);
            exists re :: Probe(e1, e).QuoRem(Dec(1, e2), precision) == Some((q, Dec(0, re)))
  {
    assert Pow10(0) == 1;
    hide Quo, Rem, WrapInt32, Pow10;
    var e := Narrowed(e1, e2, precision);
    Wraps(-precision, 0);
    Wraps(e1 - e2 + precision, 0);
    var p := Pow10(if e < 0 then -e else e);
    QuoUnique(p, 1, p, 0);
    QuoUnique(p, p, 1, 0);
    var re := if e < 0 then e1 else WrapInt32(e2 - precision);
    assert Probe(e1, e).QuoRem(Dec(1, e2), precision)
        == Some((Dec(Pow10(if e < 0 then 0 else e), -precision), Dec(0, re)));
  }

  // ----- QuoRem -----

  ghost predicate QuoRemHolds(d: Dec, d2: Dec, precision: int) {
    && d.QuoRem(d2, precision).Some?
    && var (q, r) := d.QuoRem(d2, precision).value;
       IsQuotientRemainder(q, r, d, d2, precision)
  }

  lemma TenTimes(a: int, b: int)
    ensures Times(Ten(a), Ten(b)) == Ten(a + b)
  {
    hide *;
    TenProduct(a, b);
    TimesIs(Ten(a), Ten(b));
  }

  lemma NumTimes(d: Dec, d2: Dec)
    ensures Times(Num(d), Num(d2)) == Num(Dec(d.value * d2.value, d.exp + d2.exp))
  {
    hide *;
    ProductNum(d, d2);
    TimesIs(Num(d), Num(d2));
  }

  lemma ProbeParts(e1: int, e: int)
    ensures Probe(e1, e) == Dec(Pow10(if e < 0 then -e else 0), e1)
  {
  }

  lemma Identity(q: Dec, r: Dec, d: Dec, d2: Dec, precision: int)
    ensures IsQuotientRemainder(q, r, d, d2, precision) ==> Num(d) == Times(Num(d2), Num(q)) + Num(r)
  {
    hide Num, Times;
  }

  /** At the wrong exponent even the exact division fails. */
  lemma ProbeIsNoQuotient(e1: int, e2: int, precision: int, e: int, re: int)
    requires e != e1 - e2 + precision
    ensures var q := Dec(Pow10(if e < 0 then 0 else e), -precision);
            !IsQuotientRemainder(q, Dec(0, re), Probe(e1, e), Dec(1, e2), precision)
  {
    var up, down := if e < 0 then -e else 0, if e < 0 then 0 else e;
    Identity(Dec(Pow10(down), -precision), Dec(0, re), Probe(e1, e), Dec(1, e2), precision);
    hide *;
    PowerNum(up, e1);
    PowerNum(down, -precision);
    SmallNums(e2);
    SmallNums(re);
    TenTimes(e2, -precision + down);
    TenInjective(e1 + up, e2 - precision + down);
    ProbeParts(e1, e);
  }

  /** 10^n divided by 3 leaves the remainder 1, whose exponent is lost when it wraps around. */
  lemma ThirdIsNoQuotient(e1: int, e2: int, precision: int, k: int, re: int)
    requires e1 - e2 + precision >= 0 && Pow10(e1 - e2 + precision) == 3 * k + 1 && re != e2 - precision
    ensures !IsQuotientRemainder(Dec(k, -precision), Dec(1, re), Dec(1, e1), Dec(3, e2), precision)
  {
    var s := Ten(e2 - precision);
    Identity(Dec(k, -precision), Dec(1, re), Dec(1, e1), Dec(3, e2), precision);
    hide *;
    TenAdd(e2 - precision, e1 - e2 + precision);
    ScaleAdd(3 * k, 1, s);
    SmallNums(e1);
    SmallNums(re);
    ScaleOne(s);
    NumTimes(Dec(3, e2), Dec(k, -precision));
    NumOf(3 * k, e2 - precision);
    TenInjective(re, e2 - precision);
  }

  lemma {:induction false} ThirdOfTen(n: nat) returns (k: int)
    ensures Pow10(n) == 3 * k + 1
  {
    k := 0;
    if n > 0 {
      k := ThirdOfTen(n - 1);
      k := 10 * k + 3;
    }
  }

  lemma ThirdQuotient(e1: int, e2: int, precision: int, k: int)
    requires DifferenceFits(e1, e2, precision)
    requires e1 - e2 + precision >= 0 && Pow10(e1 - e2 + precision) == 3 * k + 1
    ensures Dec(1, e1).QuoRem(Dec(3, e2), precision) == Some((Dec(k, -precision), Dec(1, WrapInt32(e2 - precision))))
  {
    hide Pow10, WrapInt32, Quo, Rem;
    Wraps(-precision, 0);
    Wraps(e1 - e2 + precision, 0);
    QuoUnique(3 * k + 1, 3, k, 1);
  }

  lemma QuoRemFails(e1: int, e2: int, precision: int) returns (v: int, v2: int)
    requires Given(e1, e2, precision) && !QuoRemFits(e1, e2, precision)
    ensures v2 != 0 && !QuoRemHolds(Dec(v, e1), Dec(v2, e2), precision)
  {
    Wraps(-precision, 0);
    Wraps(e1 - e2 + precision, 0);
    Wraps(e2 - precision, 0);
    if !InInt32(-precision) {
      v, v2 := 0, 1;
      hide Quo, Rem, WrapInt32;
    } else if !InInt32(e1 - e2 + precision) {
      var e := Narrowed(e1, e2, precision);
      v, v2 := Probe(e1, e).value, 1;
      ProbeQuotient(e1, e2, precision);
      var re :| Probe(e1, e).QuoRem(Dec(1, e2), precision)
             == Some((Dec(Pow10(if e < 0 then 0 else e), -precision), Dec(0, re)));
      ProbeIsNoQuotient(e1, e2, precision, e, re);
      hide Dec.QuoRem, IsQuotientRemainder;
    } else {
      v, v2 := 1, 3;
      var k := ThirdOfTen(e1 - e2 + precision);
      ThirdQuotient(e1, e2, precision, k);
      ThirdIsNoQuotient(e1, e2, precision, k, WrapInt32(e2 - precision));
      hide Dec.QuoRem, IsQuotientRemainder;
    }
  }

  /** QuoRem keeps its contract for all coefficients exactly when the exponent difference and the exponent
      of the remainder fit. */
  lemma QuoRemHoldsIff(e1: int, e2: int, precision: int)
    requires Given(e1, e2, precision)
    ensures QuoRemFits(e1, e2, precision)
       <==> forall v: int, v2: int :: v2 != 0 ==> QuoRemHolds(Dec(v, e1), Dec(v2, e2), precision)
  {
    if QuoRemFits(e1, e2, precision) {
      forall v: int, v2: int | v2 != 0
        ensures QuoRemHolds(Dec(v, e1), Dec(v2, e2), precision)
      {
        QuoRemContract(Dec(v, e1), Dec(v2, e2), precision);
      }
    } else {
      var v, v2 := QuoRemFails(e1, e2, precision);
    }
  }

  // ----- DivRound -----

  ghost predicate DivRoundHolds(d: Dec, d2: Dec, precision: int) {
    && d.DivRound(d2, precision).Some?
    && IsRoundedQuotient(d.DivRound(d2, precision).value, d, d2, precision)
  }

  /** A division without remainder is not rounded. */
  lemma ExactIsKept(d: Dec, d2: Dec, precision: int, q: Dec, re: int)
    requires d2.value != 0 && d.QuoRem(d2, precision) == Some((q, Dec(0, re)))
    ensures d.DivRound(d2, precision) == Some(q)
  {
    var c := Dec(0, WrapInt32(re + precision));
    CmpIsOrder(c, d2.Magnitude());
    MagnitudeNum(d2);
    ScaleSign(0, Ten(c.exp));
    ScaleSign(d2.value, Ten(d2.exp));
    hide Dec.QuoRem, Dec.Cmp, Dec.Magnitude, WrapInt32, Scale, Ten;
    assert Num(c) == 0.0 && Num(d2) != 0.0;
  }

  /** Different powers of ten are not each other's nearest multiple of the smaller unit. */
  lemma PowersNotNearest(a: int, b: int, k: nat)
    requires a != b + k
    ensures !NearestAway(Pow10(k), Ten(b), Ten(a))
  {
    PowerNum(k, b);
    TenApart(a, b + k);
    TenApart(b + k, a);
    assert k > 0 ==> 10.0 * Ten(b) <= Ten(b + k) by {
      TenApart(b, b + k);
    }
    hide Ten, Scale;
    assert Num(Dec(Pow10(k), b)) == Scale(Pow10(k), Ten(b));
  }

  lemma ProbeIsNotNearest(e1: int, e2: int, precision: int, e: int)
    requires e != e1 - e2 + precision
    ensures !IsRoundedQuotient(Dec(Pow10(if e < 0 then 0 else e), -precision), Probe(e1, e), Dec(1, e2), precision)
  {
    var up, down := if e < 0 then -e else 0, if e < 0 then 0 else e;
    PowerNum(up, e1);
    SmallNums(e2 - precision);
    PowersNotNearest(e1 + up, e2 - precision, down);
    hide Num, Ten, Scale, Pow10, NearestAway;
  }

  /** 1 divided by a large power of ten is rounded up when the exponent of the comparison wraps around. */
  lemma SmallRoundedUp(e1: int, e2: int, precision: int)
    requires Given(e1, e2, precision) && DifferenceFits(e1, e2, precision)
    requires e1 - e2 + precision < 0 && !InInt32(e1 + precision)
    ensures Dec(1, e1).DivRound(Dec(1, e2), precision) == Some(Dec(1, -precision))
  {
    hide Dec.QuoRem, Dec.Cmp, Dec.Add, Dec.Sub, WrapInt32, Quo, Rem, Pow10;
    WrapsUp(e1 + precision);
    Wraps(-precision, 0);
    SmallQuotient(e1, e2, precision);
    TwoIsMore(WrapInt32(e1 + precision), e2);
    NextCoefficient(0, -precision);
  }

  lemma WrapsUp(x: int)
    requires -0x1_8000_0000 <= x < -0x8000_0000
    ensures WrapInt32(x) == x + 0x1_0000_0000
  {
  }

  lemma TwoIsMore(w: int, e: int)
    requires w > e
    ensures Dec(2, w).Cmp(Dec(1, e)) == 1
  {
    hide *;
    TenApart(e, w);
    SmallNums(w);
    SmallNums(e);
    CmpIsOrder(Dec(2, w), Dec(1, e));
  }

  lemma SmallQuotient(e1: int, e2: int, precision: int)
    requires DifferenceFits(e1, e2, precision) && e1 - e2 + precision < 0
    ensures Dec(1, e1).QuoRem(Dec(1, e2), precision) == Some((Dec(0, -precision), Dec(1, e1)))
  {
    Wraps(-precision, 0);
    Wraps(e1 - e2 + precision, 0);
    var n := e2 - precision - e1;
    MulMono(1, Pow10(n - 1), 10);
    QuoUnique(1, Pow10(n), 0, 1);
    hide Quo, Rem, WrapInt32;
  }

  lemma ZeroQuotient(e1: int, e2: int, precision: int)
    ensures exists re :: Dec(0, e1).QuoRem(Dec(1, e2), precision) == Some((Dec(0, WrapInt32(-precision)), Dec(0, re)))
  {
    OverflowCheckNeverFires(Dec(0, e1), Dec(1, e2), precision);
    var re := Dec(0, e1).QuoRem(Dec(1, e2), precision).value.1.exp;
    hide WrapInt32, Pow10;
    assert Dec(0, e1).QuoRem(Dec(1, e2), precision) == Some((Dec(0, WrapInt32(-precision)), Dec(0, re)));
  }

  lemma DivRoundFails(e1: int, e2: int, precision: int) returns (v: int, v2: int)
    requires Given(e1, e2, precision) && !DivRoundFits(e1, e2, precision)
    ensures v2 != 0 && !DivRoundHolds(Dec(v, e1), Dec(v2, e2), precision)
  {
    Wraps(-precision, 0);
    Wraps(e1 - e2 + precision, 0);
    if !InInt32(-precision) {
      v, v2 := 0, 1;
      ZeroQuotient(e1, e2, precision);
      var q := Dec(0, WrapInt32(-precision));
      var re :| Dec(0, e1).QuoRem(Dec(1, e2), precision) == Some((q, Dec(0, re)));
      ExactIsKept(Dec(0, e1), Dec(1, e2), precision, q, re);
      hide Dec.DivRound, WrapInt32;
    } else if !InInt32(e1 - e2 + precision) {
      var e := Narrowed(e1, e2, precision);
      v, v2 := Probe(e1, e).value, 1;
      ProbeQuotient(e1, e2, precision);
      var q := Dec(Pow10(if e < 0 then 0 else e), -precision);
      var re :| Probe(e1, e).QuoRem(Dec(1, e2), precision) == Some((q, Dec(0, re)));
      ExactIsKept(Probe(e1, e), Dec(1, e2), precision, q, re);
      ProbeIsNotNearest(e1, e2, precision, e);
      hide Dec.DivRound, IsRoundedQuotient;
    } else {
      v, v2 := 1, 1;
      SmallRoundedUp(e1, e2, precision);
      PowersNotNearest(e1, e2 - precision, 0);
      SmallNums(e1);
      SmallNums(e2 - precision);
      assert Pow10(0) == 1;
      hide Num, Ten, Scale, Dec.DivRound, NearestAway;
    }
  }

  /** DivRound is the nearest multiple for all coefficients exactly when the exponent difference and the
      exponent of the comparison fit; the remainder's own exponent may wrap around. */
  lemma DivRoundHoldsIff(e1: int, e2: int, precision: int)
    requires Given(e1, e2, precision)
    ensures DivRoundFits(e1, e2, precision)
       <==> forall v: int, v2: int :: v2 != 0 ==> DivRoundHolds(Dec(v, e1), Dec(v2, e2), precision)
  {
    if DivRoundFits(e1, e2, precision) {
      forall v: int, v2: int | v2 != 0
        ensures DivRoundHolds(Dec(v, e1), Dec(v2, e2), precision)
      {
        DivRoundNearest(Dec(v, e1), Dec(v2, e2), precision);
      }
    } else {
      var v, v2 := DivRoundFails(e1, e2, precision);
    }
  }
}
