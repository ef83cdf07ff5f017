/** Fixed-point decimals (pkg/util/decimal.go): value * 10^exp over an unbounded integer.
    A call that panics returns None.  Exponents are integers that the program keeps in an int32; where
    its arithmetic on them can leave that range, the model checks or wraps as the program does. */
module Decimals {
  import opened Options
  import opened IntegerMath

  const DIVISION_PRECISION := 16

  predicate InInt32(e: int) {
    -0x8000_0000 <= e <= 0x7fff_ffff
  }

  function Min(x: int, y: int): int {
    if x >= y then y else x
  }

  datatype Dec = Dec(value: int, exp: int) {

    /** Change the exponent; digits that no longer fit are cut off. */
    function Rescale(e: int): Dec {
      if e > exp then Dec(Quo(value, Pow10(e - exp)), e)
      else if e < exp then Dec(value * Pow10(exp - e), e)
      else this
    }

    function Magnitude(): Dec {
      Dec(Abs(value), exp)
    }

    function Neg(): Dec {
      Dec(-value, exp)
    }

    function Add(d2: Dec): Dec {
      var base := Min(exp, d2.exp);
      Dec(Rescale(base).value + d2.Rescale(base).value, base)
    }

    function Sub(d2: Dec): Dec {
      var base := Min(exp, d2.exp);
      Dec(Rescale(base).value - d2.Rescale(base).value, base)
    }

    function Mul(d2: Dec): Option<Dec> {
      if InInt32(exp + d2.exp) then Some(Dec(value * d2.value, exp + d2.exp)) else None
    }

    function Cmp(d2: Dec): int {
      if exp == d2.exp then Sign(value - d2.value)
      else
        var base := Min(exp, d2.exp);
        Sign(Rescale(base).value - d2.Rescale(base).value)
    }

    /** Quotient as a multiple of 10^-precision, and remainder.  The difference of the exponents is an
        int32 before it is widened and checked. */
    function QuoRem(d2: Dec, precision: int): Option<(Dec, Dec)> {
      if d2.value == 0 then None
      else
        var scale := WrapInt32(-precision);
        var e := WrapInt32(exp - d2.exp - scale);
        if !InInt32(e) then None
        else if e < 0 then
          var bb := d2.value * Pow10(-e);
          Some((Dec(Quo(value, bb), scale), Dec(Rem(value, bb), exp)))
        else
          var aa := value * Pow10(e);
          Some((Dec(Quo(aa, d2.value), scale), Dec(Rem(aa, d2.value), WrapInt32(scale + d2.exp))))
    }

    /** Division rounded to a multiple of 10^-precision: the quotient, moved away from zero when twice
        the remainder, scaled, compares at least to the divisor. */
    function DivRound(d2: Dec, precision: int): Option<Dec> {
      match QuoRem(d2, precision)
      case None => None
      case Some((q, r)) =>
        var c := Dec(2 * Abs(r.value), WrapInt32(r.exp + precision)).Cmp(d2.Magnitude());
        if c < 0 then Some(q)
        else if Sign(value) * Sign(d2.value) < 0 then Some(q.Sub(Dec(1, WrapInt32(-precision))))
        else Some(q.Add(Dec(1, WrapInt32(-precision))))
    }

    function Div(d2: Dec): Option<Dec> {
      DivRound(d2, DIVISION_PRECISION)
    }

    function Truncate(precision: int): Dec {
      if precision >= 0 && -precision > exp then Rescale(-precision) else this
    }

    function Mod(d2: Dec): Option<Dec> {
      match Div(d2)
      case None => None
      case Some(quo) =>
        match d2.Mul(quo.Truncate(0))
        case None => None
        case Some(product) => Some(Sub(product))
    }

    /** The integer part, reduced to 64 bits as big.Int's Int64 does. */
    function IntPart(): int {
      WrapInt64(Rescale(0).value)
    }

    /** Truncate to one digit more than wanted, add or subtract five, and drop the digit by a floor
        division corrected to a ceiling for negative numbers. */
    function Round(places: int): Dec {
      var cut := WrapInt32(-places - 1);
      var t := Rescale(cut).value;
      var shifted := if t < 0 then t - 5 else t + 5;
      var q, m := shifted / 10, shifted % 10;
      Dec(if q < 0 && m != 0 then q + 1 else q, WrapInt32(cut + 1))
    }

    function RoundBank(places: int): Dec {
      var round := Round(places);
      var remainder := Sub(round).Magnitude();
      if remainder.Cmp(Dec(5, WrapInt32(-places - 1))) == 0 && round.value % 2 != 0 then
        Dec(if round.value < 0 then round.value + 1 else round.value - 1, round.exp)
      else round
    }

    /** The interval 15 first lowers a number with a fraction whose coefficient is a multiple of five, by
        an exclusive or of ten and the number of digits, in units of its last digit. */
    function Lowered(): Option<Dec> {
      if exp >= 0 then Some(this)
      else
        match Dec(value, 0).Mod(Dec(5, 0))
        case None => None
        case Some(rest) => Some(if rest.Cmp(Dec(0, 1)) == 0 then Sub(Dec(Xor(10, -exp), exp)) else this)
    }

    /** Rounding to a cash interval. */
    function RoundCash(interval: int): Option<Dec> {
      match CashDivisor(interval)
      case None => None
      case Some(i) =>
        match (if interval == 15 then Lowered() else Some(this))
        case None => None
        case Some(d) =>
          match d.Mul(Dec(i, 0))
          case None => None
          case Some(scaled) =>
            match scaled.Round(0).Div(Dec(i, 0))
            case None => None
            case Some(quo) => Some(quo.Truncate(2))
    }

    function Floor(): Dec {
      if exp >= 0 then this else Dec(value / Pow10(-exp), 0)
    }

    function Ceil(): Dec {
      if exp >= 0 then this
      else
        var z, m := value / Pow10(-exp), value % Pow10(-exp);
        Dec(if m != 0 then z + 1 else z, 0)
    }
  }

  function WrapInt32(x: int): int {
    (x + 0x8000_0000) % 0x1_0000_0000 - 0x8000_0000
  }

  lemma Wraps(x: int, y: int)
    ensures InInt32(WrapInt32(x)) && (WrapInt32(x) == x <==> InInt32(x))
    ensures WrapInt32(WrapInt32(x) + y) == WrapInt32(x + y)
  {
  }

  function WrapInt64(x: int): int {
    (x + 0x8000_0000_0000_0000) % 0x1_0000_0000_0000_0000 - 0x8000_0000_0000_0000
  }

  /** The exclusive or of two numbers, bit by bit. */
  function Xor(x: nat, y: nat): (z: nat)
    ensures x != y ==> z > 0
  {
    if x == 0 && y == 0 then 0 else 2 * Xor(x / 2, y / 2) + (x % 2 + y % 2) % 2
  }

  /** How many cash units make one. */
  function CashDivisor(interval: int): Option<int> {
    match interval
    case 5 => Some(20)
    case 10 => Some(10)
    case 15 => Some(10)
    case 25 => Some(4)
    case 50 => Some(2)
    case 100 => Some(1)
    case _ => None
  }

  // ----- The number a decimal denotes -----

  /** k times s. */
  function Scale(k: int, s: real): real {
    k as real * s
  }

  function AbsR(x: real): real {
    if x < 0.0 then -x else x
  }

  lemma ScaleAdd(j: int, k: int, s: real)
    ensures Scale(j + k, s) == Scale(j, s) + Scale(k, s)
    ensures Scale(j - k, s) == Scale(j, s) - Scale(k, s)
  {
  }

  lemma ScaleMul(j: int, k: int, s: real)
    ensures Scale(j * k, s) == Scale(j, Scale(k, s))
  {
  }

  lemma ScaleOrder(j: int, k: int, s: real)
    requires s > 0.0
    ensures Scale(j, s) < Scale(k, s) <==> j < k
    ensures Scale(j, s) == Scale(k, s) <==> j == k
  {
  }

  lemma ScaleAbs(k: int, s: real)
    requires s > 0.0
    ensures AbsR(Scale(k, s)) == Scale(Abs(k), s)
  {
  }

  lemma ScaleSign(k: int, s: real)
    requires s > 0.0
    ensures Scale(k, s) > 0.0 <==> k > 0
    ensures Scale(k, s) < 0.0 <==> k < 0
  {
  }

  lemma ScaleTimes(k: int, s: real, x: real, p: real)
    requires p == s * x
    ensures Scale(k, s) * x == Scale(k, p)
  {
  }

  /** 10 to the power e. */
  function Ten(e: int): (r: real)
    ensures r > 0.0
    decreases Abs(e)
  {
    if e == 0 then 1.0 else if e > 0 then 10.0 * Ten(e - 1) else Ten(e + 1) / 10.0
  }

  ghost function Num(d: Dec): real {
    Scale(d.value, Ten(d.exp))
  }

  /** The coefficient of d at an exponent no larger than its own. */
  ghost function At(d: Dec, m: int): int
    requires m <= d.exp
  {
    d.value * Pow10(d.exp - m)
  }

  lemma TenZero()
    ensures Ten(0) == 1.0
  {
  }

  lemma {:induction false} TenAdd(m: int, n: nat)
    ensures Ten(m + n) == Scale(Pow10(n), Ten(m))
  {
    if n > 0 {
      TenAdd(m, n - 1);
      assert Ten(m + n) == 10.0 * Ten(m + n - 1);
      ScaleMul(10, Pow10(n - 1), Ten(m));
    }
  }

  lemma TenStep(e: int)
    ensures Ten(e + 1) == 10.0 * Ten(e)
  {
  }

  lemma TenFold(x: real, y: real, y10: real, z: real, z10: real)
    requires y10 == 10.0 * y && z10 == 10.0 * z
    ensures z == x * y <==> z10 == x * y10
  {
  }

  lemma {:induction false} TenProduct(e1: int, e2: int)
    ensures Ten(e1 + e2) == Ten(e1) * Ten(e2)
    decreases Abs(e2)
  {
    hide Ten;
    if e2 == 0 {
      TenZero();
      assert e1 + e2 == e1;
    } else if e2 > 0 {
      TenProduct(e1, e2 - 1);
      TenStep(e1 + (e2 - 1));
      TenStep(e2 - 1);
      TenFold(Ten(e1), Ten(e2 - 1), Ten(e2), Ten(e1 + (e2 - 1)), Ten(e1 + e2));
    } else {
      TenProduct(e1, e2 + 1);
      TenStep(e1 + e2);
      TenStep(e2);
      TenFold(Ten(e1), Ten(e2), Ten(e2 + 1), Ten(e1 + e2), Ten(e1 + (e2 + 1)));
    }
  }

  lemma NumAt(d: Dec, m: int)
    requires m <= d.exp
    ensures Num(d) == Scale(At(d, m), Ten(m))
  {
    hide Scale, Ten, Pow10;
    TenAdd(m, d.exp - m);
    ScaleMul(d.value, Pow10(d.exp - m), Ten(m));
  }

  lemma NumOf(v: int, e: int)
    ensures Num(Dec(v, e)) == Scale(v, Ten(e))
  {
  }

  lemma RescaleDown(d: Dec, m: int)
    requires m <= d.exp
    ensures d.Rescale(m) == Dec(At(d, m), m)
  {
  }

  /** Comparison is the order of the numbers, whatever the exponents. */
  lemma CmpIsOrder(d1: Dec, d2: Dec)
    ensures d1.Cmp(d2) == (if Num(d1) < Num(d2) then -1 else if Num(d1) == Num(d2) then 0 else 1)
  {
    hide Num, At, Ten, Scale, Quo;
    var m := Min(d1.exp, d2.exp);
    RescaleDown(d1, m);
    RescaleDown(d2, m);
    NumAt(d1, m);
    NumAt(d2, m);
    ScaleOrder(At(d1, m), At(d2, m), Ten(m));
  }

  lemma NegExact(d: Dec)
    ensures Num(d.Neg()) == -Num(d)
  {
  }

  lemma AddSubExact(d1: Dec, d2: Dec)
    ensures Num(d1.Add(d2)) == Num(d1) + Num(d2)
    ensures Num(d1.Sub(d2)) == Num(d1) - Num(d2)
  {
    hide Num, At, Ten, Scale, Quo;
    var m := Min(d1.exp, d2.exp);
    RescaleDown(d1, m);
    RescaleDown(d2, m);
    NumAt(d1, m);
    NumAt(d2, m);
    ScaleAdd(At(d1, m), At(d2, m), Ten(m));
    NumOf(At(d1, m) + At(d2, m), m);
    NumOf(At(d1, m) - At(d2, m), m);
  }

  lemma ProductNum(d1: Dec, d2: Dec)
    ensures Num(Dec(d1.value * d2.value, d1.exp + d2.exp)) == Num(d1) * Num(d2)
  {
    hide Ten, Scale;
    var s, s1, s2 := Ten(d1.exp + d2.exp), Ten(d1.exp), Ten(d2.exp);
    TenProduct(d1.exp, d2.exp);
    ScaleTimes(d2.value, s2, s1, s);
    ScaleTimes(d1.value, s1, Scale(d2.value, s2), Scale(d2.value, s));
    ScaleMul(d1.value, d2.value, s);
  }

  lemma MulExact(d1: Dec, d2: Dec)
    ensures d1.Mul(d2).Some? <==> InInt32(d1.exp + d2.exp)
    ensures d1.Mul(d2).Some? ==> Num(d1.Mul(d2).value) == Num(d1) * Num(d2)
  {
    hide Num;
    ProductNum(d1, d2);
  }

  // ----- Division -----

  /** k * unit is the multiple of unit nearest to x; halfway cases go away from zero. */
  ghost predicate NearestAway(k: int, unit: real, x: real) {
    && 2.0 * AbsR(x - Scale(k, unit)) <= AbsR(unit)
    && (2.0 * AbsR(x - Scale(k, unit)) == AbsR(unit) ==> AbsR(Scale(k, unit)) > AbsR(x))
  }

  /** k * unit is the multiple of unit nearest to x; in halfway cases k is even. */
  ghost predicate NearestEven(k: int, unit: real, x: real) {
    && 2.0 * AbsR(x - Scale(k, unit)) <= AbsR(unit)
    && (2.0 * AbsR(x - Scale(k, unit)) == AbsR(unit) ==> k % 2 == 0)
  }

  /** Distance, step and size of the multiple p of b, carried over to numbers. */
  lemma MeasuresScaled(a: int, b: int, p: int, s: real)
    requires s > 0.0
    ensures 2.0 * AbsR(Scale(a, s) - Scale(p, s)) == Scale(2 * Abs(a - p), s)
    ensures AbsR(Scale(b, s)) == Scale(Abs(b), s)
    ensures AbsR(Scale(p, s)) == Scale(Abs(p), s) && AbsR(Scale(a, s)) == Scale(Abs(a), s)
  {
    hide Scale, AbsR;
    ScaleAdd(a, p, s);
    ScaleAbs(a - p, s);
    ScaleAdd(Abs(a - p), Abs(a - p), s);
    ScaleAbs(b, s);
    ScaleAbs(p, s);
    ScaleAbs(a, s);
  }

  /** Rounding of integers, carried over to the numbers they stand for. */
  lemma NearestFromIntegers(k: int, a: int, b: int, s: real, x: real, unit: real)
    requires s > 0.0 && x == Scale(a, s) && unit == Scale(b, s)
    ensures HalfAway(k, a, b) <==> NearestAway(k, unit, x)
    ensures HalfEven(k, a, b) <==> NearestEven(k, unit, x)
  {
    hide Scale, AbsR, Abs;
    ScaleMul(k, b, s);
    MeasuresScaled(a, b, k * b, s);
    ScaleOrder(2 * Abs(a - k * b), Abs(b), s);
    ScaleOrder(Abs(b), 2 * Abs(a - k * b), s);
    ScaleOrder(Abs(a), Abs(k * b), s);
  }

  /** The exponent at which a division at a given precision works on integers. */
  ghost function Common(d: Dec, d2: Dec, precision: int): int {
    Min(d.exp, d2.exp - precision)
  }

  /** The divisor as the step by which the quotient's coefficient moves. */
  ghost function StepOf(d2: Dec, precision: int): Dec {
    Dec(d2.value, d2.exp - precision)
  }

  lemma StepNum(d2: Dec, precision: int)
    ensures Num(StepOf(d2, precision)) == Num(d2) * Ten(-precision)
  {
    hide Scale, Ten;
    TenProduct(d2.exp, -precision);
    ScaleTimes(d2.value, Ten(d2.exp), Ten(-precision), Ten(d2.exp - precision));
  }

  /** The exponent that QuoRem computes is the difference it means. */
  predicate DifferenceFits(e1: int, e2: int, precision: int) {
    InInt32(-precision) && InInt32(e1 - e2 + precision)
  }

  /** So is the exponent of its remainder. */
  predicate QuoRemFits(e1: int, e2: int, precision: int) {
    DifferenceFits(e1, e2, precision) && (e1 - e2 + precision >= 0 ==> InInt32(e2 - precision))
  }

  /** The exponent at which DivRound compares the remainder is the one it means. */
  predicate DivRoundFits(e1: int, e2: int, precision: int) {
    DifferenceFits(e1, e2, precision) && (if e1 - e2 + precision < 0 then InInt32(e1 + precision) else InInt32(e2))
  }

  /** Only a zero divisor makes a division panic: the difference of the exponents is narrowed to an int32
      before it is checked against that range, so the check never fires. */
  lemma OverflowCheckNeverFires(d: Dec, d2: Dec, precision: int)
    ensures d.QuoRem(d2, precision).Some? <==> d2.value != 0
    ensures d.DivRound(d2, precision).Some? <==> d2.value != 0
  {
    Wraps(d.exp - d2.exp - WrapInt32(-precision), 0);
    hide Quo, Rem, Pow10, Abs, Sign, WrapInt32;
  }

  /** Both branches of QuoRem divide the same two integers. */
  lemma QuoRemBranches(d: Dec, d2: Dec, precision: int)
    requires d2.value != 0 && DifferenceFits(d.exp, d2.exp, precision)
    ensures var m := Common(d, d2, precision);
            var a, b := At(d, m), At(StepOf(d2, precision), m);
            && b != 0
            && d.QuoRem(d2, precision)
               == Some((Dec(Quo(a, b), -precision), Dec(Rem(a, b), RemainderExp(d, d2, precision))))
  {
    Wraps(-precision, 0);
    Wraps(d.exp - d2.exp + precision, 0);
    hide Quo, Rem, WrapInt32;
  }

  /** The exponent of the remainder, an int32. */
  ghost function RemainderExp(d: Dec, d2: Dec, precision: int): int {
    if d.exp - d2.exp + precision < 0 then d.exp else WrapInt32(d2.exp - precision)
  }

  /** The integers a and b that are divided: d / d2 = a / b * 10^-precision. */
  lemma QuoRemIntegers(d: Dec, d2: Dec, precision: int) returns (m: int, a: int, b: int)
    requires d2.value != 0 && DifferenceFits(d.exp, d2.exp, precision)
    ensures m == Common(d, d2, precision) && m <= d.exp && m <= StepOf(d2, precision).exp
    ensures a == At(d, m) && b == At(StepOf(d2, precision), m) && b != 0
    ensures d.QuoRem(d2, precision)
         == Some((Dec(Quo(a, b), -precision), Dec(Rem(a, b), RemainderExp(d, d2, precision))))
    ensures Num(d) == Scale(a, Ten(m))
    ensures Num(d2) * Ten(-precision) == Scale(b, Ten(m))
  {
    m := Common(d, d2, precision);
    assert m <= d.exp && m <= StepOf(d2, precision).exp;
    hide *;
    a, b := At(d, m), At(StepOf(d2, precision), m);
    QuoRemBranches(d, d2, precision);
    NumAt(d, m);
    NumAt(StepOf(d2, precision), m);
    StepNum(d2, precision);
  }

  /** The product, kept apart from the arithmetic around it. */
  function Times(x: real, y: real): real {
    x * y
  }

  lemma TimesIs(x: real, y: real)
    ensures Times(x, y) == x * y
  {
  }

  /** d = d2 * q + r with q a multiple of 10^-precision, r smaller than d2 * 10^-precision and of d's sign. */
  ghost predicate IsQuotientRemainder(q: Dec, r: Dec, d: Dec, d2: Dec, precision: int) {
    && q.exp == -precision
    && Num(d) == Times(Num(d2), Num(q)) + Num(r)
    && AbsR(Num(r)) < AbsR(Num(StepOf(d2, precision)))
    && (Num(d) >= 0.0 ==> Num(r) >= 0.0) && (Num(d) <= 0.0 ==> Num(r) <= 0.0)
  }

  /** The documented contract of QuoRem. */
  lemma QuoRemContract(d: Dec, d2: Dec, precision: int)
    requires d2.value != 0 && QuoRemFits(d.exp, d2.exp, precision)
    ensures d.QuoRem(d2, precision).Some?
    ensures var (q, r) := d.QuoRem(d2, precision).value; IsQuotientRemainder(q, r, d, d2, precision)
  {
    Wraps(d2.exp - precision, 0);
    StepNum(d2, precision);
    hide Num, At, Ten, Scale, Quo, Rem, StepOf, AbsR, WrapInt32, Dec.QuoRem, Times;
    var m, a, b := QuoRemIntegers(d, d2, precision);
    QuoRemBounds(a, b);
    var (q, r) := d.QuoRem(d2, precision).value;
    TimesIs(Num(d2), Num(q));
    NumOf(Quo(a, b), -precision);
    NumOf(Rem(a, b), m);
    RemDef(a, b);
    ScaleAdd(Quo(a, b) * b, Rem(a, b), Ten(m));
    ScaleMul(Quo(a, b), b, Ten(m));
    ScaleTimes(Quo(a, b), Ten(-precision), Num(d2), Scale(b, Ten(m)));
    ScaleAbs(Rem(a, b), Ten(m));
    ScaleAbs(b, Ten(m));
    ScaleOrder(Abs(Rem(a, b)), Abs(b), Ten(m));
    ScaleSign(a, Ten(m));
    ScaleSign(Rem(a, b), Ten(m));
  }

  lemma RemDef(a: int, b: int)
    requires b != 0
    ensures a == Quo(a, b) * b + Rem(a, b)
  {
  }
}
