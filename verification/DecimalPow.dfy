/** Raising a decimal to a power by repeated halving of the exponent (pkg/util/decimal.go).  The halving
    is a division rounded at 16 digits, so the exponents met on the way down are not exact halves. */
module DecimalPow {
  import opened Options
  import opened IntegerMath
  import opened Decimals
  import opened DecimalRounding
  import opened DecimalRemainder

  const TWO := Dec(2, 0)

  /** How large an exponent is, in units of 10^-16; the recursion shrinks it. */
  ghost function Size(d: Dec): nat {
    Abs(d.Rescale(-DIVISION_PRECISION).value)
  }

  function Pow(d: Dec, d2: Dec): Option<Dec>
    requires InInt32(d2.exp)
    decreases Size(d2)
  {
    if d2.IntPart() == 0 then Some(Dec(1, 0))
    else
      match d2.Div(TWO)
      case None => None
      case Some(half) =>
        HalvingShrinks(d2, half);
        match Pow(d, half)
        case None => None
        case Some(temp) =>
          match temp.Mul(temp)
          case None => None
          case Some(square) =>
            if Rem(d2.IntPart(), 2) == 0 then Some(square)
            else if d2.IntPart() > 0 then square.Mul(d)
            else square.Div(d)
  }

  // ----- The recursion terminates -----

  /** A number with an exponent of 64 or more has integer part 0, because 2^64 divides it; so no exponent
      that is halved is large enough for the division to wrap around. */
  lemma IntPartBounds(d2: Dec)
    requires d2.IntPart() != 0
    ensures d2.exp < 64
  {
    if d2.exp >= 64 {
      var whole := d2.Rescale(0).value;
      var k := d2.value * Pow10(d2.exp - 64);
      RescaleDown(d2, 0);
      Pow10Add(d2.exp - 64, 64);
      TenTo64();
      Regroup(d2.value, Pow10(d2.exp - 64), Pow10(64));
      assert whole == k * Pow10(64);
      WrapsToZero(k);
    }
  }

  lemma WrapsToZero(k: int)
    ensures Pow10(64) == 0x1_0000_0000_0000_0000 * 542101086242752217003726400434970855712890625
    ensures WrapInt64(k * Pow10(64)) == 0
  {
    TenTo64();
    hide Pow10;
    WrapMultiple(k * 542101086242752217003726400434970855712890625);
  }

  lemma WrapMultiple(j: int)
    ensures WrapInt64(j * 0x1_0000_0000_0000_0000) == 0
  {
  }

  lemma TenTo64()
    ensures Pow10(64) == 0x1_0000_0000_0000_0000 * 542101086242752217003726400434970855712890625
  {
    Pow10Values();
    Pow10Add(16, 16);
    Pow10Add(32, 32);
  }

  lemma HalfFits(d2: Dec)
    requires InInt32(d2.exp) && d2.IntPart() != 0
    ensures DivRoundFits(d2.exp, 0, DIVISION_PRECISION)
  {
    IntPartBounds(d2);
  }

  /** A number with a nonzero integer part is at least 10^16 units of 10^-16. */
  lemma SizeAtLeast(d2: Dec)
    requires d2.IntPart() != 0
    ensures Size(d2) >= P
  {
    var whole := d2.Rescale(0).value;
    assert whole != 0;
    if d2.exp >= 0 {
      hide Quo;
      RescaleDown(d2, 0);
      RescaleDown(d2, -DIVISION_PRECISION);
      AtLower(d2, 0, DIVISION_PRECISION);
      MultipleAtLeast(whole, P, 1);
      AbsMul(whole, P);
    } else {
      QuotientAtLeast(d2.value, Pow10(-d2.exp));
      if d2.exp >= -DIVISION_PRECISION {
        Pow10Add(-d2.exp, d2.exp + DIVISION_PRECISION);
        MultipleCovers(d2.value, Pow10(-d2.exp), Pow10(d2.exp + DIVISION_PRECISION));
      } else {
        Pow10Add(-DIVISION_PRECISION - d2.exp, DIVISION_PRECISION);
        CoveredQuotient(d2.value, Pow10(-DIVISION_PRECISION - d2.exp), P);
      }
    }
  }

  lemma AtLower(d: Dec, m: int, k: nat)
    requires m <= d.exp
    ensures At(d, m - k) == At(d, m) * Pow10(k)
  {
  }

  lemma QuotientAtLeast(v: int, k: int)
    requires k > 0 && Quo(v, k) != 0
    ensures Abs(v) >= k
  {
  }

  lemma MultipleCovers(v: int, k: int, j: int)
    requires k > 0 && j > 0 && Abs(v) >= k
    ensures Abs(v * j) >= k * j
  {
  }

  lemma CoveredQuotient(v: int, k: int, p: int)
    requires k > 0 && Abs(v) >= k * p
    ensures Abs(Quo(v, k)) >= p
  {
    hide Quo, Rem;
    QuoRemBounds(v, k);
    RemDef(v, k);
    AbsMul(Quo(v, k), k);
    assert (p - 1) * k == k * p - k;
    if Abs(Quo(v, k)) < p {
      MulMono(Abs(Quo(v, k)), p - 1, k);
    }
  }

  /** Half of a, rounded, is below the truncation of a, when that is at least two. */
  lemma RoundedHalf(a: int, k: int, q: int)
    requires k > 0 && HalfAway(q, a, 2 * k) && Abs(Quo(a, k)) >= 2
    ensures Abs(q) < Abs(Quo(a, k))
  {
    hide Quo, Rem;
    QuoRemBounds(a, k);
    RemDef(a, k);
    HalfBelow(a, k, Quo(a, k), q);
  }

  lemma HalfBelow(a: int, k: int, t: int, q: int)
    requires k > 0 && Abs(a - t * k) < k && Abs(t) >= 2
    requires 2 * Abs(a - q * (2 * k)) <= 2 * k
    ensures Abs(q) < Abs(t)
  {
    SizeOf(a, k, t * k, q * (2 * k));
    AbsMul(t, k);
    AbsMul(q, 2 * k);
    MulMono(2, Abs(t), k);
    Regroup(Abs(t), 2, k);
    Regroup(2, Abs(t), k);
    if Abs(q) >= Abs(t) {
      MulMono(Abs(t), Abs(q), 2 * k);
    }
  }

  lemma SizeOf(a: int, k: int, tk: int, qk: int)
    requires Abs(a - tk) < k && Abs(a - qk) <= k
    ensures Abs(qk) < Abs(tk) + 2 * k
  {
  }

  lemma HalvingShrinks(d2: Dec, half: Dec)
    requires InInt32(d2.exp) && d2.IntPart() != 0 && d2.Div(TWO) == Some(half)
    ensures half.exp == -DIVISION_PRECISION && Size(half) < Size(d2)
  {
    HalfFits(d2);
    SizeAtLeast(d2);
    Pow10Values();
    hide *;
    var m, a, b := DivRoundIntegers(d2, TWO, DIVISION_PRECISION);
    RoundedQuoIsHalfAway(a, b);
    HalfSize(d2, RoundedQuo(a, b));
  }

  lemma HalfSize(d2: Dec, q: int)
    requires Size(d2) >= 2
    requires var m := Common(d2, TWO, DIVISION_PRECISION);
             var b := At(StepOf(TWO, DIVISION_PRECISION), m);
             b != 0 && HalfAway(q, At(d2, m), b)
    ensures Size(Dec(q, -DIVISION_PRECISION)) < Size(d2)
  {
    hide HalfAway, Quo;
    if d2.exp >= -DIVISION_PRECISION {
      RescaleDown(d2, -DIVISION_PRECISION);
      var a := At(d2, -DIVISION_PRECISION);
      assert At(StepOf(TWO, DIVISION_PRECISION), -DIVISION_PRECISION) == 2;
      QuoByOne(a);
      RoundedHalf(a, 1, q);
    } else {
      RoundedHalf(d2.value, Pow10(-DIVISION_PRECISION - d2.exp), q);
    }
  }

  lemma QuoByOne(a: int)
    ensures Quo(a, 1) == a
  {
  }

  // ----- Exactness on whole exponents -----

  /** x units of 10^-16 are n / t rounded up: x is the least with x * t >= n * P. */
  ghost predicate Ceiling(x: int, n: nat, t: int) {
    x * t >= n * P && (x - 1) * t < n * P
  }

  /** Halving with ties away from zero turns one ceiling into the next. */
  lemma HalfOfCeiling(x: int, n: nat, t: int)
    requires t > 0 && x >= 0 && Ceiling(x, n, t)
    ensures Ceiling((x + 1) / 2, n, 2 * t)
  {
    hide Pow10;
    HalveCeiling(x, (x + 1) / 2, t, n * P);
  }

  lemma HalveCeiling(x: int, y: int, t: int, bound: int)
    requires t > 0 && x <= 2 * y <= x + 1
    requires x * t >= bound && (x - 1) * t < bound
    ensures y * (2 * t) >= bound && (y - 1) * (2 * t) < bound
  {
    MulMono(x, 2 * y, t);
    MulMono(2 * y - 2, x - 1, t);
    Regroup(y, 2, t);
    Regroup(y - 1, 2, t);
  }

  /** While t is at most P the ceiling never reaches the next whole number, so its integer part is n / t. */
  lemma CeilingIntPart(x: int, n: nat, t: int, f: nat)
    requires 0 < t <= P && Ceiling(x, n, t)
    requires f * t <= n < (f + 1) * t
    ensures f * P <= x < (f + 1) * P
  {
    CeilingProducts(x, n, t, f);
    MulMono(f * t, n, P);
    MulMono(n + 1, (f + 1) * t, P);
    Compare(x + 1, f * P, t);
    Compare((f + 1) * P - 1, x - 1, t);
  }

  lemma Compare(x: int, y: int, k: int)
    requires k > 0
    ensures x <= y ==> x * k <= y * k
  {
    if x <= y {
      MulMono(x, y, k);
    }
  }

  lemma CeilingProducts(x: int, n: nat, t: int, f: nat)
    ensures (f * P) * t == (f * t) * P && (x + 1) * t == x * t + t && (x - 1) * t == x * t - t
    ensures ((f + 1) * P - 1) * t == ((f + 1) * t) * P - t && (n + 1) * P == n * P + P
  {
  }

  lemma HalfLevel(x: nat)
    ensures Dec(x, -DIVISION_PRECISION).Div(TWO) == Some(Dec((x + 1) / 2, -DIVISION_PRECISION))
  {
    AtOwnExponent(x, -DIVISION_PRECISION);
    StepOfTwo(-DIVISION_PRECISION);
    RoundedHalfOf(x);
    hide Scale, Ten, Num, At, RoundedQuo, Dec.DivRound;
    var m, a, b := DivRoundIntegers(Dec(x, -DIVISION_PRECISION), TWO, DIVISION_PRECISION);
    assert m == -DIVISION_PRECISION;
    assert Pow10(0) == 1;
  }

  lemma AtOwnExponent(v: int, e: int)
    ensures At(Dec(v, e), e) == v
  {
  }

  lemma RoundedHalfOf(x: nat)
    ensures RoundedQuo(x, 2) == (x + 1) / 2
  {
  }

  lemma IntPartOfLevel(x: nat, f: nat)
    requires f * P <= x < (f + 1) * P && f < 0x8000_0000_0000_0000
    ensures Dec(x, -DIVISION_PRECISION).IntPart() == f
  {
    QuoUnique(x, P, f, x - f * P);
  }

  /** All exponents met on the way stay within int32 when the final one does. */
  lemma ExponentFits(e: int, m: nat, n: nat)
    requires m <= n && InInt32(e * n)
    ensures InInt32(e * m)
  {
    if e >= 0 {
      MulMono(0, n - m, e);
    } else {
      MulMono(0, n - m, -e);
    }
    assert e * n == e * m + e * (n - m);
  }

  /** One level: squaring d^h, and multiplying by d when f is odd, gives d^f. */
  lemma PowStep(d: Dec, f: nat, h: nat)
    requires f == 2 * h || f == 2 * h + 1
    requires InInt32(d.exp * f)
    ensures var temp := Dec(PowInt(d.value, h), d.exp * h);
            var square := Dec(PowInt(d.value, 2 * h), d.exp * (2 * h));
            && temp.Mul(temp) == Some(square)
            && (f == 2 * h + 1 ==> square.Mul(d) == Some(Dec(PowInt(d.value, f), d.exp * f)))
  {
    PowIntAdd(d.value, h, h);
    PowIntOne(d.value);
    PowIntAdd(d.value, 2 * h, 1);
    ExponentFits(d.exp, 2 * h, f);
    ExponentSums(d.exp, h);
    hide PowInt;
    var temp := Dec(PowInt(d.value, h), d.exp * h);
    var square := Dec(PowInt(d.value, 2 * h), d.exp * (2 * h));
    Product(temp, temp, square);
    if f == 2 * h + 1 {
      Product(square, d, Dec(PowInt(d.value, f), d.exp * f));
    }
  }

  lemma Product(a: Dec, b: Dec, r: Dec)
    requires r.value == a.value * b.value && r.exp == a.exp + b.exp && InInt32(r.exp)
    ensures a.Mul(b) == Some(r)
  {
  }

  lemma PowIntOne(x: int)
    ensures PowInt(x, 1) == x
  {
  }

  lemma ExponentSums(e: int, h: nat)
    ensures e * (2 * h) == e * h + e * h
    ensures e * (2 * h + 1) == e * (2 * h) + e
  {
  }

  lemma {:induction false} PowersOfTwo(k: nat)
    ensures PowInt(2, k) > 0
    ensures k <= 53 ==> PowInt(2, k) <= P
    ensures PowInt(2, k) < 0x20_0000_0000_0000 ==> k < 53
    decreases Abs(53 - k)
  {
    TwoTo53();
    if k < 53 {
      PowersOfTwo(k + 1);
    } else if k > 53 {
      PowersBeyond53(k);
    }
  }

  lemma {:induction false} PowersBeyond53(k: nat)
    requires k >= 53
    ensures PowInt(2, k) >= 0x20_0000_0000_0000
  {
    TwoTo53();
    if k > 53 {
      PowersBeyond53(k - 1);
    }
  }

  lemma TwoTo53()
    ensures PowInt(2, 53) == 0x20_0000_0000_0000 <= P
  {
    Pow10Values();
    assert PowInt(2, 8) == 256;
    PowIntAdd(2, 8, 8);
    PowIntAdd(2, 16, 16);
    PowIntAdd(2, 32, 16);
    PowIntAdd(2, 48, 5);
    assert PowInt(2, 5) == 32;
  }

  /** From level k of the halving onwards Pow computes d^f, where f is n / 2^k. */
  lemma {:induction false} PowAtLevel(d: Dec, x: nat, n: nat, k: nat, f: nat)
    requires k <= 53 && Ceiling(x, n, PowInt(2, k))
    requires f * PowInt(2, k) <= n < (f + 1) * PowInt(2, k)
    requires n < 0x20_0000_0000_0000 && InInt32(d.exp * f)
    ensures Pow(d, Dec(x, -DIVISION_PRECISION)) == Some(Dec(PowInt(d.value, f), d.exp * f))
    decreases f
  {
    hide Ceiling, Dec.Div, Dec.IntPart, Dec.Mul;
    var t, level := PowInt(2, k), Dec(x, -DIVISION_PRECISION);
    PowersOfTwo(k);
    CeilingIntPart(x, n, t, f);
    FitsInt64(f, t, n);
    IntPartOfLevel(x, f);
    if f > 0 {
      var h, y := f / 2, (x + 1) / 2;
      FitsLevel(f, t, n, k);
      HalfOfCeiling(x, n, t);
      HalfLevel(x);
      NextFloor(f, t, n);
      ExponentFits(d.exp, h, f);
      PowAtLevel(d, y, n, k + 1, h);
      PowStep(d, f, h);
      assert Rem(f, 2) == f % 2;
    }
  }

  lemma FitsInt64(f: nat, t: int, n: nat)
    requires t > 0 && f * t <= n < 0x20_0000_0000_0000
    ensures f < 0x8000_0000_0000_0000
  {
  }

  lemma FitsLevel(f: nat, t: int, n: nat, k: nat)
    requires f > 0 && t == PowInt(2, k) && f * t <= n < 0x20_0000_0000_0000
    ensures k < 53
  {
    PowersOfTwo(k);
    MulMono(1, f, t);
  }

  lemma NextFloor(f: nat, t: int, n: nat)
    requires t > 0 && f * t <= n < (f + 1) * t
    ensures (f / 2) * (2 * t) <= n < (f / 2 + 1) * (2 * t)
  {
    var h := f / 2;
    assert h * (2 * t) == (2 * h) * t && (h + 1) * (2 * t) == (2 * h + 2) * t;
    MulMono(2 * h, f, t);
    MulMono(f + 1, 2 * h + 2, t);
  }

  /** A decimal that denotes n has coefficient n * 10^-m at every m that is not above zero. */
  lemma WholeAt(d2: Dec, n: int, m: int)
    requires Num(d2) == n as real && m <= d2.exp && m <= 0
    ensures At(d2, m) == n * Pow10(-m)
  {
    hide Num, Scale, Ten, At, Pow10;
    NumAt(d2, m);
    WholeNum(n);
    NumAt(Dec(n, 0), m);
    ScaleOrder(At(d2, m), At(Dec(n, 0), m), Ten(m));
    AtZero(n, m);
  }

  lemma AtZero(n: int, m: int)
    requires m <= 0
    ensures At(Dec(n, 0), m) == n * Pow10(-m)
  {
  }

  lemma WholeIntPart(d2: Dec, n: nat)
    requires Num(d2) == n as real && n < 0x8000_0000_0000_0000
    ensures d2.IntPart() == n
  {
    var m := Min(d2.exp, 0);
    WholeAt(d2, n, m);
    hide Num;
    if d2.exp < 0 {
      assert d2.value == n * Pow10(-d2.exp);
      QuoUnique(d2.value, Pow10(-d2.exp), n, 0);
    } else {
      RescaleDown(d2, 0);
    }
  }

  /** The first halving of a whole exponent is exact. */
  lemma WholeHalf(d2: Dec, n: nat)
    requires Num(d2) == n as real && DivRoundFits(d2.exp, 0, DIVISION_PRECISION)
    ensures P % 2 == 0
    ensures d2.Div(TWO) == Some(Dec(n * (P / 2), -DIVISION_PRECISION))
  {
    Pow10Values();
    hide Num, Scale, Ten, At, RoundedQuo, Quo, Rem, Pow10, HalfAway, Dec.DivRound;
    var m, a, b := DivRoundIntegers(d2, TWO, DIVISION_PRECISION);
    var k := Pow10(-DIVISION_PRECISION - m);
    WholeAt(d2, n, m);
    Pow10Add(-DIVISION_PRECISION - m, DIVISION_PRECISION);
    StepOfTwo(m);
    RoundedQuoIsHalfAway(a, b);
    ExactHalf(RoundedQuo(a, b), n, k);
  }

  lemma StepOfTwo(m: int)
    requires m <= -DIVISION_PRECISION
    ensures At(StepOf(TWO, DIVISION_PRECISION), m) == 2 * Pow10(-DIVISION_PRECISION - m)
  {
  }

  lemma ExactHalf(q: int, n: nat, k: int)
    requires k > 0 && P % 2 == 0 && HalfAway(q, n * (k * P), 2 * k)
    ensures q == n * (P / 2)
  {
    var exact := n * (P / 2);
    assert exact * (2 * k) == n * (k * P) by {
      assert 2 * (P / 2) == P;
      assert (n * (P / 2)) * (2 * k) == n * (k * (2 * (P / 2)));
    }
    HalfAwayUnique(q, exact, n * (k * P), 2 * k);
  }

  /** Pow(d, d2) is exactly d^n, as coefficient and exponent, for every decimal d2 that denotes a whole
      number n below 2^53, as long as the resulting exponent fits. */
  lemma PowExact(d: Dec, d2: Dec, n: nat)
    requires Num(d2) == n as real && n < 0x20_0000_0000_0000
    requires InInt32(d2.exp) && InInt32(d.exp * n)
    ensures Pow(d, d2) == Some(Dec(PowInt(d.value, n), d.exp * n))
  {
    hide Num, Dec.Div, Dec.IntPart, Dec.Mul;
    WholeIntPart(d2, n);
    if n > 0 {
      HalfFits(d2);
      WholeHalf(d2, n);
      var h := n / 2;
      FirstCeiling(n);
      ExponentFits(d.exp, h, n);
      PowAtLevel(d, n * (P / 2), n, 1, h);
      PowStep(d, n, h);
      assert Rem(n, 2) == n % 2;
    }
  }

  lemma FirstCeiling(n: nat)
    requires P % 2 == 0
    ensures n * (P / 2) >= 0 && PowInt(2, 1) == 2
    ensures Ceiling(n * (P / 2), n, PowInt(2, 1))
  {
  }

  /** The number of the result: d multiplied by itself n times. */
  ghost function PowerOf(x: real, n: nat): real {
    if n == 0 then 1.0 else x * PowerOf(x, n - 1)
  }

  lemma {:induction false} PowerNum(d: Dec, n: nat)
    ensures Num(Dec(PowInt(d.value, n), d.exp * n)) == PowerOf(Num(d), n)
  {
    hide Num;
    if n == 0 {
      WholeNum(1);
    } else {
      var rest := Dec(PowInt(d.value, n - 1), d.exp * (n - 1));
      PowerNum(d, n - 1);
      assert d.exp * n == d.exp + d.exp * (n - 1);
      ProductNum(d, rest);
    }
  }

  /** Pow is repeated multiplication of numbers. */
  lemma PowIsPower(d: Dec, d2: Dec, n: nat)
    requires Num(d2) == n as real && n < 0x20_0000_0000_0000
    requires InInt32(d2.exp) && InInt32(d.exp * n)
    ensures Pow(d, d2).Some? && Num(Pow(d, d2).value) == PowerOf(Num(d), n)
  {
    hide Num;
    PowExact(d, d2, n);
    PowerNum(d, n);
  }
}
