/** The remainder operation, which rounds its quotient before cutting it, and the operations on whole
    numbers (pkg/util/decimal.go). */
module DecimalRemainder {
  import opened Options
  import opened IntegerMath
  import opened Decimals
  import opened DecimalRounding

  // ----- Mod -----

  const P := Pow10(DIVISION_PRECISION)

  /** A nearest multiple of b lies on the side of a. */
  lemma NearestSign(q: int, a: int, b: int)
    requires b != 0 && Nearest(q, a, b)
    ensures a >= 0 ==> q * b >= 0
    ensures a <= 0 ==> q * b <= 0
  {
  }

  /** What the rounded quotient leaves: a - k*B = (a - q*b) + r*b for q = k*P + r and B = b*P. */
  lemma SplitRemainder(a: int, b: int, p: int, q: int, k: int, r: int)
    requires q == k * p + r
    ensures a - k * (b * p) == (a - q * b) + r * b
  {
  }

  /** The cut-off digits, as a multiple of b, have the sign of q*b and stay below one unit. */
  lemma CutDigits(b: int, p: int, q: int, k: int, r: int)
    requires p > 0 && q == k * p + r && Abs(r) < p
    requires q >= 0 ==> r >= 0
    requires q <= 0 ==> r <= 0
    ensures Abs(r * b) <= p * Abs(b) - Abs(b)
    ensures q * b >= 0 ==> r * b >= 0
    ensures q * b <= 0 ==> r * b <= 0
  {
    AbsMul(r, b);
    MulMono(Abs(r), p - 1, Abs(b));
    assert (p - 1) * Abs(b) == p * Abs(b) - Abs(b);
    SignTimes(q, b);
    SignTimes(r, b);
  }

  lemma SignTimes(x: int, y: int)
    ensures x * y > 0 <==> (x > 0 && y > 0) || (x < 0 && y < 0)
    ensures x * y < 0 <==> (x > 0 && y < 0) || (x < 0 && y > 0)
  {
  }

  /** The result of Mod in integers: with B = b*P it lies between -|b|/2 and |B| on a's side, and it is the
      true remainder exactly when that is more than half a |b| short of |B|. */
  lemma ModCore(a: int, b: int, q: int, k: int)
    requires b != 0 && HalfAway(q, a, b) && k == Quo(q, P)
    ensures var B := b * P;
            var M := a - k * B;
            && B != 0
            && (a >= 0 ==> -Abs(b) <= 2 * M && M < Abs(B))
            && (a <= 0 ==> 2 * M <= Abs(b) && -Abs(B) < M)
            && (M == Rem(a, B) <==> 2 * (Abs(B) - Abs(Rem(a, B))) > Abs(b))
  {
    hide Quo, Rem;
    var r, B := Rem(q, P), b * P;
    RemDef(q, P);
    QuoRemBounds(q, P);
    AbsScaled(b, P);
    BigEnough(Abs(b));
    NearestSign(q, a, b);
    SplitRemainder(a, b, P, q, k, r);
    CutDigits(b, P, q, k, r);
    QuoRemBounds(a, B);
    MultiplesApart(a, B, k);
    ModLinear(a, Abs(b), Abs(B), a - q * b, r * b, a - k * B, Rem(a, B), q * b);
  }

  lemma BigEnough(x: int)
    requires x >= 0
    ensures x <= x * P
  {
  }

  /** a minus a multiple of B is the remainder or a whole B away from it. */
  lemma MultiplesApart(a: int, B: int, k: int)
    requires B != 0
    ensures a - k * B == Rem(a, B) || Abs(a - k * B - Rem(a, B)) >= Abs(B)
  {
    hide Quo, Rem;
    RemDef(a, B);
    var k0 := Quo(a, B);
    assert (k0 - k) * B == k0 * B - k * B;
    if k != k0 {
      MultipleAtLeast(k0 - k, B, 1);
    }
  }

  /** The linear core of ModCore. */
  lemma ModLinear(a: int, b: int, B: int, x: int, y: int, M: int, rem: int, qb: int)
    requires 0 < b <= B && M == x + y && x == a - qb
    requires 2 * Abs(x) <= b && (2 * Abs(x) == b ==> Abs(qb) > Abs(a))
    requires Abs(y) <= B - b && Abs(rem) < B
    requires a >= 0 ==> qb >= 0 && y >= 0 && rem >= 0
    requires a <= 0 ==> qb <= 0 && y <= 0 && rem <= 0
    requires M == rem || Abs(M - rem) >= B
    ensures a >= 0 ==> -b <= 2 * M && M < B
    ensures a <= 0 ==> 2 * M <= b && -B < M
    ensures M == rem <==> 2 * (B - Abs(rem)) > b
  {
  }

  /** The exponents are int32s, and the division at the default precision computes their difference. */
  predicate ModFits(d: Dec, d2: Dec) {
    d2.value != 0 && InInt32(d.exp) && InInt32(d2.exp) && InInt32(d.exp - d2.exp + DIVISION_PRECISION)
  }

  /** The textbook remainder: the sign of d, below d2 in size, and d minus a whole multiple of d2. */
  ghost function TrueMod(d: Dec, d2: Dec): Dec
    requires d2.value != 0
  {
    var m := Common(d, d2, DIVISION_PRECISION);
    NonzeroAt(d2, m);
    Dec(Rem(At(d, m), At(d2, m)), m)
  }

  lemma NonzeroAt(d: Dec, m: int)
    requires d.value != 0 && m <= d.exp
    ensures At(d, m) != 0
  {
  }

  lemma TrueModContract(d: Dec, d2: Dec) returns (k: int)
    requires d2.value != 0
    ensures Num(TrueMod(d, d2)) == Num(d) - Scale(k, Num(d2))
    ensures AbsR(Num(TrueMod(d, d2))) < AbsR(Num(d2))
    ensures Num(d) >= 0.0 ==> Num(TrueMod(d, d2)) >= 0.0
    ensures Num(d) <= 0.0 ==> Num(TrueMod(d, d2)) <= 0.0
  {
    hide Scale, Ten, Num, Quo, Rem, AbsR, At, Abs;
    var m := Common(d, d2, DIVISION_PRECISION);
    NonzeroAt(d2, m);
    var a, b := At(d, m), At(d2, m);
    k := Quo(a, b);
    NumAt(d, m);
    NumAt(d2, m);
    NumOf(Rem(a, b), m);
    RemDef(a, b);
    QuoRemBounds(a, b);
    ScaleMul(k, b, Ten(m));
    ScaleAdd(a, k * b, Ten(m));
    ScaleAbs(Rem(a, b), Ten(m));
    ScaleAbs(b, Ten(m));
    ScaleOrder(Abs(Rem(a, b)), Abs(b), Ten(m));
    ScaleSign(a, Ten(m));
    ScaleSign(Rem(a, b), Ten(m));
  }

  /** The divisor at the working exponent is P times the step. */
  lemma StepTimesP(d: Dec, d2: Dec)
    ensures var m := Common(d, d2, DIVISION_PRECISION);
            At(d2, m) == At(StepOf(d2, DIVISION_PRECISION), m) * P
  {
    var m := Common(d, d2, DIVISION_PRECISION);
    var n := d2.exp - DIVISION_PRECISION - m;
    Pow10Add(n, DIVISION_PRECISION);
    assert d2.value * (Pow10(n) * P) == (d2.value * Pow10(n)) * P;
  }

  /** The integers behind Mod. */
  lemma ModIntegers(d: Dec, d2: Dec) returns (m: int, a: int, b: int, q: int, k: int)
    requires ModFits(d, d2)
    ensures b != 0 && HalfAway(q, a, b) && k == Quo(q, P)
    ensures d2.value != 0 && m <= d2.exp && At(d2, m) == b * P
    ensures m == Common(d, d2, DIVISION_PRECISION) && a == At(d, m)
    ensures Num(d) == Scale(a, Ten(m)) && Num(d2) == Scale(b * P, Ten(m))
    ensures Num(d2) * Ten(-DIVISION_PRECISION) == Scale(b, Ten(m))
    ensures d.Mod(d2).Some? && Num(d.Mod(d2).value) == Num(d) - Scale(k, Num(d2))
  {
    hide Scale, Ten, Num, Quo, Rem, At, Abs, HalfAway, RoundedQuo, Dec.DivRound;
    m, a, b := DivRoundIntegers(d, d2, DIVISION_PRECISION);
    q := RoundedQuo(a, b);
    RoundedQuoIsHalfAway(a, b);
    k := Quo(q, P);
    StepTimesP(d, d2);
    NumAt(d2, m);
    var quo := Dec(q, -DIVISION_PRECISION).Truncate(0);
    assert quo == Dec(k, 0);
    var product := d2.Mul(quo).value;
    AddSubExact(d, product);
    NumOf(d2.value * k, d2.exp);
    NumOf(d2.value, d2.exp);
    ScaleMul(k, d2.value, Ten(d2.exp));
    assert product == Dec(k * d2.value, d2.exp);
  }

  /** d - Mod(d, d2) is a whole multiple of d2; on d's side Mod lies below d2 in size, but it may fall
      short of zero by up to half of |d2| * 10^-16. */
  lemma ModBounds(d: Dec, d2: Dec) returns (k: int)
    requires ModFits(d, d2)
    ensures d.Mod(d2).Some?
    ensures var mod := Num(d.Mod(d2).value);
            && mod == Num(d) - Scale(k, Num(d2))
            && (Num(d) >= 0.0 ==> -AbsR(Num(d2) * Ten(-DIVISION_PRECISION)) <= 2.0 * mod && mod < AbsR(Num(d2)))
            && (Num(d) <= 0.0 ==> 2.0 * mod <= AbsR(Num(d2) * Ten(-DIVISION_PRECISION)) && -AbsR(Num(d2)) < mod)
  {
    hide Scale, Ten, Num, Quo, Rem, At, Abs, HalfAway, AbsR;
    var m, a, b, q, k' := ModIntegers(d, d2);
    k := k';
    ModCore(a, b, q, k);
    var s, B, M := Ten(m), b * P, a - k * (b * P);
    ScaleMul(k, B, s);
    ScaleAdd(a, k * B, s);
    ScaleAdd(M, M, s);
    ScaleAbs(b, s);
    ScaleAbs(B, s);
    ScaleSign(a, s);
    ScaleNeg(Abs(b), s);
    ScaleNeg(Abs(B), s);
    ScaleLeq(-Abs(b), 2 * M, s);
    ScaleLeq(2 * M, Abs(b), s);
    ScaleOrder(M, Abs(B), s);
    ScaleOrder(-Abs(B), M, s);
  }

  lemma ScaleNeg(k: int, s: real)
    ensures Scale(-k, s) == -Scale(k, s)
  {
  }

  lemma ScaleLeq(j: int, k: int, s: real)
    requires s > 0.0
    ensures Scale(j, s) <= Scale(k, s) <==> j <= k
  {
  }

  /** Mod is the textbook remainder exactly when that remainder is more than half of |d2| * 10^-16
      short of |d2|. */
  lemma ModExactIff(d: Dec, d2: Dec)
    requires ModFits(d, d2)
    ensures d.Mod(d2).Some?
    ensures Num(d.Mod(d2).value) == Num(TrueMod(d, d2))
       <==> 2.0 * (AbsR(Num(d2)) - AbsR(Num(TrueMod(d, d2)))) > AbsR(Num(d2) * Ten(-DIVISION_PRECISION))
  {
    hide Scale, Ten, Num, Quo, Rem, At, Abs, HalfAway, AbsR;
    var m, a, b, q, k := ModIntegers(d, d2);
    ModCore(a, b, q, k);
    var s, B, M := Ten(m), b * P, a - k * (b * P);
    var rem := Rem(a, B);
    NumOf(rem, m);
    ScaleMul(k, B, s);
    ScaleAdd(a, k * B, s);
    ScaleOrder(M, rem, s);
    ScaleAbs(b, s);
    ScaleAbs(B, s);
    ScaleAbs(rem, s);
    var gap := Abs(B) - Abs(rem);
    ScaleAdd(Abs(B), Abs(rem), s);
    ScaleAdd(gap, gap, s);
    ScaleOrder(Abs(b), 2 * gap, s);
  }

  /** An input on which Mod is not the remainder: 0.99999999999999999 mod 1 is negative. */
  lemma ModCanBeNegative()
    ensures Dec(99999999999999999, -17).Mod(Dec(1, 0)) == Some(Dec(-1, -17))
  {
    DivReachesOne();
    hide Pow10;
    Pow10Values();
    assert Dec(10000000000000000, -16).Truncate(0) == Dec(1, 0);
  }

  lemma DivReachesOne()
    ensures Dec(99999999999999999, -17).Div(Dec(1, 0)) == Some(Dec(10000000000000000, -16))
  {
    hide Pow10;
    Pow10Values();
    var d, one := Dec(99999999999999999, -17), Dec(1, 0);
    assert d.QuoRem(one, 16) == Some((Dec(9999999999999999, -16), Dec(9, -17)));
    assert Dec(18, -1).Cmp(one) == 1;
    RoundingStep(d, one, 16, 9999999999999999, Dec(9, -17));
    hide Dec.QuoRem, Dec.Cmp, Dec.DivRound;
  }

  /** A divisor of 10^16 divides every whole number exactly within the precision. */
  lemma WholeQuotient(n: int, i: int, share: int)
    requires i > 0 && i * share == P
    ensures Dec(n, 0).Div(Dec(i, 0)) == Some(Dec(n * share, -DIVISION_PRECISION))
  {
    var d, d2 := Dec(n, 0), Dec(i, 0);
    hide Quo, Rem, Pow10, Num, Scale, Ten, Dec.DivRound;
    var m, a, b := DivRoundIntegers(d, d2, DIVISION_PRECISION);
    assert m == -DIVISION_PRECISION;
    WholeParts(n, i);
    QuoUnique(n * P, i, n * share, 0) by {
      assert (n * share) * i == n * (i * share);
    }
  }

  lemma WholeParts(n: int, i: int)
    ensures At(Dec(n, 0), -DIVISION_PRECISION) == n * P
    ensures At(StepOf(Dec(i, 0), DIVISION_PRECISION), -DIVISION_PRECISION) == i
  {
    assert Pow10(0) == 1;
  }

  lemma ScaleUnit(k: int)
    ensures Scale(k, 1.0) == k as real
  {
  }

  // ----- Cutting digits off -----

  /** r is x without its part below the unit: x moved toward zero by less than one unit. */
  ghost predicate CutTowardZero(r: real, x: real, unit: real) {
    && AbsR(x - r) < unit
    && (x >= 0.0 ==> 0.0 <= r <= x) && (x <= 0.0 ==> x <= r <= 0.0)
  }

  /** Raising the exponent cuts toward zero. */
  lemma RescaleCuts(d: Dec, e: int)
    requires e > d.exp
    ensures d.Rescale(e).exp == e && CutTowardZero(Num(d.Rescale(e)), Num(d), Ten(e))
  {
    var k := Pow10(e - d.exp);
    var q, r := Quo(d.value, k), Rem(d.value, k);
    QuoRemBounds(d.value, k);
    RemDef(d.value, k);
    TenAdd(d.exp, e - d.exp);
    CutParts(d.value, k, q, r, Ten(d.exp), Ten(e));
    NumOf(d.value, d.exp);
    NumOf(q, e);
    hide Num, Scale, Ten, Quo, Rem, Pow10;
  }

  lemma CutParts(v: int, k: int, q: int, r: int, s: real, unit: real)
    requires s > 0.0 && k > 0 && unit == Scale(k, s) && v == q * k + r && Abs(r) < k
    requires v >= 0 ==> r >= 0
    requires v <= 0 ==> r <= 0
    ensures CutTowardZero(Scale(q, unit), Scale(v, s), unit)
  {
    ScaleMul(q, k, s);
    ScaleAdd(q * k, r, s);
    ScaleAbs(r, s);
    ScaleOrder(Abs(r), k, s);
    ScaleSign(r, s);
    ScaleSign(v, s);
    CutSign(v, k, q, r);
    ScaleSign(q * k, s);
    hide Scale;
  }

  lemma CutSign(v: int, k: int, q: int, r: int)
    requires k > 0 && v == q * k + r && Abs(r) < k
    requires v >= 0 ==> r >= 0
    requires v <= 0 ==> r <= 0
    ensures v >= 0 ==> q * k >= 0
    ensures v <= 0 ==> q * k <= 0
  {
    if q >= 0 {
      MulMono(0, q, k);
    }
    if q >= 1 {
      MulMono(1, q, k);
    }
    if q <= -1 {
      MulMono(q, -1, k);
    }
  }

  /** Truncate cuts toward zero at the given number of places, and leaves a number that has no more. */
  lemma TruncateCuts(d: Dec, precision: int)
    ensures precision < 0 || d.exp >= -precision ==> d.Truncate(precision) == d
    ensures precision >= 0 && d.exp < -precision ==>
              && d.Truncate(precision).exp == -precision
              && CutTowardZero(Num(d.Truncate(precision)), Num(d), Ten(-precision))
  {
    if precision >= 0 && d.exp < -precision {
      RescaleCuts(d, -precision);
    }
  }

  /** IntPart is the number cut at the point, reduced to 64 bits. */
  lemma IntPartCuts(d: Dec) returns (z: int)
    ensures CutTowardZero(z as real, Num(d), 1.0) && d.IntPart() == WrapInt64(z)
    ensures -0x8000_0000_0000_0000 <= z < 0x8000_0000_0000_0000 ==> d.IntPart() == z
  {
    z := d.Rescale(0).value;
    if d.exp < 0 {
      RescaleCuts(d, 0);
    } else {
      RescaleDown(d, 0);
      NumAt(d, 0);
      NumOf(z, 0);
    }
    TenZero();
    WholeNum(z);
    hide Num, Ten, Scale, Dec.Rescale;
  }

  // ----- Whole numbers -----

  /** A negative exponent divides by a power of ten. */
  lemma FractionOf(d: Dec) returns (q: int, r: int, frac: real)
    requires d.exp < 0
    ensures q == d.value / Pow10(-d.exp) && r == d.value % Pow10(-d.exp)
    ensures Num(d) == q as real + frac && 0.0 <= frac < 1.0 && (frac == 0.0 <==> r == 0)
  {
    var k, t := Pow10(-d.exp), Ten(d.exp);
    q, r := d.value / k, d.value % k;
    frac := Scale(r, t);
    hide Scale, Ten, Pow10;
    TenAdd(d.exp, -d.exp);
    TenZero();
    assert d.value == q * k + r;
    ScaleAdd(q * k, r, t);
    ScaleMul(q, k, t);
    ScaleUnit(q);
    ScaleOrder(r, k, t);
    ScaleSign(r, t);
  }

  lemma WholeWhenNotNegative(d: Dec) returns (n: int)
    requires d.exp >= 0
    ensures Num(d) == n as real
  {
    n := At(d, 0);
    hide Scale, Ten, At;
    NumAt(d, 0);
    TenZero();
    ScaleUnit(n);
  }

  lemma FloorOf(x: real, q: int, frac: real)
    requires x == q as real + frac && 0.0 <= frac < 1.0
    ensures x.Floor == q
    ensures -((-x).Floor) == if frac == 0.0 then q else q + 1
  {
  }

  lemma WholeNum(n: int)
    ensures Num(Dec(n, 0)) == n as real
  {
  }

  /** Floor and Ceil are the floor and the ceiling of the number. */
  lemma FloorCeilExact(d: Dec)
    ensures Num(d.Floor()) == Num(d).Floor as real
    ensures Num(d.Ceil()) == -((-Num(d)).Floor) as real
  {
    hide Pow10, Num;
    if d.exp < 0 {
      var q, r, frac := FractionOf(d);
      FloorOf(Num(d), q, frac);
      WholeNum(q);
      WholeNum(q + 1);
    } else {
      var n := WholeWhenNotNegative(d);
      FloorOf(Num(d), n, 0.0);
    }
  }
}
