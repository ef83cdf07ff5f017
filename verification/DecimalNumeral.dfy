/** Which texts the parser of decimals accepts, and what they mean (pkg/util/decimal.go): a grammar of
    numerals, independent of the way the parser cuts its input up. */
module DecimalNumeral {
  import opened Options
  import opened IntegerMath
  import opened Decimals
  import opened DecimalText

  datatype Exponent = Exponent(mark: char, sign: string, digits: string)

  /** A sign, digits, and perhaps a point with more digits and an exponent.  If nothing stands before the
      point the sign may follow it. */
  datatype Numeral = Numeral(
    sign: string, whole: string, fraction: Option<string>, signAfterPoint: bool, exponent: Option<Exponent>)

  predicate IsSign(s: string) {
    s == "" || s == "+" || s == "-"
  }

  function SignedBy(sign: string, v: int): int {
    if sign == "-" then -v else v
  }

  function Fraction(n: Numeral): string {
    if n.fraction.Some? then n.fraction.value else ""
  }

  /** The digits that count: trailing zeros of the fraction do not. */
  function Kept(n: Numeral): string {
    n.whole + TrimZeros(Fraction(n))
  }

  function Mantissa(n: Numeral): string {
    if n.signAfterPoint then "." + n.sign + Fraction(n)
    else n.sign + n.whole + (if n.fraction.Some? then "." + n.fraction.value else "")
  }

  function Written(n: Numeral): string {
    match n.exponent
    case None => Mantissa(n)
    case Some(e) => Mantissa(n) + [e.mark] + (e.sign + e.digits)
  }

  predicate ValidExponent(e: Exponent) {
    (e.mark == 'E' || e.mark == 'e') && IsSign(e.sign) && AllDigits(e.digits) && e.digits != ""
    && InInt32(SignedBy(e.sign, Val(e.digits)))
  }

  function ExponentValue(n: Numeral): int
    requires n.exponent.Some? ==> ValidExponent(n.exponent.value)
  {
    if n.exponent.Some? then SignedBy(n.exponent.value.sign, Val(n.exponent.value.digits)) else 0
  }

  /** The exponent of the coefficient.  A sign after the point is counted as a place. */
  function Places(n: Numeral, digits: nat): int
    requires n.exponent.Some? ==> ValidExponent(n.exponent.value)
  {
    ExponentValue(n) - digits - (if n.signAfterPoint then 1 else 0)
  }

  predicate Valid(n: Numeral) {
    && IsSign(n.sign) && AllDigits(n.whole) && AllDigits(Fraction(n))
    && (n.signAfterPoint ==> n.sign != "" && n.whole == "" && n.fraction.Some?)
    && Kept(n) != ""
    && (n.exponent.Some? ==> ValidExponent(n.exponent.value))
    && InInt32(Places(n, |TrimZeros(Fraction(n))|))
  }

  lemma KeptDigits(n: Numeral)
    requires AllDigits(n.whole) && AllDigits(Fraction(n))
    ensures AllDigits(Kept(n))
  {
  }

  function Result(n: Numeral): Dec
    requires Valid(n)
  {
    KeptDigits(n);
    Dec(SignedBy(n.sign, Val(Kept(n))), Places(n, |TrimZeros(Fraction(n))|))
  }

  // ----- Every numeral is accepted -----

  lemma ParseSigned(sign: string, digits: string)
    requires IsSign(sign) && AllDigits(digits) && digits != ""
    ensures ParseInt(sign + digits) == Some(SignedBy(sign, Val(digits)))
  {
    assert sign != "" ==> (sign + digits)[0] == sign[0] && (sign + digits)[1..] == digits;
    assert sign == "" ==> sign + digits == digits;
    hide Val;
  }

  lemma IndexAt(s: string, chars: set<char>, k: nat)
    requires k <= |s| && (k < |s| ==> s[k] in chars)
    requires forall j :: 0 <= j < k ==> s[j] !in chars
    ensures IndexAny(s, chars) == k
  {
  }

  /** The characters of a mantissa. */
  lemma MantissaChars(n: Numeral, j: nat)
    requires IsSign(n.sign) && AllDigits(n.whole) && AllDigits(Fraction(n)) && j < |Mantissa(n)|
    ensures var c := Mantissa(n)[j]; c == '+' || c == '-' || c == '.' || IsDigit(c)
  {
  }

  lemma {:induction false} TrimSigned(sign: string, frac: string)
    requires sign == "+" || sign == "-"
    ensures TrimZeros(sign + frac) == sign + TrimZeros(frac)
  {
    var s := sign + frac;
    if frac != "" {
      assert s[|s| - 1] == frac[|frac| - 1];
      assert s[..|s| - 1] == sign + frac[..|frac| - 1];
      TrimSigned(sign, frac[..|frac| - 1]);
    } else {
      assert s == sign;
    }
  }

  /** Before and after the only point, or all of the text and nothing. */
  predicate SplitsInto(m: string, before: string, after: string) {
    && IndexAny(m, {'.'}) == |before| && before <= m
    && after == (if |before| < |m| then m[|before| + 1..] else "")
    && '.' !in after
  }

  lemma ParseParts(m: string, exp: int, before: string, after: string, v: int)
    requires SplitsInto(m, before, after)
    requires ParseInt(before + TrimZeros(after)) == Some(v) && InInt32(exp - |TrimZeros(after)|)
    ensures ParseMantissa(m, exp) == Ok(Dec(v, exp - |TrimZeros(after)|))
  {
    assert m[..|before|] == before;
    hide ParseInt;
  }

  /** The text before the point, and the text after it. */
  function Before(n: Numeral): string {
    if n.signAfterPoint then "" else n.sign + n.whole
  }

  function Rest(n: Numeral): string {
    if n.signAfterPoint then n.sign + Fraction(n) else Fraction(n)
  }

  lemma MantissaSplit(n: Numeral)
    requires Valid(n)
    ensures SplitsInto(Mantissa(n), Before(n), Rest(n))
    ensures Before(n) + TrimZeros(Rest(n)) == n.sign + Kept(n)
    ensures |TrimZeros(Rest(n))| == |TrimZeros(Fraction(n))| + (if n.signAfterPoint then 1 else 0)
  {
    if n.signAfterPoint {
      SignLast(n);
    } else {
      PointAfter(n);
    }
    hide Mantissa, Kept, TrimZeros, Valid;
  }

  lemma ParseMantissaOf(n: Numeral)
    requires Valid(n)
    ensures ParseMantissa(Mantissa(n), ExponentValue(n)) == Ok(Result(n))
  {
    hide *;
    ResultIs(n);
    MantissaSplit(n);
    ParseKept(n);
    ParseParts(Mantissa(n), ExponentValue(n), Before(n), Rest(n), Result(n).value);
  }

  lemma ParseKept(n: Numeral)
    requires Valid(n)
    ensures ParseInt(n.sign + Kept(n)) == Some(Result(n).value)
  {
    KeptDigits(n);
    ParseSigned(n.sign, Kept(n));
    hide ParseInt, Val, TrimZeros, Kept, Fraction;
  }

  lemma ResultIs(n: Numeral)
    requires Valid(n)
    ensures n.exponent.Some? ==> ValidExponent(n.exponent.value)
    ensures InInt32(Result(n).exp)
    ensures Result(n).exp == ExponentValue(n) - (|TrimZeros(Fraction(n))| + (if n.signAfterPoint then 1 else 0))
  {
    hide TrimZeros, Val, Kept, Fraction;
  }

  lemma SignLast(n: Numeral)
    requires Valid(n) && n.signAfterPoint
    ensures IndexAny(Mantissa(n), {'.'}) == 0 && Mantissa(n)[1..] == n.sign + Fraction(n)
    ensures '.' !in n.sign + Fraction(n) && |Mantissa(n)| > 0
    ensures "" + TrimZeros(n.sign + Fraction(n)) == n.sign + Kept(n)
    ensures |TrimZeros(n.sign + Fraction(n))| == 1 + |TrimZeros(Fraction(n))|
  {
    var frac := Fraction(n);
    TrimSigned(n.sign, frac);
    assert Kept(n) == TrimZeros(frac) by {
      NoWhole(n);
    }
    assert '.' !in n.sign && '.' !in frac;
    hide Kept, TrimZeros, Valid, Fraction, AllDigits;
    assert Mantissa(n) == "." + (n.sign + frac);
    FirstPoint(n.sign + frac);
  }

  lemma FirstPoint(rest: string)
    ensures IndexAny("." + rest, {'.'}) == 0 && ("." + rest)[1..] == rest
  {
  }

  lemma NoWhole(n: Numeral)
    requires n.whole == ""
    ensures Kept(n) == TrimZeros(Fraction(n))
  {
    hide TrimZeros;
  }

  lemma PointAfter(n: Numeral)
    requires Valid(n) && !n.signAfterPoint
    ensures var m, front := Mantissa(n), n.sign + n.whole;
            && IndexAny(m, {'.'}) == |front| && front <= m
            && Fraction(n) == if |front| < |m| then m[|front| + 1..] else ""
    ensures '.' !in Fraction(n)
    ensures n.sign + n.whole + TrimZeros(Fraction(n)) == n.sign + Kept(n)
  {
    hide TrimZeros;
    IndexAt(Mantissa(n), {'.'}, |n.sign + n.whole|);
  }

  lemma WrittenSplit(n: Numeral)
    requires Valid(n)
    ensures IndexAny(Written(n), {'E', 'e'}) == |Mantissa(n)| && Mantissa(n) <= Written(n)
    ensures n.exponent.None? ==> Written(n) == Mantissa(n)
    ensures n.exponent.Some? ==>
              && |Mantissa(n)| < |Written(n)|
              && Written(n)[|Mantissa(n)| + 1..] == n.exponent.value.sign + n.exponent.value.digits
  {
    var s, m := Written(n), Mantissa(n);
    forall j | 0 <= j < |m|
      ensures s[j] !in {'E', 'e'}
    {
      MantissaChars(n, j);
    }
    hide Mantissa, Kept, Fraction, TrimZeros, Val;
    IndexAt(s, {'E', 'e'}, |m|);
  }

  lemma ParseWritten(n: Numeral)
    requires Valid(n)
    ensures NewFromString(Written(n)) == Ok(Result(n))
  {
    ParseMantissaOf(n);
    WrittenSplit(n);
    if n.exponent.Some? {
      ParseSigned(n.exponent.value.sign, n.exponent.value.digits);
    }
    assert Written(n)[..|Mantissa(n)|] == Mantissa(n);
    hide ParseMantissa, ParseInt, Mantissa, Val, Result, Written, Kept, Fraction, TrimZeros;
  }

  // ----- Every accepted text is a numeral -----

  /** A text that parses as an integer is a sign and digits. */
  lemma SplitSign(s: string) returns (sign: string, digits: string)
    requires ParseInt(s).Some?
    ensures s == sign + digits && IsSign(sign) && AllDigits(digits) && digits != ""
    ensures ParseInt(s) == Some(SignedBy(sign, Val(digits)))
  {
    if s[0] == '-' || s[0] == '+' {
      sign, digits := s[..1], s[1..];
    } else {
      sign, digits := "", s;
    }
    ParseSigned(sign, digits);
    hide Val, ParseInt;
  }

  /** Digits with trailing zeros put back are digits. */
  lemma UntrimmedDigits(s: string)
    requires AllDigits(TrimZeros(s))
    ensures AllDigits(s)
  {
    TrimmedZeros(s);
    hide TrimZeros;
  }

  /** What makes a numeral's mantissa well formed, apart from the exponents. */
  predicate ValidMantissa(n: Numeral) {
    && IsSign(n.sign) && AllDigits(n.whole) && AllDigits(Fraction(n)) && Kept(n) != ""
    && (n.signAfterPoint ==> n.sign != "" && n.whole == "" && n.fraction.Some?)
  }

  function Point(after: Option<string>): string {
    if after.Some? then "." + after.value else ""
  }

  function After(after: Option<string>): string {
    if after.Some? then after.value else ""
  }

  /** The sign stands before the point. */
  lemma SignBefore(before: string, after: Option<string>, sign: string, digits: string, exponent: Option<Exponent>)
    returns (n: Numeral)
    requires before + TrimZeros(After(after)) == sign + digits && |sign| <= |before|
    requires IsSign(sign) && AllDigits(digits) && digits != ""
    ensures ValidMantissa(n) && !n.signAfterPoint && n.exponent == exponent && n.fraction == after
    ensures Mantissa(n) == before + Point(after)
  {
    var kept, whole := TrimZeros(After(after)), before[|sign|..];
    n := Numeral(sign, whole, after, false, exponent);
    hide TrimZeros;
    Front(before, kept, sign, digits);
    UntrimmedDigits(After(after));
    assert before + "" == before;
  }

  lemma Front(before: string, kept: string, sign: string, digits: string)
    requires before + kept == sign + digits && |sign| <= |before|
    ensures before == sign + before[|sign|..] && digits == before[|sign|..] + kept
    ensures AllDigits(digits) ==> AllDigits(before[|sign|..]) && AllDigits(kept)
  {
    var whole := before[|sign|..];
    assert before[..|sign|] == (before + kept)[..|sign|] == sign;
    assert before + kept == sign + (whole + kept);
    assert digits == (sign + digits)[|sign|..] == whole + kept;
    assert kept == digits[|whole|..] && whole == digits[..|whole|];
  }

  lemma SameAfter(front: string, x: string, y: string)
    requires front + x == front + y
    ensures x == y
  {
    assert (front + x)[|front|..] == x && (front + y)[|front|..] == y;
  }

  /** The sign stands after the point. */
  lemma SignAfter(frac: string, sign: string, digits: string, exponent: Option<Exponent>) returns (n: Numeral)
    requires TrimZeros(frac) == sign + digits && sign != ""
    requires IsSign(sign) && AllDigits(digits) && digits != ""
    ensures ValidMantissa(n) && n.signAfterPoint && n.exponent == exponent
    ensures Mantissa(n) == "." + frac && |TrimZeros(frac)| == 1 + |TrimZeros(Fraction(n))|
  {
    var rest := frac[1..];
    n := Numeral(sign, "", Some(rest), true, exponent);
    TrimmedZeros(frac);
    hide TrimZeros;
    assert frac[..1] == sign && frac == sign + rest;
    TrimSigned(sign, rest);
    SameAfter(sign, TrimZeros(rest), digits);
    UntrimmedDigits(rest);
    assert "." + sign + rest == "." + frac;
  }

  /** The numeral of a mantissa whose parts parse as one integer. */
  lemma NumeralOf(before: string, after: Option<string>, exponent: Option<Exponent>) returns (n: Numeral)
    requires ParseInt(before + TrimZeros(After(after))).Some?
    ensures ValidMantissa(n) && n.exponent == exponent && Mantissa(n) == before + Point(after)
    ensures |TrimZeros(After(after))| == |TrimZeros(Fraction(n))| + (if n.signAfterPoint then 1 else 0)
  {
    hide ParseInt, TrimZeros, ValidMantissa, Mantissa, AllDigits;
    var sign, digits := SplitSign(before + TrimZeros(After(after)));
    if |sign| <= |before| {
      n := SignBefore(before, after, sign, digits, exponent);
    } else {
      assert before == "" && before + TrimZeros(After(after)) == TrimZeros(After(after));
      TrimmedZeros(After(after));
      n := SignAfter(After(after), sign, digits, exponent);
    }
  }

  /** The text is the mantissa, and the exponent if there is one. */
  predicate Marked(s: string, m: string, exponent: Option<Exponent>, value: int) {
    match exponent
    case None => s == m && value == 0
    case Some(e) =>
      ValidExponent(e) && s == m + [e.mark] + (e.sign + e.digits) && value == SignedBy(e.sign, Val(e.digits))
  }

  /** The parts of an accepted text. */
  lemma PartsOfText(s: string) returns (m: string, exponent: Option<Exponent>, value: int)
    requires NewFromString(s).Ok?
    ensures ParseMantissa(m, value).Ok? && Marked(s, m, exponent, value)
  {
    hide ParseMantissa, ParseInt, Val, IndexAny;
    var i := IndexAny(s, {'E', 'e'});
    SplitAt(s, i);
    m, exponent, value := s[..i], None, 0;
    if i < |s| {
      var sign, digits := SplitSign(s[i + 1..]);
      exponent, value := Some(Exponent(s[i], sign, digits)), SignedBy(sign, Val(digits));
    }
  }

  lemma SplitAt(s: string, i: nat)
    requires i <= |s|
    ensures if i < |s| then s == s[..i] + [s[i]] + s[i + 1..] else s[..i] == s
  {
  }

  function BeforePoint(m: string): string {
    m[..IndexAny(m, {'.'})]
  }

  function AfterPoint(m: string): Option<string> {
    var p := IndexAny(m, {'.'});
    if p < |m| then Some(m[p + 1..]) else None
  }

  lemma PartsOfMantissa(m: string)
    ensures m == BeforePoint(m) + Point(AfterPoint(m))
  {
    hide Point, IndexAny;
    SplitAtPoint(m, IndexAny(m, {'.'}));
  }

  lemma PartsParse(m: string, exp: int)
    requires ParseMantissa(m, exp).Ok?
    ensures ParseInt(BeforePoint(m) + TrimZeros(After(AfterPoint(m)))).Some?
    ensures InInt32(exp - |TrimZeros(After(AfterPoint(m)))|)
  {
    hide ParseInt;
  }

  lemma SplitAtPoint(m: string, p: nat)
    requires p <= |m| && (p < |m| ==> m[p] == '.')
    ensures m == m[..p] + Point(if p < |m| then Some(m[p + 1..]) else None)
  {
    assert p < |m| ==> m == m[..p] + ("." + m[p + 1..]);
  }

  /** An accepted text is a numeral. */
  lemma NumeralOfText(s: string) returns (n: Numeral)
    requires NewFromString(s).Ok?
    ensures Valid(n) && Written(n) == s
  {
    hide *;
    var m, exponent, value := PartsOfText(s);
    n := NumeralOfMantissa(m, exponent, value);
    WholeNumeral(n, s, m, value);
  }

  lemma NumeralOfMantissa(m: string, exponent: Option<Exponent>, value: int) returns (n: Numeral)
    requires ParseMantissa(m, value).Ok?
    ensures ValidMantissa(n) && n.exponent == exponent && Mantissa(n) == m
    ensures InInt32(value - (|TrimZeros(Fraction(n))| + (if n.signAfterPoint then 1 else 0)))
  {
    hide *;
    PartsParse(m, value);
    n := NumeralOf(BeforePoint(m), AfterPoint(m), exponent);
    PartsOfMantissa(m);
  }

  lemma WholeNumeral(n: Numeral, s: string, m: string, value: int)
    requires ValidMantissa(n) && Mantissa(n) == m
    requires Marked(s, m, n.exponent, value)
    requires InInt32(value - (|TrimZeros(Fraction(n))| + (if n.signAfterPoint then 1 else 0)))
    ensures Valid(n) && Written(n) == s
  {
    hide Mantissa, TrimZeros, Val, Kept;
    assert ExponentValue(n) == value;
  }

  /** The parser accepts exactly the numerals, with the values they have. */
  lemma AcceptsExactly(s: string)
    ensures NewFromString(s).Ok? <==> exists n: Numeral :: Valid(n) && Written(n) == s
    ensures forall n: Numeral :: Valid(n) && Written(n) == s ==> NewFromString(s) == Ok(Result(n))
  {
    hide NewFromString, Valid, Written, Result;
    forall n: Numeral | Valid(n) && Written(n) == s
      ensures NewFromString(s) == Ok(Result(n))
    {
      ParseWritten(n);
    }
    if NewFromString(s).Ok? {
      var n := NumeralOfText(s);
    }
  }

  // ----- What a numeral means -----

  /** The number of an accepted numeral: all its digits, shifted by the exponent and by all its places. */
  lemma NumeralMeaning(n: Numeral)
    requires Valid(n)
    ensures AllDigits(n.whole + Fraction(n))
    ensures Num(Result(n))
         == Num(Dec(SignedBy(n.sign, Val(n.whole + Fraction(n))), Places(n, |Fraction(n)|)))
  {
    var frac := Fraction(n);
    var kept, z := TrimZeros(frac), |frac| - |TrimZeros(frac)|;
    TrimmedZeros(frac);
    KeptDigits(n);
    assert n.whole + frac == n.whole + kept + Zeros(z);
    ValConcat(n.whole + kept, Zeros(z));
    ValZeros(z);
    ShiftedNum(n.sign, Val(Kept(n)), Places(n, |frac|), z);
    hide Num, Val, TrimZeros, Pow10;
  }

  lemma ShiftedNum(sign: string, v: int, e: int, z: nat)
    ensures Num(Dec(SignedBy(sign, v), e + z)) == Num(Dec(SignedBy(sign, v * Pow10(z)), e))
  {
    var x := SignedBy(sign, v);
    NumAt(Dec(x, e + z), e);
    NumOf(x * Pow10(z), e);
    assert (-v) * Pow10(z) == -(v * Pow10(z));
    hide Num, Scale, Ten, Pow10;
  }

  /** A sign after the point is accepted, and takes a place of its own. */
  lemma SignAfterPoint()
    ensures NewFromString(".-5") == Ok(Dec(-5, -2))
  {
    var n := Numeral("-", "", Some("5"), true, None);
    assert Written(n) == ".-5";
    assert TrimZeros("5") == "5" && Kept(n) == "5";
    assert Val("5") == 5 by {
      assert Val("") == 0;
    }
    hide NewFromString, TrimZeros, Val, Written;
    ParseWritten(n);
  }

  /** A point with nothing but zeros is not a number. */
  lemma PointZerosRejected(k: nat)
    ensures !NewFromString("." + Zeros(k)).Ok?
  {
    var s := "." + Zeros(k);
    IndexAt(s, {'E', 'e'}, |s|);
    IndexAt(s, {'.'}, 0);
    TrimAllZeros(k);
    assert s[..0] == "" && s[1..] == Zeros(k) && s[..|s|] == s;
    assert "" + TrimZeros(Zeros(k)) == "";
    hide TrimZeros, Val, IndexAny, Zeros;
  }

  // ----- Why a text is refused -----

  /** The text has no exponent mark, or an int32 after the first one. */
  predicate GoodExponent(s: string) {
    var i := IndexAny(s, {'E', 'e'});
    i < |s| ==> ParseInt(s[i + 1..]).Some? && InInt32(ParseInt(s[i + 1..]).value)
  }

  function MantissaText(s: string): string {
    s[..IndexAny(s, {'E', 'e'})]
  }

  ghost predicate TwoPoints(m: string) {
    exists j, k :: 0 <= j < k < |m| && m[j] == '.' && m[k] == '.'
  }

  lemma SecondPoint(m: string)
    ensures TwoPoints(m) <==> '.' in After(AfterPoint(m))
  {
    var p := IndexAny(m, {'.'});
    if '.' in After(AfterPoint(m)) {
      var k :| 0 <= k < |m| - p - 1 && m[p + 1..][k] == '.';
      assert m[p] == '.' && m[p + 1 + k] == '.';
    }
    if TwoPoints(m) {
      var j, k :| 0 <= j < k < |m| && m[j] == '.' && m[k] == '.';
      assert p <= j;
      assert m[p + 1..][k - p - 1] == m[k];
    }
  }

  /** Each error has its own cause, and they are looked for in this order. */
  lemma ErrorsExactly(s: string)
    ensures NewFromString(s) == Err(BadExponent) <==> !GoodExponent(s)
    ensures NewFromString(s) == Err(TooManyPoints) <==> GoodExponent(s) && TwoPoints(MantissaText(s))
    ensures NewFromString(s) == Err(NotANumber)
       <==> && GoodExponent(s) && !TwoPoints(MantissaText(s))
            && ParseInt(BeforePoint(MantissaText(s)) + TrimZeros(After(AfterPoint(MantissaText(s))))).None?
  {
    var m := MantissaText(s);
    SecondPoint(m);
    assert IndexAny(s, {'E', 'e'}) == |s| ==> m == s;
    MantissaErrors(m, 0);
    if GoodExponent(s) && IndexAny(s, {'E', 'e'}) < |s| {
      MantissaErrors(m, ParseInt(s[IndexAny(s, {'E', 'e'}) + 1..]).value);
    }
    hide ParseMantissa, ParseInt, TwoPoints, BeforePoint, AfterPoint, IndexAny;
  }

  lemma MantissaErrors(m: string, exp: int)
    ensures ParseMantissa(m, exp) == Err(TooManyPoints) <==> '.' in After(AfterPoint(m))
    ensures ParseMantissa(m, exp) == Err(NotANumber)
       <==> '.' !in After(AfterPoint(m)) && ParseInt(BeforePoint(m) + TrimZeros(After(AfterPoint(m)))).None?
    ensures ParseMantissa(m, exp) != Err(BadExponent)
  {
    hide ParseInt;
  }

  // ----- The form of a printed decimal -----

  lemma {:induction false} NoLeadingZero(n: nat)
    ensures |Digits(n)| > 1 ==> Digits(n)[0] != '0'
    ensures n > 0 ==> Digits(n)[0] != '0'
  {
    if n >= 10 {
      NoLeadingZero(n / 10);
      assert Digits(n)[0] == Digits(n / 10)[0];
    }
  }

  lemma {:induction false} NoTrailingZero(s: string)
    ensures var t := TrimZeros(s); t != "" ==> t[|t| - 1] != '0'
  {
    if s != "" && s[|s| - 1] == '0' {
      NoTrailingZero(s[..|s| - 1]);
    }
  }

  /** A plain numeral: a minus sign if any, digits without a leading zero, and perhaps a fraction. */
  predicate Plain(n: Numeral, negative: bool) {
    && n.sign == (if negative then "-" else "") && !n.signAfterPoint && n.exponent.None?
    && AllDigits(n.whole) && |n.whole| > 0 && (|n.whole| > 1 ==> n.whole[0] != '0')
    && AllDigits(Fraction(n)) && (n.fraction.Some? ==> Fraction(n) != "")
  }

  /** Printing gives a plain numeral, with a minus sign exactly for a negative coefficient.  Untrimmed, it
      has as many digits after the point as the exponent says; trimmed, the last of them is not a zero. */
  lemma TextIsPlain(d: Dec, trim: bool) returns (n: Numeral)
    ensures Text(d, trim) == Written(n) && Plain(n, d.value < 0)
    ensures d.exp >= 0 ==> n.fraction.None?
    ensures d.exp < 0 && !trim ==> |Fraction(n)| == -d.exp
    ensures d.exp < 0 && trim ==> |Fraction(n)| <= -d.exp
    ensures trim && n.fraction.Some? ==> Fraction(n)[|Fraction(n)| - 1] != '0'
  {
    if d.exp >= 0 {
      n := PrintedWhole(d, trim);
    } else {
      n := PrintedFraction(d, trim);
    }
  }

  lemma PrintedWhole(d: Dec, trim: bool) returns (n: Numeral)
    requires d.exp >= 0
    ensures Text(d, trim) == Written(n) && Plain(n, d.value < 0) && n.fraction.None?
  {
    RescaleDown(d, 0);
    ScaledSign(d.value, Pow10(d.exp));
    var v := At(d, 0);
    NoLeadingZero(Abs(v));
    n := Numeral(if v < 0 then "-" else "", Digits(Abs(v)), None, false, None);
    hide Digits, Dec.Rescale, At;
    assert n.sign + n.whole + "" == n.sign + n.whole;
    assert v >= 0 ==> "" + n.whole == n.whole;
  }

  lemma ScaledSign(v: int, p: int)
    requires p > 0
    ensures v * p < 0 <==> v < 0
  {
    if v < 0 {
      MulMono(v, -1, p);
    } else {
      MulMono(0, v, p);
    }
  }

  /** The fraction as it is printed. */
  function PrintedDigits(d: Dec, trim: bool): string
    requires d.exp < 0
  {
    var all := FracDigits(Digits(Abs(d.value)), -d.exp);
    if trim then TrimZeros(all) else all
  }

  lemma PrintedDigitsShape(d: Dec, trim: bool)
    requires d.exp < 0
    ensures var frac := PrintedDigits(d, trim);
            && AllDigits(frac) && (if trim then |frac| <= -d.exp else |frac| == -d.exp)
            && (trim && frac != "" ==> frac[|frac| - 1] != '0')
  {
    PartsShape(Digits(Abs(d.value)), -d.exp);
    TrimShape(FracDigits(Digits(Abs(d.value)), -d.exp));
    hide Digits, IntDigits, FracDigits, TrimZeros, AllDigits;
  }

  lemma TrimShape(all: string)
    requires AllDigits(all)
    ensures AllDigits(TrimZeros(all)) && |TrimZeros(all)| <= |all|
    ensures TrimZeros(all) != "" ==> TrimZeros(all)[|TrimZeros(all)| - 1] != '0'
  {
    NoTrailingZero(all);
    assert TrimZeros(all) == all[..|TrimZeros(all)|];
    hide TrimZeros;
  }

  lemma PrintedWholeShape(d: Dec)
    requires d.exp < 0
    ensures var whole := IntDigits(Digits(Abs(d.value)), -d.exp);
            AllDigits(whole) && |whole| > 0 && (|whole| > 1 ==> whole[0] != '0')
  {
    var str := Digits(Abs(d.value));
    NoLeadingZero(Abs(d.value));
    PartsShape(str, -d.exp);
    WholeLead(str, -d.exp);
    hide Digits, IntDigits, FracDigits;
  }

  function SignOf(negative: bool): string {
    if negative then "-" else ""
  }

  lemma PrintedFraction(d: Dec, trim: bool) returns (n: Numeral)
    requires d.exp < 0
    ensures Text(d, trim) == Written(n) && Plain(n, d.value < 0)
    ensures !trim ==> |Fraction(n)| == -d.exp
    ensures trim ==> |Fraction(n)| <= -d.exp
    ensures trim && n.fraction.Some? ==> Fraction(n)[|Fraction(n)| - 1] != '0'
  {
    var whole, frac := IntDigits(Digits(Abs(d.value)), -d.exp), PrintedDigits(d, trim);
    n := Numeral(SignOf(d.value < 0), whole, if frac == "" then None else Some(frac), false, None);
    PrintedWholeShape(d);
    PrintedDigitsShape(d, trim);
    TextParts(d, trim);
    hide Digits, IntDigits, PrintedDigits, AllDigits, Text, Signed, Number;
    JoinedText(d.value < 0, whole, frac);
  }

  lemma TextParts(d: Dec, trim: bool)
    requires d.exp < 0
    ensures Text(d, trim)
         == Signed(d.value < 0, Number(IntDigits(Digits(Abs(d.value)), -d.exp), PrintedDigits(d, trim)))
  {
    hide Digits, IntDigits, FracDigits, TrimZeros;
  }

  lemma WholeLead(str: string, k: nat)
    requires |str| > 1 ==> str[0] != '0'
    ensures var whole := IntDigits(str, k); |whole| > 1 ==> whole[0] != '0'
  {
  }

  lemma JoinedText(negative: bool, whole: string, frac: string)
    ensures Signed(negative, Number(whole, frac))
         == SignOf(negative) + whole + (if frac == "" then "" else "." + frac)
  {
    assert "-" + (whole + "." + frac) == "-" + whole + ("." + frac);
    assert "" + whole == whole && whole + "" == whole && "-" + whole + "" == "-" + whole;
    assert whole + "." + frac == whole + ("." + frac);
  }
}
