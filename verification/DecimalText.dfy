/** Decimals as text (pkg/util/decimal.go): the printer and the parser. */
module DecimalText {
  import opened Options
  import opened IntegerMath
  import opened Decimals

  // ----- Digits -----

  predicate IsDigit(c: char) {
    '0' <= c <= '9'
  }

  predicate AllDigits(s: string) {
    forall i :: 0 <= i < |s| ==> IsDigit(s[i])
  }

  function DigitChar(n: nat): (c: char)
    requires n < 10
    ensures IsDigit(c)
  {
    '0' + n as char
  }

  function DigitValue(c: char): (n: nat)
    requires IsDigit(c)
    ensures n < 10
  {
    (c - '0') as nat
  }

  /** Decimal digits of a natural number, without leading zeros. */
  function Digits(n: nat): (s: string)
    ensures AllDigits(s) && |s| > 0
  {
    if n < 10 then [DigitChar(n)] else Digits(n / 10) + [DigitChar(n % 10)]
  }

  /** The number a digit string stands for. */
  function Val(s: string): (n: int)
    requires AllDigits(s)
    ensures n >= 0
  {
    if s == [] then 0 else 10 * Val(s[..|s| - 1]) + DigitValue(s[|s| - 1])
  }

  function Zeros(k: nat): (s: string)
    ensures |s| == k && AllDigits(s)
    ensures forall i :: 0 <= i < k ==> s[i] == '0'
  {
    seq(k, _ => '0')
  }

  /** Strip trailing zeros. */
  function TrimZeros(s: string): (t: string)
    ensures t <= s
  {
    if s != [] && s[|s| - 1] == '0' then TrimZeros(s[..|s| - 1]) else s
  }

  lemma {:induction false} ValDigits(n: nat)
    ensures Val(Digits(n)) == n
  {
    if n >= 10 {
      ValDigits(n / 10);
      var s := Digits(n);
      assert s[..|s| - 1] == Digits(n / 10);
    }
  }

  lemma {:induction false} ValConcat(a: string, b: string)
    requires AllDigits(a) && AllDigits(b)
    ensures AllDigits(a + b)
    ensures Val(a + b) == Val(a) * Pow10(|b|) + Val(b)
  {
    if b == [] {
      assert a + b == a;
    } else {
      var init := b[..|b| - 1];
      ValConcat(a, init);
      assert (a + b)[..|a + b| - 1] == a + init;
      assert (a + b)[|a + b| - 1] == b[|b| - 1];
      TenTimes(Val(a), Pow10(|init|));
    }
  }

  lemma TenTimes(v: int, p: int)
    ensures v * (10 * p) == 10 * (v * p)
  {
  }

  lemma {:induction false} ValZeros(k: nat)
    ensures Val(Zeros(k)) == 0
  {
    if k > 0 {
      ValZeros(k - 1);
      assert Zeros(k)[..k - 1] == Zeros(k - 1);
    }
  }

  /** The stripped part is all zeros. */
  lemma {:induction false} TrimmedZeros(s: string)
    ensures s == TrimZeros(s) + Zeros(|s| - |TrimZeros(s)|)
  {
    if s != [] && s[|s| - 1] == '0' {
      var init := s[..|s| - 1];
      TrimmedZeros(init);
      assert Zeros(|s| - |TrimZeros(s)|) == Zeros(|init| - |TrimZeros(s)|) + "0";
    }
  }

  lemma TrimAppendedZero(s: string)
    ensures TrimZeros(s + "0") == TrimZeros(s)
  {
  }

  lemma {:induction false} TrimAllZeros(k: nat)
    ensures TrimZeros(Zeros(k)) == ""
  {
    if k > 0 {
      TrimAllZeros(k - 1);
      assert Zeros(k)[..k - 1] == Zeros(k - 1);
    }
  }

  lemma {:induction false} TrimTwice(s: string)
    ensures TrimZeros(TrimZeros(s)) == TrimZeros(s)
  {
    if s != [] && s[|s| - 1] == '0' {
      TrimTwice(s[..|s| - 1]);
    }
  }

  // ----- Printing -----

  function IntString(v: int): string {
    if v < 0 then "-" + Digits(-v) else Digits(v)
  }

  /** The digits before and after the point, for k fractional digits. */
  function IntDigits(str: string, k: nat): string {
    if |str| > k then str[..|str| - k] else "0"
  }

  function FracDigits(str: string, k: nat): string {
    if |str| > k then str[|str| - k..] else Zeros(k - |str|) + str
  }

  function Number(intPart: string, fracPart: string): string {
    if |fracPart| > 0 then intPart + "." + fracPart else intPart
  }

  function Signed(negative: bool, number: string): string {
    if negative then "-" + number else number
  }

  /** The text of a decimal; `trim` drops trailing zeros of the fraction. */
  function Text(d: Dec, trim: bool): string {
    if d.exp >= 0 then IntString(d.Rescale(0).value)
    else
      var str := Digits(Abs(d.value));
      var frac := FracDigits(str, -d.exp);
      Signed(d.value < 0, Number(IntDigits(str, -d.exp), if trim then TrimZeros(frac) else frac))
  }

  /** The printer's backward loop over trailing zeros. */
  method TrimTrailingZeros(fractionalPart: string) returns (trimmed: string)
    ensures trimmed == TrimZeros(fractionalPart)
  {
    var i := |fractionalPart| - 1;
    assert fractionalPart[..i + 1] == fractionalPart;
    while i >= 0
      invariant -1 <= i < |fractionalPart|
      invariant TrimZeros(fractionalPart[..i + 1]) == TrimZeros(fractionalPart)
    {
      assert fractionalPart[..i + 1][..i] == fractionalPart[..i];
      if fractionalPart[i] != '0' {
        break;
      }
      i := i - 1;
    }
    trimmed := fractionalPart[..i + 1];
  }

  method StringOf(d: Dec, trimTrailingZeros: bool) returns (s: string)
    ensures s == Text(d, trimTrailingZeros)
  {
    hide Digits, TrimZeros;
    if d.exp >= 0 {
      return IntString(d.Rescale(0).value);
    }
    var str := Digits(Abs(d.value));
    var intPart, fractionalPart;
    if |str| > -d.exp {
      intPart := str[..|str| + d.exp];
      fractionalPart := str[|str| + d.exp..];
    } else {
      intPart := "0";
      var num0s := -d.exp - |str|;
      fractionalPart := Zeros(num0s) + str;
    }
    assert intPart == IntDigits(str, -d.exp) && fractionalPart == FracDigits(str, -d.exp);
    if trimTrailingZeros {
      fractionalPart := TrimTrailingZeros(fractionalPart);
    }
    var number := intPart;
    if |fractionalPart| > 0 {
      number := number + "." + fractionalPart;
    }
    if d.value < 0 {
      return "-" + number;
    }
    return number;
  }

  // ----- Parsing -----

  /** Why a text is not a decimal.  The two messages about a bad exponent are one error here. */
  datatype ParseError = BadExponent | TooManyPoints | NotANumber | FractionTooLong

  datatype Parsed = Ok(value: Dec) | Err(error: ParseError)

  /** The first position of one of the characters, or the length. */
  function IndexAny(s: string, chars: set<char>): (i: nat)
    ensures i <= |s|
    ensures i < |s| ==> s[i] in chars
    ensures forall j :: 0 <= j < i ==> s[j] !in chars
  {
    if s == [] || s[0] in chars then 0 else 1 + IndexAny(s[1..], chars)
  }

  /** An optionally signed, nonempty string of digits. */
  function ParseInt(s: string): Option<int> {
    if s != [] && s[0] == '-' then
      if AllDigits(s[1..]) && |s| > 1 then Some(-Val(s[1..])) else None
    else
      var t := if s != [] && s[0] == '+' then s[1..] else s;
      if AllDigits(t) && |t| > 0 then Some(Val(t)) else None
  }

  /** The text before the exponent mark: at most one point, trailing zeros of the fraction dropped. */
  function ParseMantissa(s: string, exp: int): Parsed {
    var p := IndexAny(s, {'.'});
    var fraction := if p < |s| then s[p + 1..] else "";
    if '.' in fraction then Err(TooManyPoints)
    else
      var decimalPart := TrimZeros(fraction);
      match ParseInt(s[..p] + decimalPart)
      case None => Err(NotANumber)
      case Some(v) =>
        var e := exp - |decimalPart|;
        if InInt32(e) then Ok(Dec(v, e)) else Err(FractionTooLong)
  }

  function NewFromString(s: string): Parsed {
    var i := IndexAny(s, {'E', 'e'});
    if i == |s| then ParseMantissa(s, 0)
    else
      match ParseInt(s[i + 1..])
      case None => Err(BadExponent)
      case Some(exp) => if InInt32(exp) then ParseMantissa(s[..i], exp) else Err(BadExponent)
  }

  // ----- Parsing undoes printing -----

  lemma IndexAnyAbsent(s: string, chars: set<char>)
    requires forall j :: 0 <= j < |s| ==> s[j] !in chars
    ensures IndexAny(s, chars) == |s|
  {
  }

  /** Where the point of a printed number is, if it has one. */
  lemma PointOf(front: string, frac: string)
    requires forall j :: 0 <= j < |front| ==> front[j] != '.'
    ensures IndexAny(Number(front, frac), {'.'}) == |front|
  {
    var s := Number(front, frac);
    if |frac| == 0 {
      IndexAnyAbsent(s, {'.'});
    } else {
      assert s[|front|] == '.';
      assert forall j :: 0 <= j < |front| ==> s[j] == front[j];
      var p := IndexAny(s, {'.'});
      assert p <= |front|;
    }
  }

  /** A printed number whose front is free of points and exponent marks parses to front and fraction. */
  lemma ParseFront(front: string, frac: string, v: int)
    requires forall j :: 0 <= j < |front| ==> front[j] == '-' || IsDigit(front[j])
    requires AllDigits(frac) && InInt32(-|TrimZeros(frac)|)
    requires ParseInt(front + TrimZeros(frac)) == Some(v)
    ensures NewFromString(Number(front, frac)) == Ok(Dec(v, -|TrimZeros(frac)|))
  {
    hide TrimZeros, ParseInt;
    var s := Number(front, frac);
    assert forall j :: 0 <= j < |s| ==> s[j] == '-' || s[j] == '.' || IsDigit(s[j]);
    NoExponentMark(s);
    PointOf(front, frac);
    hide NewFromString, Number;
    MantissaOf(front, frac);
  }

  lemma NoExponentMark(s: string)
    requires forall j :: 0 <= j < |s| ==> s[j] == '-' || s[j] == '.' || IsDigit(s[j])
    ensures NewFromString(s) == ParseMantissa(s, 0)
  {
  }

  lemma DigitsOnly(negative: bool, digits: string)
    requires AllDigits(digits) && |digits| > 0
    ensures ParseInt(Signed(negative, digits)) == Some(SignedVal(negative, digits))
  {
  }

  /** The sign belongs to the front of the number. */
  lemma SignMovesIn(negative: bool, intPart: string, frac: string)
    ensures Signed(negative, Number(intPart, frac)) == Number(Signed(negative, intPart), frac)
  {
  }

  lemma SignFirst(negative: bool, a: string, b: string)
    ensures Signed(negative, a + b) == Signed(negative, a) + b
  {
  }

  lemma SignedChars(negative: bool, digits: string)
    requires AllDigits(digits)
    ensures var s := Signed(negative, digits); forall j :: 0 <= j < |s| ==> s[j] == '-' || IsDigit(s[j])
  {
  }

  /** A printed number, with or without a point, parses to its digits. */
  lemma ParseNumber(negative: bool, intPart: string, frac: string)
    requires AllDigits(intPart) && |intPart| > 0 && AllDigits(frac) && InInt32(-|TrimZeros(frac)|)
    ensures AllDigits(intPart + TrimZeros(frac))
    ensures NewFromString(Signed(negative, Number(intPart, frac)))
         == Ok(Dec(SignedVal(negative, intPart + TrimZeros(frac)), -|TrimZeros(frac)|))
  {
    hide TrimZeros, Signed, Number, NewFromString, ParseInt, SignedVal;
    var front, t := Signed(negative, intPart), TrimZeros(frac);
    SignMovesIn(negative, intPart, frac);
    SignFirst(negative, intPart, t);
    DigitsOnly(negative, intPart + t);
    SignedChars(negative, intPart);
    ParseFront(front, frac, SignedVal(negative, intPart + t));
  }

  function SignedVal(negative: bool, digits: string): int
    requires AllDigits(digits)
  {
    if negative then -Val(digits) else Val(digits)
  }

  lemma MantissaOf(front: string, frac: string)
    requires IndexAny(Number(front, frac), {'.'}) == |front| && AllDigits(frac)
    requires ParseInt(front + TrimZeros(frac)).Some? && InInt32(-|TrimZeros(frac)|)
    ensures ParseMantissa(Number(front, frac), 0)
         == Ok(Dec(ParseInt(front + TrimZeros(frac)).value, -|TrimZeros(frac)|))
  {
    hide Val, ParseInt, TrimZeros;
    var s := Number(front, frac);
    assert s[..|front|] == front;
    if |frac| > 0 {
      assert s[|front| + 1..] == frac;
    }
  }

  lemma PartsShape(str: string, k: nat)
    requires AllDigits(str) && |str| > 0
    ensures var whole, frac := IntDigits(str, k), FracDigits(str, k);
            && AllDigits(whole) && |whole| > 0 && AllDigits(frac) && |frac| == k
            && whole + frac == if |str| > k then str else Zeros(k - |str| + 1) + str
  {
  }

  /** The printed digits stand for the coefficient. */
  lemma PartsValue(n: nat, k: nat)
    ensures var str := Digits(n);
            var whole, frac := IntDigits(str, k), FracDigits(str, k);
            && AllDigits(whole) && |whole| > 0 && AllDigits(frac) && |frac| == k
            && AllDigits(whole + TrimZeros(frac))
            && n == Val(whole + TrimZeros(frac)) * Pow10(k - |TrimZeros(frac)|)
  {
    hide IntDigits, FracDigits, Digits, Val, TrimZeros, Pow10;
    var str := Digits(n);
    PartsShape(str, k);
    ValDigits(n);
    ValPadded(k, str);
    ValTrimmed(IntDigits(str, k), FracDigits(str, k));
  }

  lemma ValPadded(k: nat, str: string)
    requires AllDigits(str)
    ensures |str| <= k ==> Val(Zeros(k - |str| + 1) + str) == Val(str)
  {
    hide Val;
    if |str| <= k {
      ValZeros(k - |str| + 1);
      ValConcat(Zeros(k - |str| + 1), str);
    }
  }

  lemma ValTrimmed(whole: string, frac: string)
    requires AllDigits(whole) && AllDigits(frac)
    ensures AllDigits(whole + TrimZeros(frac))
    ensures Val(whole + frac) == Val(whole + TrimZeros(frac)) * Pow10(|frac| - |TrimZeros(frac)|)
  {
    var t := TrimZeros(frac);
    var zeros := Zeros(|frac| - |t|);
    TrimmedZeros(frac);
    assert whole + frac == (whole + t) + zeros;
    ValZeros(|zeros|);
    ValConcat(whole + t, zeros);
  }

  /** Printing and parsing gives back the same number, trimmed or not. */
  lemma ParseText(d: Dec, trim: bool)
    requires InInt32(d.exp)
    ensures NewFromString(Text(d, trim)).Ok?
    ensures Num(NewFromString(Text(d, trim)).value) == Num(d)
  {
    if d.exp >= 0 {
      ParseWhole(d, trim);
    } else {
      ParseFraction(d, trim);
    }
  }

  lemma ParseWhole(d: Dec, trim: bool)
    requires d.exp >= 0
    ensures NewFromString(Text(d, trim)) == Ok(Dec(At(d, 0), 0))
    ensures Num(Dec(At(d, 0), 0)) == Num(d)
  {
    hide Num, At, Ten, Scale, NewFromString;
    RescaleDown(d, 0);
    NumAt(d, 0);
    NumOf(At(d, 0), 0);
    var n := Abs(At(d, 0));
    ParseNumber(At(d, 0) < 0, Digits(n), "");
    ValDigits(n);
    assert Digits(n) + "" == Digits(n);
  }

  lemma ParseFraction(d: Dec, trim: bool)
    requires d.exp < 0 && InInt32(d.exp)
    ensures NewFromString(Text(d, trim)).Ok?
    ensures Num(NewFromString(Text(d, trim)).value) == Num(d)
  {
    hide Num, At, Ten, Scale, NewFromString, Digits, IntDigits, FracDigits, Number, Signed;
    var str := Digits(Abs(d.value));
    var whole, frac := IntDigits(str, -d.exp), FracDigits(str, -d.exp);
    PartsValue(Abs(d.value), -d.exp);
    TrimTwice(frac);
    var t := TrimZeros(frac);
    ParseNumber(d.value < 0, whole, if trim then t else frac);
    SameNumber(d, Val(whole + t), |t|);
  }

  lemma SameNumber(d: Dec, v: int, k: int)
    requires 0 <= k <= -d.exp && Abs(d.value) == v * Pow10(-d.exp - k)
    ensures Num(Dec(if d.value < 0 then -v else v, -k)) == Num(d)
  {
    hide Num, Ten, Scale;
    var r := Dec(if d.value < 0 then -v else v, -k);
    assert At(r, d.exp) == d.value;
    NumAt(r, d.exp);
    NumOf(d.value, d.exp);
  }

  // ----- The trimmed text is canonical -----

  lemma DigitsTimesTen(n: nat)
    requires n > 0
    ensures Digits(10 * n) == Digits(n) + "0"
  {
  }

  /** One more fractional digit, when the digits get a zero appended. */
  lemma PartsStep(str: string, k: nat)
    requires |str| > 0
    ensures FracDigits(str + "0", k + 1) == FracDigits(str, k) + "0"
    ensures IntDigits(str + "0", k + 1) == IntDigits(str, k)
    ensures k == 0 ==> FracDigits(str, k) == "" && IntDigits(str, k) == str
  {
  }

  lemma ZeroParts(k: nat)
    ensures Digits(0) == "0" && IntDigits("0", k) == "0" && TrimZeros(FracDigits("0", k)) == ""
  {
    TrimAllZeros(k);
    assert k > 0 ==> FracDigits("0", k) == Zeros(k);
  }

  /** The unsigned, trimmed text of n with k fractional digits. */
  function FractionText(n: nat, k: nat): string {
    Number(IntDigits(Digits(n), k), TrimZeros(FracDigits(Digits(n), k)))
  }

  lemma FractionStep(n: nat, k: nat)
    ensures FractionText(10 * n, k + 1) == FractionText(n, k)
  {
    hide IntDigits, FracDigits, TrimZeros, Digits;
    if n == 0 {
      ZeroParts(k);
      ZeroParts(k + 1);
    } else {
      DigitsTimesTen(n);
      TrimAppendedZero(FracDigits(Digits(n), k));
      PartsStep(Digits(n), k);
    }
  }

  lemma FractionAtZero(d: Dec)
    requires d.exp <= 0
    ensures Text(d, true) == Signed(d.value < 0, FractionText(Abs(d.value), -d.exp))
  {
    if d.exp == 0 {
      var str := Digits(Abs(d.value));
      hide Digits;
      PartsStep(str, 0);
    }
  }

  lemma TextStepWhole(d: Dec)
    requires d.exp > 0
    ensures Text(Dec(10 * d.value, d.exp - 1), true) == Text(d, true)
  {
    hide IntString, Quo;
    var next := Dec(10 * d.value, d.exp - 1);
    RescaleDown(d, 0);
    RescaleDown(next, 0);
    AtUp(d, 0);
  }

  lemma AtUp(d: Dec, m: int)
    requires m < d.exp
    ensures At(Dec(10 * d.value, d.exp - 1), m) == At(d, m)
  {
  }

  lemma TextStepFraction(d: Dec)
    requires d.exp <= 0
    ensures Text(Dec(10 * d.value, d.exp - 1), true) == Text(d, true)
  {
    hide FractionText, Text, Signed;
    FractionStep(Abs(d.value), -d.exp);
    FractionAtZero(d);
    FractionAtZero(Dec(10 * d.value, d.exp - 1));
  }

  /** The text of a decimal is that of any decimal with more digits and the same number. */
  lemma {:induction false} TextAt(d: Dec, m: int)
    requires m <= d.exp
    ensures Text(Dec(At(d, m), m), true) == Text(d, true)
    decreases d.exp - m
  {
    if m == d.exp {
      assert Dec(At(d, m), m) == d;
    } else {
      hide Text;
      var next := Dec(10 * d.value, d.exp - 1);
      if d.exp > 0 {
        TextStepWhole(d);
      } else {
        TextStepFraction(d);
      }
      AtUp(d, m);
      TextAt(next, m);
    }
  }

  /** Equal texts are equal numbers, whatever the two exponents are. */
  lemma TextIsCanonical(d1: Dec, d2: Dec)
    requires InInt32(d1.exp) && InInt32(d2.exp)
    ensures Text(d1, true) == Text(d2, true) <==> d1.Cmp(d2) == 0
  {
    hide Text, Num, At, Ten, NewFromString, Dec.Cmp;
    CmpIsOrder(d1, d2);
    ParseText(d1, true);
    ParseText(d2, true);
    if Num(d1) == Num(d2) {
      var m := Min(d1.exp, d2.exp);
      NumAt(d1, m);
      NumAt(d2, m);
      ScaleOrder(At(d1, m), At(d2, m), Ten(m));
      TextAt(d1, m);
      TextAt(d2, m);
    }
  }
}
