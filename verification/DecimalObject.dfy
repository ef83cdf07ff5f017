/** Decimals as the program holds them (pkg/util/decimal.go): a pointer to a mutable big integer and an
    exponent.  Results may share their integer with an argument or a package constant, and some
    operations overwrite integers in place; yet no method here may change an integer that existed
    before the call, so every Decimal and every shared constant keeps its value. */
module DecimalObject {
  import opened Options
  import opened IntegerMath
  import D = Decimals
  import DecimalPow
  import DecimalText

  /** An arbitrary-precision integer; methods store their result in the receiver. */
  class BigInt {
    var n: int

    constructor (n: int)
      ensures this.n == n
    {
      this.n := n;
    }

    method Set(x: BigInt)
      modifies this
      ensures n == old(x.n)
    {
      n := x.n;
    }

    method Add(x: BigInt, y: BigInt)
      modifies this
      ensures n == old(x.n) + old(y.n)
    {
      n := x.n + y.n;
    }

    method Sub(x: BigInt, y: BigInt)
      modifies this
      ensures n == old(x.n) - old(y.n)
    {
      n := x.n - y.n;
    }

    method Mul(x: BigInt, y: BigInt)
      modifies this
      ensures n == old(x.n) * old(y.n)
    {
      n := x.n * y.n;
    }

    /** Division truncated toward zero. */
    method Quo(x: BigInt, y: BigInt)
      requires y.n != 0
      modifies this
      ensures n == IntegerMath.Quo(old(x.n), old(y.n))
    {
      n := IntegerMath.Quo(x.n, y.n);
    }

    method QuoRem(x: BigInt, y: BigInt, r: BigInt)
      requires y.n != 0 && r != this
      modifies this, r
      ensures n == IntegerMath.Quo(old(x.n), old(y.n)) && r.n == Rem(old(x.n), old(y.n))
    {
      n, r.n := IntegerMath.Quo(x.n, y.n), Rem(x.n, y.n);
    }

    /** Euclidean division. */
    method DivMod(x: BigInt, y: BigInt, m: BigInt)
      requires y.n != 0 && m != this
      modifies this, m
      ensures n == old(x.n) / old(y.n) && m.n == old(x.n) % old(y.n)
    {
      n, m.n := x.n / y.n, x.n % y.n;
    }

    method Exp10(e: nat)
      modifies this
      ensures n == Pow10(e)
    {
      n := Pow10(e);
    }

    method Neg(x: BigInt)
      modifies this
      ensures n == -old(x.n)
    {
      n := -x.n;
    }

    method Abs(x: BigInt)
      modifies this
      ensures n == IntegerMath.Abs(old(x.n))
    {
      n := IntegerMath.Abs(x.n);
    }

    /** Shift left by one bit. */
    method Double(x: BigInt)
      modifies this
      ensures n == 2 * old(x.n)
    {
      n := 2 * x.n;
    }
  }

  /** A decimal; the zero value has no integer. */
  datatype Decimal = Decimal(value: BigInt?, exp: int)

  function View(d: Decimal): D.Dec
    reads d.value
  {
    D.Dec(if d.value == null then 0 else d.value.n, d.exp)
  }

  /** The integers the package shares between calls. */
  class Constants {
    const one: BigInt
    const two: BigInt
    const four: BigInt
    const five: BigInt
    const ten: BigInt
    const twenty: BigInt
    const fiveDec: Decimal
    const zero: Decimal

    ghost predicate Intact()
      reads one, two, four, five, ten, twenty, fiveDec.value, zero.value
    {
      && one.n == 1 && two.n == 2 && four.n == 4 && five.n == 5 && ten.n == 10 && twenty.n == 20
      && View(fiveDec) == D.Dec(5, 0) && View(zero) == D.Dec(0, 1)
    }

    constructor ()
      ensures Intact()
    {
      one := new BigInt(1);
      two := new BigInt(2);
      four := new BigInt(4);
      five := new BigInt(5);
      ten := new BigInt(10);
      twenty := new BigInt(20);
      var v := new BigInt(5);
      fiveDec := Decimal(v, 0);
      v := new BigInt(0);
      zero := Decimal(v, 1);
    }
  }

  /** Give a decimal without an integer a new zero. */
  method Initialized(d: Decimal) returns (value: BigInt)
    ensures value.n == View(d).value && (if d.value == null then fresh(value) else value == d.value)
  {
    if d.value == null {
      value := new BigInt(0);
    } else {
      value := d.value;
    }
  }

  method New(value: int, exp: int) returns (r: Decimal)
    ensures r.value != null && fresh(r.value) && View(r) == D.Dec(value, exp)
  {
    var v := new BigInt(value);
    r := Decimal(v, exp);
  }

  method Rescale(d: Decimal, exp: int) returns (r: Decimal)
    ensures r.value != null && fresh(r.value) && View(r) == View(d).Rescale(exp)
  {
    var v := Initialized(d);
    var value := new BigInt(0);
    var expScale := new BigInt(0);
    value.Set(v);
    expScale.Exp10(Abs(exp - d.exp));
    if exp > d.exp {
      value.Quo(value, expScale);
    } else if exp < d.exp {
      value.Mul(value, expScale);
    }
    r := Decimal(value, exp);
  }

  method Neg(d: Decimal) returns (r: Decimal)
    ensures r.value != null && fresh(r.value) && View(r) == View(d).Neg()
  {
    var v := Initialized(d);
    var value := new BigInt(0);
    value.Neg(v);
    r := Decimal(value, d.exp);
  }

  method Magnitude(d: Decimal) returns (r: Decimal)
    ensures r.value != null && fresh(r.value) && View(r) == View(d).Magnitude()
  {
    var v := Initialized(d);
    var value := new BigInt(0);
    value.Abs(v);
    r := Decimal(value, d.exp);
  }

  method Add(d: Decimal, d2: Decimal) returns (r: Decimal)
    ensures r.value != null && fresh(r.value) && View(r) == View(d).Add(View(d2))
  {
    var baseScale := D.Min(d.exp, d2.exp);
    var rd := Rescale(d, baseScale);
    var rd2 := Rescale(d2, baseScale);
    var value := new BigInt(0);
    value.Add(rd.value, rd2.value);
    r := Decimal(value, baseScale);
  }

  method Sub(d: Decimal, d2: Decimal) returns (r: Decimal)
    ensures r.value != null && fresh(r.value) && View(r) == View(d).Sub(View(d2))
  {
    var baseScale := D.Min(d.exp, d2.exp);
    var rd := Rescale(d, baseScale);
    var rd2 := Rescale(d2, baseScale);
    var value := new BigInt(0);
    value.Sub(rd.value, rd2.value);
    r := Decimal(value, baseScale);
  }

  /** What a fallible operation returns: None where the program panics. */
  ghost predicate Returns(r: Option<Decimal>, spec: Option<D.Dec>)
    reads if r.Some? then {r.value.value} else {}
  {
    match spec
    case None => r.None?
    case Some(d) => r.Some? && View(r.value) == d
  }

  method Mul(d: Decimal, d2: Decimal) returns (r: Option<Decimal>)
    ensures Returns(r, View(d).Mul(View(d2)))
    ensures r.Some? ==> r.value.value != null && fresh(r.value.value)
  {
    var v := Initialized(d);
    var v2 := Initialized(d2);
    var exp := d.exp + d2.exp;
    if !D.InInt32(exp) {
      return None;
    }
    var value := new BigInt(0);
    value.Mul(v, v2);
    r := Some(Decimal(value, exp));
  }

  method Cmp(d: Decimal, d2: Decimal) returns (c: int)
    ensures c == View(d).Cmp(View(d2))
  {
    var v := Initialized(d);
    var v2 := Initialized(d2);
    if d.exp == d2.exp {
      return Sign(v.n - v2.n);
    }
    var baseExp := D.Min(d.exp, d2.exp);
    var rd := Rescale(d, baseExp);
    var rd2 := Rescale(d2, baseExp);
    c := Sign(rd.value.n - rd2.value.n);
  }

  method QuoRem(d: Decimal, d2: Decimal, precision: int) returns (r: Option<(Decimal, Decimal)>)
    ensures r.None? <==> View(d).QuoRem(View(d2), precision).None?
    ensures r.Some? ==>
              var (q, rem) := r.value;
              && q.value != null && fresh(q.value) && rem.value != null && fresh(rem.value)
              && View(d).QuoRem(View(d2), precision) == Some((View(q), View(rem)))
  {
    hide IntegerMath.Quo, Rem, Pow10;
    var v := Initialized(d);
    var v2 := Initialized(d2);
    if v2.n == 0 {
      return None;
    }
    var scale := D.WrapInt32(-precision);
    var e := D.WrapInt32(d.exp - d2.exp - scale);
    if !D.InInt32(e) {
      return None;
    }
    var aa := new BigInt(0);
    var bb := new BigInt(0);
    var scalerest;
    if e < 0 {
      aa.Set(v);
      bb.Exp10(-e);
      bb.Mul(v2, bb);
      assert bb.n != 0 by {
        MultipleAtLeast(v2.n, Pow10(-e), 1);
      }
      scalerest := d.exp;
    } else {
      aa.Exp10(e);
      aa.Mul(v, aa);
      bb.Set(v2);
      scalerest := D.WrapInt32(scale + d2.exp);
    }
    var q := new BigInt(0);
    var rem := new BigInt(0);
    q.QuoRem(aa, bb, rem);
    r := Some((Decimal(q, scale), Decimal(rem, scalerest)));
  }

  method DivRound(d: Decimal, d2: Decimal, precision: int) returns (r: Option<Decimal>)
    ensures Returns(r, View(d).DivRound(View(d2), precision))
    ensures r.Some? ==> r.value.value != null && fresh(r.value.value)
  {
    hide IntegerMath.Quo, Rem, Pow10;
    var qr := QuoRem(d, d2, precision);
    if qr.None? {
      return None;
    }
    var (q, rem) := qr.value;
    var rv2 := new BigInt(0);
    rv2.Abs(rem.value);
    rv2.Double(rv2);
    var size := Magnitude(d2);
    var c := Cmp(Decimal(rv2, D.WrapInt32(rem.exp + precision)), size);
    if c < 0 {
      return Some(q);
    }
    var one := New(1, D.WrapInt32(-precision));
    var v := Initialized(d);
    var v2 := Initialized(d2);
    var next;
    if Sign(v.n) * Sign(v2.n) < 0 {
      next := Sub(q, one);
    } else {
      next := Add(q, one);
    }
    r := Some(next);
  }

  method Div(d: Decimal, d2: Decimal) returns (r: Option<Decimal>)
    ensures Returns(r, View(d).Div(View(d2)))
    ensures r.Some? ==> r.value.value != null && fresh(r.value.value)
  {
    r := DivRound(d, d2, D.DIVISION_PRECISION);
  }

  /** Truncate returns its receiver's own integer when there is nothing to cut. */
  method Truncate(d: Decimal, precision: int) returns (r: Decimal)
    ensures View(r) == View(d).Truncate(precision)
    ensures r.value != null && (fresh(r.value) || r == d)
  {
    var v := Initialized(d);
    if precision >= 0 && -precision > d.exp {
      r := Rescale(d, -precision);
    } else {
      r := Decimal(v, d.exp);
    }
  }

  method Mod(d: Decimal, d2: Decimal) returns (r: Option<Decimal>)
    ensures Returns(r, View(d).Mod(View(d2)))
  {
    hide D.Dec.DivRound, D.Dec.Div, D.Dec.Truncate, D.Dec.Mul, D.Dec.Sub;
    var q := Div(d, d2);
    if q.None? {
      return None;
    }
    var quo := Truncate(q.value, 0);
    var product := Mul(d2, quo);
    if product.None? {
      return None;
    }
    var difference := Sub(d, product.value);
    r := Some(difference);
  }

  /** Round overwrites the integer of its rescaled copy several times. */
  method Round(c: Constants, d: Decimal, places: int) returns (ret: Decimal)
    requires c.Intact()
    ensures ret.value != null && fresh(ret.value) && View(ret) == View(d).Round(places)
  {
    hide IntegerMath.Quo, Pow10, D.WrapInt32;
    ret := Rescale(d, D.WrapInt32(-places - 1));
    var value := ret.value;
    if value.n < 0 {
      value.Sub(value, c.five);
    } else {
      value.Add(value, c.five);
    }
    var m := new BigInt(0);
    value.DivMod(value, c.ten, m);
    ret := Decimal(value, D.WrapInt32(ret.exp + 1));
    if value.n < 0 && m.n != 0 {
      value.Add(value, c.one);
    }
  }

  /** RoundBank adjusts the integer that Round has just made. */
  method RoundBank(c: Constants, d: Decimal, places: int) returns (round: Decimal)
    requires c.Intact()
    ensures round.value != null && fresh(round.value) && View(round) == View(d).RoundBank(places)
  {
    hide IntegerMath.Quo, Pow10, D.WrapInt32, D.Dec.Sub, D.Dec.Cmp, D.Dec.Round;
    round := Round(c, d, places);
    var difference := Sub(d, round);
    var remainder := Magnitude(difference);
    var half := New(5, D.WrapInt32(-places - 1));
    var order := Cmp(remainder, half);
    var value := round.value;
    if order == 0 && value.n % 2 != 0 {
      if value.n < 0 {
        value.Add(value, c.one);
      } else {
        value.Sub(value, c.one);
      }
    }
  }

  /** The copy with exponent zero shares its integer with the receiver. */
  method Lowered(c: Constants, d: Decimal) returns (r: Option<Decimal>)
    requires c.Intact()
    ensures Returns(r, View(d).Lowered())
  {
    hide D.Dec.Mod, D.Dec.Cmp, D.Dec.Sub, D.Xor;
    if d.exp < 0 {
      var one := New(D.Xor(10, -d.exp), d.exp);
      var rest := Mod(Decimal(d.value, 0), c.fiveDec);
      if rest.None? {
        return None;
      }
      var order := Cmp(rest.value, c.zero);
      if order == 0 {
        var lower := Sub(d, one);
        return Some(lower);
      }
    }
    return Some(d);
  }

  /** RoundCash wraps a shared constant in a decimal and computes with it. */
  method RoundCash(c: Constants, d: Decimal, interval: int) returns (r: Option<Decimal>)
    requires c.Intact()
    ensures Returns(r, View(d).RoundCash(interval))
  {
    hide D.Dec.Round, D.Dec.DivRound, D.Dec.Div, D.Dec.Truncate, D.Dec.Lowered;
    var from := Some(d);
    var iVal;
    match interval {
      case 5 => iVal := c.twenty;
      case 10 => iVal := c.ten;
      case 15 =>
        from := Lowered(c, d);
        iVal := c.ten;
      case 25 => iVal := c.four;
      case 50 => iVal := c.two;
      case 100 => iVal := c.one;
      case _ => return None;
    }
    if from.None? {
      return None;
    }
    var dVal := Decimal(iVal, 0);
    var scaled := Mul(from.value, dVal);
    if scaled.None? {
      return None;
    }
    var rounded := Round(c, scaled.value, 0);
    var quo := Div(rounded, dVal);
    if quo.None? {
      return None;
    }
    var cut := Truncate(quo.value, 2);
    r := Some(cut);
  }

  /** Floor returns its receiver's own integer for whole numbers. */
  method Floor(d: Decimal) returns (r: Decimal)
    ensures View(r) == View(d).Floor()
    ensures r.value != null && (fresh(r.value) || r == d)
  {
    var v := Initialized(d);
    if d.exp >= 0 {
      return Decimal(v, d.exp);
    }
    var exp := new BigInt(10);
    var z := new BigInt(0);
    var m := new BigInt(0);
    exp.Exp10(-d.exp);
    z.DivMod(v, exp, m);
    r := Decimal(z, 0);
  }

  method Ceil(c: Constants, d: Decimal) returns (r: Decimal)
    requires c.Intact()
    ensures View(r) == View(d).Ceil()
    ensures r.value != null && (fresh(r.value) || r == d)
  {
    var v := Initialized(d);
    if d.exp >= 0 {
      return Decimal(v, d.exp);
    }
    var exp := new BigInt(10);
    var z := new BigInt(0);
    var m := new BigInt(0);
    exp.Exp10(-d.exp);
    z.DivMod(v, exp, m);
    if m.n != 0 {
      z.Add(z, c.one);
    }
    r := Decimal(z, 0);
  }

  method IntPart(d: Decimal) returns (n: int)
    ensures n == View(d).IntPart()
  {
    var scaled := Rescale(d, 0);
    n := D.WrapInt64(scaled.value.n);
  }

  method Pow(d: Decimal, d2: Decimal) returns (r: Option<Decimal>)
    requires D.InInt32(d2.exp)
    ensures Returns(r, DecimalPow.Pow(View(d), View(d2)))
    decreases DecimalPow.Size(View(d2))
  {
    hide D.Dec.Div, D.Dec.Mul, D.Dec.IntPart, DecimalPow.Size;
    var n := IntPart(d2);
    if n == 0 {
      var unit := New(1, 0);
      return Some(unit);
    }
    var two := New(2, 0);
    var half := Div(d2, two);
    if half.None? {
      return None;
    }
    DecimalPow.HalvingShrinks(View(d2), View(half.value));
    var temp := Pow(d, half.value);
    if temp.None? {
      return None;
    }
    var square := Mul(temp.value, temp.value);
    if square.None? || Rem(n, 2) == 0 {
      return square;
    }
    if n > 0 {
      r := Mul(square.value, d);
    } else {
      r := Div(square.value, d);
    }
  }

  method String(d: Decimal, trimTrailingZeros: bool) returns (s: string)
    ensures s == DecimalText.Text(View(d), trimTrailingZeros)
  {
    var v := Initialized(d);
    s := DecimalText.StringOf(D.Dec(v.n, d.exp), trimTrailingZeros);
  }

  // ----- Whole programs over decimals -----

  /** One operation on the registers of a program. */
  datatype Op =
    | OpNeg(i: nat)
    | OpAbs(i: nat)
    | OpAdd(i: nat, j: nat)
    | OpSub(i: nat, j: nat)
    | OpMul(i: nat, j: nat)
    | OpQuoRem(i: nat, j: nat, precision: int)
    | OpDivRound(i: nat, j: nat, precision: int)
    | OpMod(i: nat, j: nat)
    | OpPow(i: nat, j: nat)
    | OpRound(i: nat, places: int)
    | OpRoundBank(i: nat, places: int)
    | OpRoundCash(i: nat, interval: int)
    | OpTruncate(i: nat, precision: int)
    | OpFloor(i: nat)
    | OpCeil(i: nat)
    | OpCmp(i: nat, j: nat)
    | OpString(i: nat, trim: bool)

  /** What an operation shows to the caller. */
  datatype Output = Order(c: int) | Printed(s: string)

  /** What an operation gives: a panic, new registers, or an output. */
  datatype Effect<T> = Panics | One(d: T) | Two(q: T, r: T) | Shows(output: Output)

  predicate Binary(op: Op) {
    op.OpAdd? || op.OpSub? || op.OpMul? || op.OpQuoRem? || op.OpDivRound? || op.OpMod? || op.OpPow? || op.OpCmp?
  }

  predicate InRange(op: Op, n: nat) {
    && op.i < n
    && (Binary(op) ==> op.j < n)
    && (op.OpTruncate? ==> D.InInt32(-op.precision))
  }

  /** The registers an operation adds. */
  function Added<T>(e: Effect<T>): seq<T> {
    match e
    case One(d) => [d]
    case Two(q, r) => [q, r]
    case _ => []
  }

  function Shown<T>(e: Effect<T>): seq<Output> {
    if e.Shows? then [e.output] else []
  }

  /** How many that are, unless it panics. */
  function Width(op: Op): nat {
    if op.OpQuoRem? then 2 else if op.OpCmp? || op.OpString? then 0 else 1
  }

  /** The operations use registers that exist by then. */
  predicate WellFormed(ops: seq<Op>, n: nat) {
    ops != [] ==> InRange(ops[0], n) && WellFormed(ops[1..], n + Width(ops[0]))
  }

  function Result(r: Option<D.Dec>): Effect<D.Dec> {
    match r
    case None => Panics
    case Some(d) => One(d)
  }

  /** Exponents are int32s. */
  predicate Exponents(vals: seq<D.Dec>) {
    forall k :: 0 <= k < |vals| ==> D.InInt32(vals[k].exp)
  }

  /** The operation on values alone. */
  function Meaning(op: Op, vals: seq<D.Dec>): Effect<D.Dec>
    requires InRange(op, |vals|) && Exponents(vals)
  {
    var d := vals[op.i];
    match op
    case OpNeg(_) => One(d.Neg())
    case OpAbs(_) => One(d.Magnitude())
    case OpAdd(_, j) => One(d.Add(vals[j]))
    case OpSub(_, j) => One(d.Sub(vals[j]))
    case OpMul(_, j) => Result(d.Mul(vals[j]))
    case OpQuoRem(_, j, precision) =>
      (match d.QuoRem(vals[j], precision)
       case None => Panics
       case Some((q, r)) => Two(q, r))
    case OpDivRound(_, j, precision) => Result(d.DivRound(vals[j], precision))
    case OpMod(_, j) => Result(d.Mod(vals[j]))
    case OpPow(_, j) => Result(DecimalPow.Pow(d, vals[j]))
    case OpRound(_, places) => One(d.Round(places))
    case OpRoundBank(_, places) => One(d.RoundBank(places))
    case OpRoundCash(_, interval) => Result(d.RoundCash(interval))
    case OpTruncate(_, precision) => One(d.Truncate(precision))
    case OpFloor(_) => One(d.Floor())
    case OpCeil(_) => One(d.Ceil())
    case OpCmp(_, j) => Shows(Order(d.Cmp(vals[j])))
    case OpString(_, trim) => Shows(Printed(DecimalText.Text(d, trim)))
  }

  // ----- Exponents stay int32s -----

  lemma DivRoundExponent(d: D.Dec, d2: D.Dec, precision: int)
    ensures d.DivRound(d2, precision).Some? ==> D.InInt32(d.DivRound(d2, precision).value.exp)
  {
    D.Wraps(-precision, 0);
    hide D.WrapInt32, D.Dec.Cmp, Pow10, IntegerMath.Quo, Rem;
  }

  lemma QuoRemExponents(d: D.Dec, d2: D.Dec, precision: int)
    requires D.InInt32(d.exp)
    ensures d.QuoRem(d2, precision).Some? ==>
              var (q, r) := d.QuoRem(d2, precision).value; D.InInt32(q.exp) && D.InInt32(r.exp)
  {
    D.Wraps(-precision, 0);
    D.Wraps(D.WrapInt32(-precision) + d2.exp, 0);
    hide D.WrapInt32, Pow10, IntegerMath.Quo, Rem;
  }

  lemma PowExponent(d: D.Dec, d2: D.Dec)
    requires D.InInt32(d2.exp)
    ensures DecimalPow.Pow(d, d2).Some? ==> D.InInt32(DecimalPow.Pow(d, d2).value.exp)
  {
    hide D.Dec.IntPart, D.Dec.DivRound;
    match d2.Div(DecimalPow.TWO) {
      case None =>
      case Some(half) =>
        if d2.IntPart() != 0 {
          DecimalPow.HalvingShrinks(d2, half);
          var temp := DecimalPow.Pow(d, half);
          if temp.Some? && temp.value.Mul(temp.value).Some? {
            DivRoundExponent(temp.value.Mul(temp.value).value, d, D.DIVISION_PRECISION);
          }
        }
    }
  }

  lemma CashExponent(d: D.Dec, interval: int)
    requires D.InInt32(d.exp)
    ensures d.RoundCash(interval).Some? ==> D.InInt32(d.RoundCash(interval).value.exp)
  {
  }

  /** Every operation on decimals with int32 exponents gives decimals with int32 exponents. */
  lemma MeaningExponents(op: Op, vals: seq<D.Dec>)
    requires InRange(op, |vals|) && Exponents(vals)
    ensures Exponents(Added(Meaning(op, vals)))
  {
    var d := vals[op.i];
    match op {
      case OpQuoRem(_, j, precision) => QuoRemExponents(d, vals[j], precision);
      case OpDivRound(_, j, precision) => DivRoundExponent(d, vals[j], precision);
      case OpPow(_, j) => PowExponent(d, vals[j]);
      case OpRoundCash(_, interval) => CashExponent(d, interval);
      case _ =>
    }
    hide D.Dec.QuoRem, D.Dec.DivRound, D.Dec.RoundCash, D.Dec.Cmp, DecimalPow.Pow, DecimalText.Text, Pow10,
      IntegerMath.Quo;
  }

  lemma AddedWidth(op: Op, vals: seq<D.Dec>)
    requires InRange(op, |vals|) && Exponents(vals)
    ensures !Meaning(op, vals).Panics? ==> |Added(Meaning(op, vals))| == Width(op)
  {
    hide D.Dec.QuoRem, D.Dec.DivRound, D.Dec.RoundCash, DecimalPow.Pow, D.Dec.Mod, D.Dec.Cmp, DecimalText.Text;
  }

  // ----- Running a program -----

  /** The registers and the outputs of a program on values, which stops where an operation panics. */
  function Eval(ops: seq<Op>, vals: seq<D.Dec>, shown: seq<Output>): (seq<D.Dec>, seq<Output>)
    requires WellFormed(ops, |vals|) && Exponents(vals)
  {
    if ops == [] || Meaning(ops[0], vals).Panics? then (vals, shown)
    else
      var e := Meaning(ops[0], vals);
      MeaningExponents(ops[0], vals);
      AddedWidth(ops[0], vals);
      Eval(ops[1..], vals + Added(e), shown + Shown(e))
  }

  lemma EvalStep(ops: seq<Op>, vals: seq<D.Dec>, shown: seq<Output>)
    requires WellFormed(ops, |vals|) && Exponents(vals) && ops != []
    ensures InRange(ops[0], |vals|)
    ensures var e := Meaning(ops[0], vals);
            if e.Panics? then Eval(ops, vals, shown) == (vals, shown)
            else
              && WellFormed(ops[1..], |vals + Added(e)|) && Exponents(vals + Added(e))
              && Eval(ops, vals, shown) == Eval(ops[1..], vals + Added(e), shown + Shown(e))
  {
    MeaningExponents(ops[0], vals);
    AddedWidth(ops[0], vals);
    hide Meaning;
  }

  function Views(regs: seq<Decimal>): (vals: seq<D.Dec>)
    reads set k | 0 <= k < |regs| :: regs[k].value
    ensures |vals| == |regs| && forall k :: 0 <= k < |regs| ==> vals[k] == View(regs[k])
  {
    seq(|regs|, k requires 0 <= k < |regs| reads if 0 <= k < |regs| then {regs[k].value} else {} => View(regs[k]))
  }

  lemma ViewsAppend(regs: seq<Decimal>, more: seq<Decimal>)
    ensures Views(regs + more) == Views(regs) + Views(more)
  {
  }

  /** The effect on objects is the effect on values. */
  ghost predicate Agrees(e: Effect<Decimal>, spec: Effect<D.Dec>)
    reads set k | 0 <= k < |Added(e)| :: Added(e)[k].value
  {
    (e.Panics? <==> spec.Panics?) && Views(Added(e)) == Added(spec) && Shown(e) == Shown(spec)
  }

  method Perform(c: Constants, op: Op, regs: seq<Decimal>) returns (e: Effect<Decimal>)
    requires c.Intact() && InRange(op, |regs|) && Exponents(Views(regs))
    ensures Agrees(e, Meaning(op, Views(regs)))
  {
    hide D.Dec.Add, D.Dec.Sub, D.Dec.Mul, D.Dec.QuoRem, D.Dec.DivRound, D.Dec.Mod, D.Dec.Round, D.Dec.RoundBank,
      D.Dec.RoundCash, D.Dec.Truncate, D.Dec.Floor, D.Dec.Ceil, D.Dec.Neg, D.Dec.Magnitude, D.Dec.Cmp,
      DecimalPow.Pow, DecimalText.Text;
    var d := regs[op.i];
    if op.OpQuoRem? || op.OpCmp? || op.OpString? {
      e := PerformOther(op, regs);
      return;
    }
    var plain;
    var fallible := None;
    match op {
      case OpMul(_, j) => fallible := Mul(d, regs[j]);
      case OpDivRound(_, j, precision) => fallible := DivRound(d, regs[j], precision);
      case OpMod(_, j) => fallible := Mod(d, regs[j]);
      case OpPow(_, j) => fallible := Pow(d, regs[j]);
      case OpRoundCash(_, interval) => fallible := RoundCash(c, d, interval);
      case OpNeg(_) => plain := Neg(d); fallible := Some(plain);
      case OpAbs(_) => plain := Magnitude(d); fallible := Some(plain);
      case OpAdd(_, j) => plain := Add(d, regs[j]); fallible := Some(plain);
      case OpSub(_, j) => plain := Sub(d, regs[j]); fallible := Some(plain);
      case OpRound(_, places) => plain := Round(c, d, places); fallible := Some(plain);
      case OpRoundBank(_, places) => plain := RoundBank(c, d, places); fallible := Some(plain);
      case OpTruncate(_, precision) => plain := Truncate(d, precision); fallible := Some(plain);
      case OpFloor(_) => plain := Floor(d); fallible := Some(plain);
      case OpCeil(_) => plain := Ceil(c, d); fallible := Some(plain);
    }
    e := if fallible.Some? then One(fallible.value) else Panics;
  }

  /** The operations that do not give exactly one decimal. */
  method PerformOther(op: Op, regs: seq<Decimal>) returns (e: Effect<Decimal>)
    requires op.OpQuoRem? || op.OpCmp? || op.OpString?
    requires InRange(op, |regs|) && Exponents(Views(regs))
    ensures Agrees(e, Meaning(op, Views(regs)))
  {
    hide D.Dec.QuoRem, D.Dec.Cmp, DecimalText.Text;
    var d := regs[op.i];
    match op {
      case OpQuoRem(_, j, precision) =>
        var qr := QuoRem(d, regs[j], precision);
        e := if qr.Some? then Two(qr.value.0, qr.value.1) else Panics;
      case OpCmp(_, j) =>
        var c := Cmp(d, regs[j]);
        e := Shows(Order(c));
      case OpString(_, trim) =>
        var s := String(d, trim);
        e := Shows(Printed(s));
    }
  }

  /** Any program over decimals, run on shared and mutable integers, computes and shows what it does on
      plain values: no register, old or new, ever changes after it is written. */
  method Execute(c: Constants, ops: seq<Op>, regs: seq<Decimal>) returns (out: seq<Decimal>, shown: seq<Output>)
    requires c.Intact() && WellFormed(ops, |regs|) && Exponents(Views(regs))
    ensures c.Intact() && regs <= out
    ensures Views(regs) == old(Views(regs))
    ensures (Views(out), shown) == Eval(ops, old(Views(regs)), [])
  {
    out, shown := regs, [];
    var rest := ops;
    while rest != []
      invariant regs <= out && c.Intact()
      invariant WellFormed(rest, |out|) && Exponents(Views(out))
      invariant Eval(ops, old(Views(regs)), []) == Eval(rest, Views(out), shown)
      decreases |rest|
    {
      hide Meaning, InRange, Exponents, WellFormed, Eval;
      ghost var before := Views(out);
      EvalStep(rest, before, shown);
      var e := Perform(c, rest[0], out);
      assert Views(out) == before;
      if e.Panics? {
        return;
      }
      ViewsAppend(out, Added(e));
      out, shown := out + Added(e), shown + Shown(e);
      rest := rest[1..];
    }
  }
}
