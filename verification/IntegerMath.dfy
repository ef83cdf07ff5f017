/** Integer division, powers and rounding as the decimals use them, with the meaning of rounding given
    independently of how it is computed. */
module IntegerMath {

  function Abs(x: int): (r: int)
    ensures r >= 0
  {
    if x < 0 then -x else x
  }

  function Sign(x: int): int {
    if x < 0 then -1 else if x == 0 then 0 else 1
  }

  function PowInt(b: int, n: nat): int {
    if n == 0 then 1 else b * PowInt(b, n - 1)
  }

  lemma {:induction false} PowIntAdd(b: int, m: nat, n: nat)
    ensures PowInt(b, m + n) == PowInt(b, m) * PowInt(b, n)
  {
    if m > 0 {
      PowIntAdd(b, m - 1, n);
      assert b * (PowInt(b, m - 1) * PowInt(b, n)) == (b * PowInt(b, m - 1)) * PowInt(b, n);
    }
  }

  function Pow10(n: nat): (r: int)
    ensures r > 0
  {
    if n == 0 then 1 else 10 * Pow10(n - 1)
  }

  lemma {:induction false} Pow10Add(m: nat, n: nat)
    ensures Pow10(m + n) == Pow10(m) * Pow10(n)
  {
    if m > 0 {
      Pow10Add(m - 1, n);
    }
  }

  lemma Pow10Values()
    ensures Pow10(0) == 1 && Pow10(1) == 10 && Pow10(2) == 100
    ensures Pow10(14) == 100000000000000
    ensures Pow10(16) == 10000000000000000
    ensures Pow10(17) == 100000000000000000
  {
  }

  lemma AbsMul(x: int, y: int)
    ensures Abs(x * y) == Abs(x) * Abs(y)
  {
  }

  lemma MulMono(x: int, y: int, k: int)
    requires x <= y && k >= 0
    ensures x * k <= y * k
  {
  }

  /** The size of a multiple of b by d is at least that of b by any smaller count. */
  lemma MultipleAtLeast(d: int, b: int, least: nat)
    requires Abs(d) >= least
    ensures Abs(d * b) >= least * Abs(b)
  {
  }

  // ----- Division truncated toward zero -----

  function Quo(a: int, b: int): int
    requires b != 0
  {
    if a >= 0 then
      if b > 0 then a / b else -(a / -b)
    else
      if b > 0 then -(-a / b) else -a / -b
  }

  function Rem(a: int, b: int): int
    requires b != 0
  {
    a - Quo(a, b) * b
  }

  /** The remainder is smaller than the divisor and carries the dividend's sign. */
  lemma QuoRemBounds(a: int, b: int)
    requires b != 0
    ensures Abs(Rem(a, b)) < Abs(b)
    ensures a >= 0 ==> Rem(a, b) >= 0
    ensures a <= 0 ==> Rem(a, b) <= 0
  {
  }

  /** Those bounds determine quotient and remainder. */
  lemma QuoUnique(a: int, b: int, q: int, r: int)
    requires b != 0 && a == q * b + r && Abs(r) < Abs(b)
    requires a >= 0 ==> r >= 0
    requires a <= 0 ==> r <= 0
    ensures q == Quo(a, b) && r == Rem(a, b)
  {
    QuoRemBounds(a, b);
    var q0 := Quo(a, b);
    hide Quo, Rem;
    assert (q - q0) * b == q * b - q0 * b;
    if q != q0 {
      MultipleAtLeast(q - q0, b, 1);
    }
  }

  // ----- Rounding to the nearest integer -----

  /** q is a nearest integer to a / b. */
  ghost predicate Nearest(q: int, a: int, b: int) {
    2 * Abs(a - q * b) <= Abs(b)
  }

  /** a / b lies exactly between q and a neighbour. */
  ghost predicate Tie(q: int, a: int, b: int) {
    2 * Abs(a - q * b) == Abs(b)
  }

  /** Round half away from zero. */
  ghost predicate HalfAway(q: int, a: int, b: int) {
    Nearest(q, a, b) && (Tie(q, a, b) ==> Abs(q * b) > Abs(a))
  }

  /** Round half to even. */
  ghost predicate HalfEven(q: int, a: int, b: int) {
    Nearest(q, a, b) && (Tie(q, a, b) ==> q % 2 == 0)
  }

  /** Two points within half of b of a are less than b apart, or they are the two sides of a tie. */
  lemma TwoSides(p1: int, p2: int, a: int, b: int)
    requires 2 * Abs(a - p1) <= Abs(b) && 2 * Abs(a - p2) <= Abs(b)
    ensures Abs(p1 - p2) <= Abs(b)
    ensures Abs(p1 - p2) == Abs(b) ==> 2 * Abs(a - p1) == 2 * Abs(a - p2) == Abs(b) && 2 * a == p1 + p2
  {
  }

  /** Two nearest integers are equal or the neighbours on the two sides of a tie. */
  lemma NearestTwo(q1: int, q2: int, a: int, b: int)
    requires b != 0 && Nearest(q1, a, b) && Nearest(q2, a, b)
    ensures q1 == q2
         || (Abs(q1 - q2) == 1 && Tie(q1, a, b) && Tie(q2, a, b) && 2 * a == q1 * b + q2 * b)
  {
    TwoSides(q1 * b, q2 * b, a, b);
    assert (q1 - q2) * b == q1 * b - q2 * b;
    if Abs(q1 - q2) >= 2 {
      MultipleAtLeast(q1 - q2, b, 2);
    } else if q1 != q2 {
      MultipleAtLeast(q1 - q2, b, 1);
    }
  }

  lemma HalfAwayUnique(q1: int, q2: int, a: int, b: int)
    requires b != 0 && HalfAway(q1, a, b) && HalfAway(q2, a, b)
    ensures q1 == q2
  {
    NearestTwo(q1, q2, a, b);
  }

  lemma HalfEvenUnique(q1: int, q2: int, a: int, b: int)
    requires b != 0 && HalfEven(q1, a, b) && HalfEven(q2, a, b)
    ensures q1 == q2
  {
    NearestTwo(q1, q2, a, b);
  }

  lemma Regroup(x: int, y: int, z: int)
    ensures x * (y * z) == (x * y) * z
  {
  }

  lemma AbsScaled(x: int, k: int)
    requires k > 0
    ensures Abs(x * k) == Abs(x) * k
  {
  }

  /** The rounding decision of DivRound: step away from zero once the remainder is half or more. */
  function RoundedQuo(a: int, b: int): int
    requires b != 0
  {
    var q := Quo(a, b);
    if 2 * Abs(Rem(a, b)) < Abs(b) then q
    else if Sign(a) * Sign(b) < 0 then q - 1
    else q + 1
  }

  lemma RoundedFromQuotient(a: int, b: int, q: int)
    requires Abs(a - q * b) < Abs(b)
    requires a >= 0 ==> a - q * b >= 0
    requires a <= 0 ==> a - q * b <= 0
    ensures HalfAway(if 2 * Abs(a - q * b) < Abs(b) then q
                     else if Sign(a) * Sign(b) < 0 then q - 1 else q + 1, a, b)
  {
  }

  lemma RoundedQuoIsHalfAway(a: int, b: int)
    requires b != 0
    ensures HalfAway(RoundedQuo(a, b), a, b)
  {
    QuoRemBounds(a, b);
    RoundedFromQuotient(a, b, Quo(a, b));
  }
}
