/**
 The immutable fraction value type `math.Fraction`.

 A fraction stores a Java `int` numerator and a Java `int` denominator. The
 constructor folds the sign of the denominator into the numerator so that the
 stored denominator is positive; nothing ever reduces a fraction except an
 explicit `Reduce`. Every operation returns a new fraction. The one error the
 class raises, `ArithmeticException`, is the `Err` side of `Result`.

 All arithmetic on the stored components is Java `int` arithmetic, written out
 with the wrap-around of `JavaInt`. Each operation states its result in terms
 of the wrapped exact parts it hands to the constructor, and the rational value
 it yields whenever no intermediate result leaves the `int` range.
 */
module Fractions {
  import opened JavaInt
  import opened Divisibility
  import Decimal

  /** Why an operation throws `ArithmeticException`. */
  datatype ArithError = DivisionByZero | IntegerOverflow

  /** The outcome of an operation that may throw. */
  datatype Result<+T> = Ok(value: T) | Err(error: ArithError)

  /** A fraction as stored: numerator and denominator, never reduced implicitly. */
  datatype Fraction = Fraction(num: int32, den: int32)

  /** The class invariant: the stored denominator is positive. */
  predicate Valid(f: Fraction) {
    f.den > 0
  }

  /** The rational number a fraction stands for. */
  ghost function Value(f: Fraction): real
    requires f.den != 0
  {
    f.num as real / f.den as real
  }

  /** Both `x` and `-x` are Java `int`s: no overflow can have produced or will follow from `x`. */
  predicate NoOverflow(x: int) {
    AbsInt(x) <= INT_MAX
  }

  /** `Fraction.ZERO`. */
  const ZERO: Fraction := Fraction(0, 1)

  /** `Fraction.ONE`. */
  const ONE: Fraction := Fraction(1, 1)

  // ---------------------------------------------------------------------------
  // Rational values of stored pairs
  // ---------------------------------------------------------------------------

  /** Equal cross products mean equal values. */
  lemma ValueOfCross(f: Fraction, p: int, q: int)
    requires f.den != 0 && q != 0 && f.num * q == p * f.den
    ensures Value(f) == p as real / q as real
  {
    assert (f.num * q) as real == f.num as real * q as real;
    assert (p * f.den) as real == p as real * f.den as real;
  }

  /** The value of a successfully constructed fraction is `n / d`. */
  lemma ValueOfNew(n: int32, d: int32)
    requires New(n, d).Ok?
    ensures Value(New(n, d).value) == n as real / d as real
  {
    ValueOfCross(New(n, d).value, n, d);
  }

  /** For positive denominators, equal quotients are equal cross products. */
  lemma RealCross(a: real, b: real, c: real, d: real)
    requires b > 0.0 && d > 0.0
    ensures a / b == c / d <==> a * d == c * b
  {
    var x, y := a / b, c / d;
    assert x * b == a && y * d == c;
    assert a * d == x * (b * d) && c * b == y * (b * d);
    if x != y {
      assert (x - y) * (b * d) != 0.0;
    }
  }

  lemma RealDivAdd(x: real, y: real, z: real)
    requires z != 0.0
    ensures (x + y) / z == x / z + y / z
  {
  }

  lemma QuotientOfSum(a: int, b: int, c: int, d: int)
    requires b != 0 && d != 0
    ensures ((a * d + c * b) as real) / ((b * d) as real) == a as real / b as real + c as real / d as real
  {
    assert (a * d + c * b) as real == a as real * d as real + c as real * b as real;
    assert (b * d) as real == b as real * d as real;
  }

  lemma QuotientOfDifference(a: int, b: int, c: int, d: int)
    requires b != 0 && d != 0
    ensures ((a * d - c * b) as real) / ((b * d) as real) == a as real / b as real - c as real / d as real
  {
    assert (a * d - c * b) as real == a as real * d as real - c as real * b as real;
    assert (b * d) as real == b as real * d as real;
  }

  lemma QuotientOfProduct(a: int, b: int, c: int, d: int)
    requires b != 0 && d != 0
    ensures ((a * c) as real) / ((b * d) as real) == (a as real / b as real) * (c as real / d as real)
  {
    assert (a * c) as real == a as real * c as real;
    assert (b * d) as real == b as real * d as real;
  }

  lemma QuotientOfQuotient(a: int, b: int, c: int, d: int)
    requires b != 0 && c != 0 && d != 0
    ensures ((a * d) as real) / ((b * c) as real) == (a as real / b as real) / (c as real / d as real)
  {
    assert (a * d) as real == a as real * d as real;
    assert (b * c) as real == b as real * c as real;
  }

  /** Adding `n * b` to the numerator of `a / b` adds `n` to its value; subtracting it subtracts `n`. */
  lemma QuotientShift(a: int, b: int, n: int)
    requires b != 0
    ensures ((a + n * b) as real) / (b as real) == a as real / b as real + n as real
    ensures ((a - n * b) as real) / (b as real) == a as real / b as real - n as real
  {
    QuotientOfSum(a, b, n, 1);
    QuotientOfDifference(a, b, n, 1);
  }

  /** Dividing numerator and denominator by a common factor keeps the value. */
  lemma QuotientCancel(a: int, b: int, k: int)
    requires b != 0 && k != 0
    ensures ((k * a) as real) / ((k * b) as real) == a as real / b as real
  {
    QuotientOfProduct(k, k, a, b);
    assert k as real / k as real == 1.0;
  }

  // ---------------------------------------------------------------------------
  // Construction
  // ---------------------------------------------------------------------------

  /**
   The constructor `Fraction(int, int)` exactly as written: a zero denominator
   throws, a negative one is negated together with the numerator using Java
   `int` negation. Negating INT_MIN yields INT_MIN again, so the stored
   denominator is positive exactly when `d` is not INT_MIN.
   */
  function NewAsWritten(n: int32, d: int32): (r: Result<Fraction>)
    ensures r.Err? <==> d == 0
    ensures r.Err? ==> r.error == DivisionByZero
    ensures r.Ok? ==> (Valid(r.value) <==> d != INT_MIN)
  {
    if d == 0 then Err(DivisionByZero)
    else if d > 0 then Ok(Fraction(n, d))
    else Ok(Fraction(Neg32(n), Neg32(d)))
  }

  /**
   The constructor `Fraction(int, int)` with the sign fold made overflow-safe:
   where negation would overflow (a numerator or denominator of INT_MIN with a
   negative denominator) it throws instead of storing a wrong fraction. On
   every other input it agrees with `NewAsWritten`.
   */
  function New(n: int32, d: int32): (r: Result<Fraction>)
    ensures d == 0 ==> r == Err(DivisionByZero)
    ensures r == Err(IntegerOverflow) <==> d < 0 && (n == INT_MIN || d == INT_MIN)
    ensures r.Ok? ==> Valid(r.value) && r.value.den == AbsInt(d) && AbsInt(r.value.num) == AbsInt(n)
    ensures r.Ok? ==> r.value.num * d == n * r.value.den
  {
    if d == 0 then Err(DivisionByZero)
    else if d > 0 then Ok(Fraction(n, d))
    else if n == INT_MIN || d == INT_MIN then Err(IntegerOverflow)
    else Ok(Fraction(-n, -d))
  }

  /** Where the corrected constructor does not throw `IntegerOverflow`, it builds what the constructor as written builds. */
  lemma NewAgreesWithAsWritten(n: int32, d: int32)
    ensures New(n, d) != Err(IntegerOverflow) ==> New(n, d) == NewAsWritten(n, d)
  {
  }

  /** The constructor `Fraction(int)`: the integer over one. */
  function FromInt(n: int32): (r: Fraction)
    ensures New(n, 1) == Ok(r)
    ensures Valid(r) && Value(r) == n as real
  {
    Fraction(n, 1)
  }

  // ---------------------------------------------------------------------------
  // Arithmetic with an int operand
  // ---------------------------------------------------------------------------

  /** `add(int)`: the denominator is kept and `n` times it is added to the numerator. */
  function AddInt(f: Fraction, n: int32): (r: Fraction)
    requires Valid(f)
    ensures Valid(r) && r.den == f.den
    ensures r.num == Wrap32(f.num + n * f.den)
    ensures Fits32(f.num + n * f.den) ==> Value(r) == Value(f) + n as real
  {
    Add32Mul32(f.num, n, f.den);
    QuotientShift(f.num, f.den, n);
    Fraction(Add32(f.num, Mul32(n, f.den)), f.den)
  }

  /** `subtract(int)`: the denominator is kept and `n` times it is subtracted from the numerator. */
  function SubtractInt(f: Fraction, n: int32): (r: Fraction)
    requires Valid(f)
    ensures Valid(r) && r.den == f.den
    ensures r.num == Wrap32(f.num - n * f.den)
    ensures Fits32(f.num - n * f.den) ==> Value(r) == Value(f) - n as real
  {
    Sub32Mul32(f.num, n, f.den);
    QuotientShift(f.num, f.den, n);
    Fraction(Sub32(f.num, Mul32(n, f.den)), f.den)
  }

  /** `multiply(int)`: multiplying by zero gives `ZERO` itself; otherwise the denominator is kept. */
  function MultiplyInt(f: Fraction, n: int32): (r: Fraction)
    requires Valid(f)
    ensures Valid(r)
    ensures n == 0 ==> r == ZERO
    ensures n != 0 ==> r.den == f.den && r.num == Wrap32(f.num * n)
    ensures Fits32(f.num * n) ==> Value(r) == Value(f) * n as real
  {
    if n == 0 then ZERO else Fraction(Mul32(f.num, n), f.den)
  }

  /** `divide(int)`: dividing by zero throws; otherwise `n` joins the denominator, sign-normalised. */
  function DivideInt(f: Fraction, n: int32): (r: Result<Fraction>)
    requires Valid(f)
    ensures n == 0 ==> r == Err(DivisionByZero)
    ensures n != 0 ==> r == New(f.num, Wrap32(f.den * n))
    ensures r.Ok? ==> Valid(r.value)
    ensures n != 0 && f.den * AbsInt(n) <= INT_MAX && (n < 0 ==> f.num != INT_MIN) ==>
              r.Ok? && r.value.den == f.den * AbsInt(n) && AbsInt(r.value.num) == AbsInt(f.num)
              && Value(r.value) == Value(f) / n as real
  {
    if n == 0 then Err(DivisionByZero)
    else
      DivideIntFacts(f, n);
      New(f.num, Mul32(f.den, n))
  }

  lemma DivideIntFacts(f: Fraction, n: int32)
    requires Valid(f) && n != 0
    ensures f.den * AbsInt(n) <= INT_MAX && (n < 0 ==> f.num != INT_MIN) ==>
      var r := New(f.num, Mul32(f.den, n));
      r.Ok? && r.value.den == f.den * AbsInt(n) && AbsInt(r.value.num) == AbsInt(f.num)
      && Value(r.value) == Value(f) / n as real
  {
    if f.den * AbsInt(n) <= INT_MAX && (n < 0 ==> f.num != INT_MIN) {
      ScaledDenominator(f.den, n);
      ValueOfNew(f.num, f.den * n);
      QuotientOfQuotient(f.num, f.den, n, 1);
    }
  }

  /** A positive denominator times a non-zero `int` that does not overflow. */
  lemma ScaledDenominator(b: int32, n: int32)
    requires b > 0 && n != 0 && b * AbsInt(n) <= INT_MAX
    ensures Mul32(b, n) == b * n && b * n != 0 && AbsInt(b * n) == b * AbsInt(n)
  {
    if n < 0 {
      assert b * n == -(b * AbsInt(n));
    }
    MulGrows(b, AbsInt(n) + 1);
    assert b * (AbsInt(n) + 1) == b * AbsInt(n) + b;
  }

  // ---------------------------------------------------------------------------
  // Exponentiation
  // ---------------------------------------------------------------------------

  /** `x` to the power `e` over unbounded integers. */
  function Power(x: int, e: nat): int {
    if e == 0 then 1 else x * Power(x, e - 1)
  }

  lemma {:induction false} PowerPositive(x: int, e: nat)
    requires x > 0
    ensures Power(x, e) > 0
  {
    if e > 0 {
      PowerPositive(x, e - 1);
      MulNonNegative(x - 1, Power(x, e - 1));
    }
  }

  lemma {:induction false} PowerOfZero(e: nat)
    requires e > 0
    ensures Power(0, e) == 0
  {
  }

  /**
   How many more times the Java loop's `n--` runs before `n == 1`, counting
   with `int` wrap-around: from INT_MIN the decrement first wraps to INT_MAX.
   */
  function StepsToOne(m: int32): nat {
    (m - 1) % TWO_32
  }

  /**
   `pow(int)`: the loop multiplies copies of the numerator and the denominator
   with Java `int` arithmetic and builds the result (or, for a negative
   exponent, its reciprocal) with the constructor. For INT_MIN the negated
   exponent stays INT_MIN and the wrapping countdown still runs 2^31 - 1 times.
   */
  method Pow(f: Fraction, n: int32) returns (r: Result<Fraction>)
    requires Valid(f)
    ensures n == 0 ==> r == Ok(ONE)
    ensures n > 0 ==> r == New(Wrap32(Power(f.num, n)), Wrap32(Power(f.den, n)))
    ensures n < 0 ==> r == New(Wrap32(Power(f.den, AbsInt(n))), Wrap32(Power(f.num, AbsInt(n))))
    ensures n < 0 && f.num == 0 ==> r == Err(DivisionByZero)
    ensures n > 0 && r != Err(IntegerOverflow) ==>
              r == NewAsWritten(Wrap32(Power(f.num, n)), Wrap32(Power(f.den, n)))
    ensures n < 0 && r != Err(IntegerOverflow) ==>
              r == NewAsWritten(Wrap32(Power(f.den, AbsInt(n))), Wrap32(Power(f.num, AbsInt(n))))
    ensures n > 0 && Fits32(Power(f.num, n)) && Fits32(Power(f.den, n)) ==>
              r == Ok(Fraction(Power(f.num, n), Power(f.den, n)))
  {
    if n == 0 {
      return Ok(Fraction(1, 1));
    }
    var negative := n < 0;
    var m: int32 := if n < 0 then Neg32(n) else n;
    ghost var e: nat := AbsInt(n);
    StepsFromStart(e);
    var num, den := f.num, f.den;
    while m != 1
      invariant StepsToOne(m) < e
      invariant num == Wrap32(Power(f.num, e - StepsToOne(m)))
      invariant den == Wrap32(Power(f.den, e - StepsToOne(m)))
      decreases StepsToOne(m)
    {
      ghost var k := e - StepsToOne(m);
      PowerStep(f.num, k, num);
      PowerStep(f.den, k, den);
      StepsDecrement(m);
      num := Mul32(num, f.num);
      den := Mul32(den, f.den);
      m := Sub32(m, 1);
    }
    if negative {
      r := New(den, num);
      NewAgreesWithAsWritten(den, num);
      if f.num == 0 {
        PowerOfZero(e);
      }
    } else {
      r := New(num, den);
      NewAgreesWithAsWritten(num, den);
      PowerPositive(f.den, e);
    }
  }

  /** The exponent as the loop first sees it is `e - 1` decrements away from 1. */
  lemma StepsFromStart(e: nat)
    requires 1 <= e <= 0x8000_0000
    ensures StepsToOne(Wrap32(e)) == e - 1
  {
    if e == 0x8000_0000 {
      Wrap32Congruent(e, INT_MIN, 1);
    }
  }

  /** One `n--` brings the loop one step closer to `n == 1`. */
  lemma StepsDecrement(m: int32)
    requires m != 1
    ensures StepsToOne(Sub32(m, 1)) == StepsToOne(m) - 1
  {
    if m == INT_MIN {
      Wrap32Congruent(m - 1, INT_MAX, -1);
    }
  }

  /** One `*=` of the loop raises the wrapped power by one. */
  lemma PowerStep(x: int32, k: nat, w: int32)
    requires w == Wrap32(Power(x, k))
    ensures Mul32(w, x) == Wrap32(Power(x, k + 1))
  {
    Wrap32MulLeft(Power(x, k), x);
    assert Power(x, k + 1) == x * Power(x, k);
  }

  // ---------------------------------------------------------------------------
  // Arithmetic with a Fraction operand
  // ---------------------------------------------------------------------------

  /**
   `add(Fraction)`: over a shared denominator the numerators are added;
   otherwise the operands are cross-multiplied over the product of the
   denominators. The result is not reduced.
   */
  function Add(f: Fraction, g: Fraction): (r: Result<Fraction>)
    requires Valid(f) && Valid(g)
    ensures f.den == g.den ==> r == Ok(Fraction(Wrap32(f.num + g.num), f.den))
    ensures f.den != g.den ==> r == New(Wrap32(f.num * g.den + g.num * f.den), Wrap32(f.den * g.den))
    ensures r.Ok? ==> Valid(r.value)
    ensures f.den != g.den && Fits32(f.num * g.den + g.num * f.den) && f.den * g.den <= INT_MAX ==>
              r.Ok? && r.value.num == f.num * g.den + g.num * f.den && r.value.den == f.den * g.den
    ensures (if f.den == g.den then Fits32(f.num + g.num)
             else Fits32(f.num * g.den + g.num * f.den) && f.den * g.den <= INT_MAX) ==>
              r.Ok? && Value(r.value) == Value(f) + Value(g)
  {
    if f.den == g.den then
      AddSameDenFacts(f, g);
      New(Add32(f.num, g.num), f.den)
    else
      AddCrossFacts(f, g);
      New(Add32(Mul32(f.num, g.den), Mul32(g.num, f.den)), Mul32(f.den, g.den))
  }

  lemma AddSameDenFacts(f: Fraction, g: Fraction)
    requires Valid(f) && Valid(g) && f.den == g.den
    ensures New(Add32(f.num, g.num), f.den) == Ok(Fraction(Wrap32(f.num + g.num), f.den))
    ensures Fits32(f.num + g.num) ==> Value(Fraction(Wrap32(f.num + g.num), f.den)) == Value(f) + Value(g)
  {
    RealDivAdd(f.num as real, g.num as real, f.den as real);
    assert (f.num + g.num) as real == f.num as real + g.num as real;
  }

  lemma AddCrossFacts(f: Fraction, g: Fraction)
    requires Valid(f) && Valid(g)
    ensures var r := New(Add32(Mul32(f.num, g.den), Mul32(g.num, f.den)), Mul32(f.den, g.den));
      && r == New(Wrap32(f.num * g.den + g.num * f.den), Wrap32(f.den * g.den))
      && (Fits32(f.num * g.den + g.num * f.den) && f.den * g.den <= INT_MAX ==>
            r.Ok? && r.value.num == f.num * g.den + g.num * f.den && r.value.den == f.den * g.den
            && Value(r.value) == Value(f) + Value(g))
  {
    var p, q := f.num * g.den + g.num * f.den, f.den * g.den;
    Wrap32AddBoth(f.num * g.den, g.num * f.den);
    if Fits32(p) && q <= INT_MAX {
      MulGrows(f.den, g.den + 1);
      assert q > 0 by {
        assert f.den * (g.den + 1) == q + f.den;
      }
      assert New(Wrap32(p), Wrap32(q)) == Ok(Fraction(p, q));
      QuotientOfSum(f.num, f.den, g.num, g.den);
    }
  }

  /**
   `subtract(Fraction)`: over a shared denominator the numerators are
   subtracted; otherwise the operands are cross-multiplied over the product of
   the denominators. The result is not reduced.
   */
  function Subtract(f: Fraction, g: Fraction): (r: Result<Fraction>)
    requires Valid(f) && Valid(g)
    ensures f.den == g.den ==> r == Ok(Fraction(Wrap32(f.num - g.num), f.den))
    ensures f.den != g.den ==> r == New(Wrap32(f.num * g.den - g.num * f.den), Wrap32(f.den * g.den))
    ensures r.Ok? ==> Valid(r.value)
    ensures f.den != g.den && Fits32(f.num * g.den - g.num * f.den) && f.den * g.den <= INT_MAX ==>
              r.Ok? && r.value.num == f.num * g.den - g.num * f.den && r.value.den == f.den * g.den
    ensures (if f.den == g.den then Fits32(f.num - g.num)
             else Fits32(f.num * g.den - g.num * f.den) && f.den * g.den <= INT_MAX) ==>
              r.Ok? && Value(r.value) == Value(f) - Value(g)
  {
    if f.den == g.den then
      SubtractSameDenFacts(f, g);
      New(Sub32(f.num, g.num), f.den)
    else
      SubtractCrossFacts(f, g);
      New(Sub32(Mul32(f.num, g.den), Mul32(g.num, f.den)), Mul32(f.den, g.den))
  }

  lemma SubtractSameDenFacts(f: Fraction, g: Fraction)
    requires Valid(f) && Valid(g) && f.den == g.den
    ensures New(Sub32(f.num, g.num), f.den) == Ok(Fraction(Wrap32(f.num - g.num), f.den))
    ensures Fits32(f.num - g.num) ==> Value(Fraction(Wrap32(f.num - g.num), f.den)) == Value(f) - Value(g)
  {
    RealDivAdd(f.num as real, -(g.num as real), f.den as real);
    assert (f.num - g.num) as real == f.num as real - g.num as real;
  }

  lemma SubtractCrossFacts(f: Fraction, g: Fraction)
    requires Valid(f) && Valid(g)
    ensures var r := New(Sub32(Mul32(f.num, g.den), Mul32(g.num, f.den)), Mul32(f.den, g.den));
      && r == New(Wrap32(f.num * g.den - g.num * f.den), Wrap32(f.den * g.den))
      && (Fits32(f.num * g.den - g.num * f.den) && f.den * g.den <= INT_MAX ==>
            r.Ok? && r.value.num == f.num * g.den - g.num * f.den && r.value.den == f.den * g.den
            && Value(r.value) == Value(f) - Value(g))
  {
    var p, q := f.num * g.den - g.num * f.den, f.den * g.den;
    Wrap32SubBoth(f.num * g.den, g.num * f.den);
    if Fits32(p) && q <= INT_MAX {
      MulGrows(f.den, g.den + 1);
      assert q > 0 by {
        assert f.den * (g.den + 1) == q + f.den;
      }
      assert New(Wrap32(p), Wrap32(q)) == Ok(Fraction(p, q));
      QuotientOfDifference(f.num, f.den, g.num, g.den);
    }
  }

  /**
   `multiply(Fraction)` as written: a receiver with denominator zero (which
   the constructor never lets exist) or an operand equal to `ZERO` gives
   `ZERO`; otherwise numerators and denominators are multiplied.
   */
  function Multiply(f: Fraction, g: Fraction): (r: Result<Fraction>)
    requires Valid(f) && Valid(g)
    ensures g == ZERO ==> r == Ok(ZERO)
    ensures g != ZERO ==> r == New(Wrap32(f.num * g.num), Wrap32(f.den * g.den))
    ensures g != ZERO && r != Err(IntegerOverflow) ==>
              r == NewAsWritten(Wrap32(f.num * g.num), Wrap32(f.den * g.den))
    ensures r.Ok? ==> Valid(r.value)
    ensures g != ZERO && Fits32(f.num * g.num) && f.den * g.den <= INT_MAX ==>
              r.Ok? && r.value.num == f.num * g.num && r.value.den == f.den * g.den
    ensures Fits32(f.num * g.num) && f.den * g.den <= INT_MAX ==>
              r.Ok? && Value(r.value) == Value(f) * Value(g)
  {
    if f.den == 0 || g == ZERO then
      MultiplyFacts(f, g);
      Ok(ZERO)
    else
      MultiplyFacts(f, g);
      NewAgreesWithAsWritten(Mul32(f.num, g.num), Mul32(f.den, g.den));
      New(Mul32(f.num, g.num), Mul32(f.den, g.den))
  }

  lemma MultiplyFacts(f: Fraction, g: Fraction)
    requires Valid(f) && Valid(g)
    ensures g == ZERO ==> Value(ZERO) == Value(f) * Value(g)
    ensures Mul32(f.num, g.num) == Wrap32(f.num * g.num) && Mul32(f.den, g.den) == Wrap32(f.den * g.den)
    ensures Fits32(f.num * g.num) && f.den * g.den <= INT_MAX ==>
              var r := New(Wrap32(f.num * g.num), Wrap32(f.den * g.den));
              r.Ok? && r.value.num == f.num * g.num && r.value.den == f.den * g.den
              && Value(r.value) == Value(f) * Value(g)
  {
    MulNonNegative(f.den, g.den);
    QuotientOfProduct(f.num, f.den, g.num, g.den);
  }

  /**
   `divide(Fraction)`: dividing by a zero-valued fraction throws; otherwise
   the receiver is multiplied by the operand's reciprocal, sign-normalised.
   */
  function Divide(f: Fraction, g: Fraction): (r: Result<Fraction>)
    requires Valid(f) && Valid(g)
    ensures g.num == 0 ==> r == Err(DivisionByZero)
    ensures g.num != 0 ==> r == New(Wrap32(f.num * g.den), Wrap32(f.den * g.num))
    ensures r.Ok? ==> Valid(r.value)
    ensures g.num != 0 && NoOverflow(f.num * g.den) && f.den * AbsInt(g.num) <= INT_MAX ==>
              r.Ok? && r.value.den == f.den * AbsInt(g.num) && AbsInt(r.value.num) == AbsInt(f.num * g.den)
              && Value(r.value) == Value(f) / Value(g)
  {
    if g.num == 0 then Err(DivisionByZero)
    else
      DivideFacts(f, g);
      New(Mul32(f.num, g.den), Mul32(f.den, g.num))
  }

  lemma DivideFacts(f: Fraction, g: Fraction)
    requires Valid(f) && Valid(g) && g.num != 0
    ensures NoOverflow(f.num * g.den) && f.den * AbsInt(g.num) <= INT_MAX ==>
      var r := New(Mul32(f.num, g.den), Mul32(f.den, g.num));
      r.Ok? && r.value.den == f.den * AbsInt(g.num) && AbsInt(r.value.num) == AbsInt(f.num * g.den)
      && Value(r.value) == Value(f) / Value(g)
  {
    if NoOverflow(f.num * g.den) && f.den * AbsInt(g.num) <= INT_MAX {
      DivideNoWrap(f.num, g.den, f.den, g.num);
      ValueOfNew(f.num * g.den, f.den * g.num);
      QuotientOfQuotient(f.num, f.den, g.num, g.den);
    }
  }

  lemma DivideNoWrap(a: int32, d: int32, b: int32, c: int32)
    requires b > 0 && c != 0 && d > 0
    requires NoOverflow(a * d) && b * AbsInt(c) <= INT_MAX
    ensures Mul32(a, d) == a * d && Mul32(b, c) == b * c
    ensures AbsInt(b * c) == b * AbsInt(c) && b * c != 0
    ensures New(a * d, b * c).Ok?
  {
    ScaledDenominator(b, c);
  }

  // ---------------------------------------------------------------------------
  // Unary operations
  // ---------------------------------------------------------------------------

  /** `reciprocal()`: numerator and denominator swap places, sign-normalised. */
  function Reciprocal(f: Fraction): (r: Result<Fraction>)
    requires Valid(f)
    ensures r == Err(DivisionByZero) <==> f.num == 0
    ensures r == Err(IntegerOverflow) <==> f.num == INT_MIN
    ensures r.Ok? ==> Valid(r.value) && r.value.den == AbsInt(f.num) && AbsInt(r.value.num) == f.den
    ensures r.Ok? ==> Value(r.value) * Value(f) == 1.0
  {
    if f.num == 0 then Err(DivisionByZero) else New(f.den, f.num)
  }

  /** `abs()`: `Math.abs` of the numerator over the same denominator. */
  function Abs(f: Fraction): (r: Fraction)
    requires Valid(f)
    ensures Valid(r) && r.den == f.den
    ensures f.num != INT_MIN ==> r.num >= 0 && Value(r) == if Value(f) < 0.0 then -Value(f) else Value(f)
    ensures f.num == INT_MIN ==> r == f
  {
    Fraction(Abs32(f.num), f.den)
  }

  /** `isZero()`: whether the fraction stands for zero, whatever its denominator. */
  function IsZero(f: Fraction): (r: bool)
    requires Valid(f)
    ensures r <==> Value(f) == 0.0
  {
    f.num == 0
  }

  /**
   `reduce()`: numerator and denominator divided by the gcd of the
   numerator's magnitude and the denominator. The division is exact, so
   Java's truncating `/` and Dafny's Euclidean `/` agree on it.
   */
  function Reduce(f: Fraction): (r: Fraction)
    requires Valid(f)
    ensures Valid(r) && Value(r) == Value(f)
    ensures Gcd(AbsInt(r.num), r.den) == 1
    ensures r.den <= f.den && AbsInt(r.num) <= AbsInt(f.num)
  {
    var g := Gcd(AbsInt(f.num), f.den);
    ReduceFacts(f);
    QuotientCancel(f.num / g, f.den / g, g);
    Fraction(f.num / g, f.den / g)
  }

  lemma ReduceFacts(f: Fraction)
    requires Valid(f)
    ensures var g := Gcd(AbsInt(f.num), f.den);
      && g > 0
      && f.num == g * (f.num / g) && f.den == g * (f.den / g)
      && 0 < f.den / g <= f.den && AbsInt(f.num / g) <= AbsInt(f.num)
      && AbsInt(f.num / g) == AbsInt(f.num) / g
      && Gcd(AbsInt(f.num / g), f.den / g) == 1
  {
    var g := Gcd(AbsInt(f.num), f.den);
    DividesQuotient(g, f.den);
    assert Divides(g, f.num) by {
      if f.num < 0 {
        DividesCombination(g, AbsInt(f.num), 0, -1);
      }
    }
    DividesQuotient(g, f.num);
    DividesQuotient(g, AbsInt(f.num));
    NatDivBounds(f.den, g);
    NatDivBounds(AbsInt(f.num), g);
    if f.num < 0 {
      assert f.num / g == -(AbsInt(f.num) / g) by {
        ModUnique(f.num, g, -(AbsInt(f.num) / g), 0);
      }
    }
    DivideByGcdCoprime(AbsInt(f.num), f.den);
  }

  // ---------------------------------------------------------------------------
  // Conversions
  // ---------------------------------------------------------------------------

  /** `intValue()`: `numerator / denominator`, truncated toward zero as Java divides. */
  function IntValue(f: Fraction): (r: int32)
    requires Valid(f)
    ensures f.num >= 0 ==> 0 <= f.num - r * f.den < f.den
    ensures f.num < 0 ==> -f.den < f.num - r * f.den <= 0
  {
    DivTowardZero(f.num, f.den)
  }

  /**
   `longValue()`: the truncated quotient as a `long`. The quotient of two
   `int`s always fits in an `int`, so widening `intValue()` gives the same value.
   */
  function LongValue(f: Fraction): (r: int64)
    requires Valid(f)
    ensures f.num >= 0 ==> 0 <= f.num - r * f.den < f.den
    ensures f.num < 0 ==> -f.den < f.num - r * f.den <= 0
  {
    IntValue(f) as int64
  }

  /** `shortValue()`: `intValue()` narrowed to a `short`, keeping its low 16 bits. */
  function ShortValue(f: Fraction): (r: int16)
    requires Valid(f)
    ensures (IntValue(f) - r) % 0x1_0000 == 0
    ensures -0x8000 <= IntValue(f) < 0x8000 ==> r == IntValue(f)
  {
    Wrap16(IntValue(f))
  }

  /** `byteValue()`: `intValue()` narrowed to a `byte`, keeping its low 8 bits. */
  function ByteValue(f: Fraction): (r: int8)
    requires Valid(f)
    ensures (IntValue(f) - r) % 0x100 == 0
    ensures -0x80 <= IntValue(f) < 0x80 ==> r == IntValue(f)
  {
    Wrap8(IntValue(f))
  }

  // ---------------------------------------------------------------------------
  // Equality and text
  // ---------------------------------------------------------------------------

  /** The argument of `equals(Object)`: null, a fraction, or an object of another class. */
  datatype Object = Null | FractionObject(fraction: Fraction) | OtherObject

  /**
   `equals(Object)`: true only for a fraction with the same stored numerator
   and denominator. The identity shortcut `this == o` is subsumed, since an
   object has the same fields as itself.
   */
  function Equals(f: Fraction, o: Object): (r: bool)
    ensures r <==> o == FractionObject(f)
  {
    o.FractionObject? && f.num == o.fraction.num && f.den == o.fraction.den
  }

  /** `toString()`: "0" for a zero numerator, the numerator alone over one, "num/den" otherwise. */
  function ToString(f: Fraction): (s: string)
    ensures s == "0" <==> f.num == 0
    ensures '/' in s <==> f.num != 0 && f.den != 1
  {
    if f.num == 0 then "0"
    else if f.den == 1 then Decimal.IntToString(f.num)
    else Decimal.IntToString(f.num) + "/" + Decimal.IntToString(f.den)
  }

  /** The index of the first '/' in `s`, or `|s|` when there is none. */
  function SlashIndex(s: string): (i: nat)
    ensures i <= |s|
    ensures i < |s| ==> s[i] == '/'
    ensures forall j :: 0 <= j < i ==> s[j] != '/'
  {
    if |s| == 0 || s[0] == '/' then 0 else 1 + SlashIndex(s[1..])
  }

  /** Text of the shape `ToString` produces: a numeral, or two numerals around one '/'. */
  predicate IsFractionText(s: string) {
    var i := SlashIndex(s);
    if i == |s| then Decimal.IsNumeral(s)
    else Decimal.IsNumeral(s[..i]) && Decimal.IsNumeral(s[i + 1..])
  }

  /** Reads a numerator and a denominator back from fraction text; a lone numeral is over one. */
  function ParseFraction(s: string): (int, int)
    requires IsFractionText(s)
  {
    var i := SlashIndex(s);
    if i == |s| then (Decimal.ParseInt(s), 1)
    else (Decimal.ParseInt(s[..i]), Decimal.ParseInt(s[i + 1..]))
  }
}
