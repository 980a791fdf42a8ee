/**
 Laws that relate the operations of `Fractions` to one another: inverse pairs,
 agreement between the `int` and `Fraction` overloads, the canonical form that
 `Reduce` produces, what `Equals` does and does not identify, and the text
 round trip of `ToString`. It also holds the two halves of the constructor
 finding: the as-written sign fold next to the corrected one.
 */
module FractionLaws {
  import opened JavaInt
  import opened Divisibility
  import Decimal
  import opened Fractions

  // ---------------------------------------------------------------------------
  // Construction: the sign fold as written and as corrected
  // ---------------------------------------------------------------------------

  /** `new Fraction(1, Integer.MIN_VALUE)` as written stores a negative denominator. */
  lemma NewAsWrittenKeepsNegativeDenominator()
    ensures NewAsWritten(1, INT_MIN) == Ok(Fraction(-1, INT_MIN))
    ensures !Valid(NewAsWritten(1, INT_MIN).value)
  {
  }

  /** `new Fraction(Integer.MIN_VALUE, -1)` as written stores -2^31 for the value 2^31. */
  lemma NewAsWrittenFlipsSign()
    ensures NewAsWritten(INT_MIN, -1) == Ok(Fraction(INT_MIN, 1))
    ensures Value(NewAsWritten(INT_MIN, -1).value) != (INT_MIN as real) / (-1 as real)
  {
  }

  /**
   The corrected constructor changes nothing where the written one is right:
   it differs only where the written one stores a negative denominator or a
   fraction of the opposite sign.
   */
  lemma NewRefinesAsWritten(n: int32, d: int32)
    ensures New(n, d).Ok? ==> NewAsWritten(n, d) == New(n, d)
    ensures New(n, d).Err? && New(n, d).error == DivisionByZero <==> NewAsWritten(n, d).Err?
    ensures New(n, d) == Err(IntegerOverflow) ==>
              var w := NewAsWritten(n, d).value;
              !Valid(w) || w.num * d != n * w.den
  {
    if New(n, d) == Err(IntegerOverflow) && d != INT_MIN {
      var w := NewAsWritten(n, d).value;
      assert n == INT_MIN && w == Fraction(INT_MIN, -d);
      assert w.num * d - n * w.den == 2 * INT_MIN * d;
      MulNonNegative(-d - 1, 0x1_0000_0000);
    }
  }

  /** `Fraction(n)` and `ZERO`, `ONE` agree with the two-argument constructor. */
  lemma ConstantsAreConstructed()
    ensures New(0, 1) == Ok(ZERO) && FromInt(0) == ZERO
    ensures New(1, 1) == Ok(ONE) && FromInt(1) == ONE
  {
  }

  // ---------------------------------------------------------------------------
  // Arithmetic with an int operand
  // ---------------------------------------------------------------------------

  /** Adding and then subtracting the same `int` restores the fraction exactly, even across wrap-around. */
  lemma AddThenSubtractInt(f: Fraction, n: int32)
    requires Valid(f)
    ensures SubtractInt(AddInt(f, n), n) == f
  {
    var t := n * f.den;
    var up := AddInt(f, n);
    var back := SubtractInt(up, n);
    Wrap32AddThenSub(f.num, t, up.num);
    assert back.num == f.num;
  }

  /** Subtracting and then adding the same `int` restores the fraction exactly, even across wrap-around. */
  lemma SubtractThenAddInt(f: Fraction, n: int32)
    requires Valid(f)
    ensures AddInt(SubtractInt(f, n), n) == f
  {
    var t := n * f.den;
    var down := SubtractInt(f, n);
    var back := AddInt(down, n);
    Wrap32SubThenAdd(f.num, t, down.num);
    assert back.num == f.num;
  }

  /** `add(int)` is `add(new Fraction(n))`. */
  lemma AddIntIsAddFromInt(f: Fraction, n: int32)
    requires Valid(f)
    ensures Add(f, FromInt(n)) == Ok(AddInt(f, n))
  {
    if f.den != 1 {
      AddCrossFacts(f, FromInt(n));
      Wrap32AddBoth(f.num * 1, n * f.den);
    }
  }

  /** `subtract(int)` is `subtract(new Fraction(n))`. */
  lemma SubtractIntIsSubtractFromInt(f: Fraction, n: int32)
    requires Valid(f)
    ensures Subtract(f, FromInt(n)) == Ok(SubtractInt(f, n))
  {
    if f.den != 1 {
      SubtractCrossFacts(f, FromInt(n));
      Wrap32SubBoth(f.num * 1, n * f.den);
    }
  }

  /** `multiply(int)` is `multiply(new Fraction(n))` when zero is compared by value. */
  lemma MultiplyIntIsMultiplyFromInt(f: Fraction, n: int32)
    requires Valid(f)
    ensures Multiply(f, FromInt(n)) == Ok(MultiplyInt(f, n))
  {
  }

  /** `divide(int)` is `divide(new Fraction(n))`. */
  lemma DivideIntIsDivideFromInt(f: Fraction, n: int32)
    requires Valid(f)
    ensures Divide(f, FromInt(n)) == DivideInt(f, n)
  {
  }

  // ---------------------------------------------------------------------------
  // Unary operations
  // ---------------------------------------------------------------------------

  /** Taking the reciprocal twice gives back the very same stored fraction. */
  lemma ReciprocalInvolution(f: Fraction)
    requires Valid(f) && Reciprocal(f).Ok?
    ensures Reciprocal(Reciprocal(f).value) == Ok(f)
  {
  }

  /**
   A non-zero fraction times its reciprocal is one whenever `multiply`
   succeeds: both products are `den * |num|`, so they wrap to the same `int`.
   It succeeds whenever that product fits in an `int`.
   */
  lemma MultiplyByReciprocalIsOne(f: Fraction)
    requires Valid(f) && f.num != 0 && f.num != INT_MIN
    ensures Reciprocal(f).Ok?
    ensures var r := Multiply(f, Reciprocal(f).value); r.Ok? ==> Value(r.value) == 1.0
    ensures f.den * AbsInt(f.num) <= INT_MAX ==> Multiply(f, Reciprocal(f).value).Ok?
  {
    var g := Reciprocal(f).value;
    var m := ReciprocalProducts(f, g);
    var w := Wrap32(m);
    assert g != ZERO;
    assert Multiply(f, g) == New(w, w);
    SelfQuotientIsOne(w);
    if m <= INT_MAX {
      MulGrows(AbsInt(f.num), f.den + 1);
      assert m > 0 by {
        assert AbsInt(f.num) * (f.den + 1) == m + AbsInt(f.num);
      }
      assert w == m;
    }
  }

  /** Both products `multiply` forms for a fraction and its reciprocal are `den * |num|`. */
  lemma ReciprocalProducts(f: Fraction, g: Fraction) returns (m: int)
    requires Valid(f) && Valid(g) && g.den == AbsInt(f.num) && AbsInt(g.num) == f.den
    requires f.num < 0 <==> g.num < 0
    ensures m == f.den * AbsInt(f.num)
    ensures f.num * g.num == m && f.den * g.den == m
  {
    m := f.den * AbsInt(f.num);
    if f.num < 0 {
      assert g.num == -f.den;
    } else {
      assert g.num == f.den;
    }
  }

  /** A pair of equal parts, once constructed, has value one. */
  lemma SelfQuotientIsOne(w: int32)
    ensures New(w, w).Ok? ==> Value(New(w, w).value) == 1.0
  {
    if New(w, w).Ok? {
      var q := New(w, w).value;
      assert q.num == q.den && q.den > 0;
      RealCross(q.num as real, q.den as real, 1.0, 1.0);
    }
  }

  /** `abs()` is idempotent. */
  lemma AbsIdempotent(f: Fraction)
    requires Valid(f)
    ensures Abs(Abs(f)) == Abs(f)
  {
  }

  // ---------------------------------------------------------------------------
  // Reduction and equality
  // ---------------------------------------------------------------------------

  /** For positive denominators, equal values are equal cross products. */
  lemma ValueEqualCross(f: Fraction, g: Fraction)
    requires Valid(f) && Valid(g)
    ensures Value(f) == Value(g) <==> f.num * g.den == g.num * f.den
  {
    var a, b, c, d := f.num as real, f.den as real, g.num as real, g.den as real;
    assert (f.num * g.den) as real == a * d;
    assert (g.num * f.den) as real == c * b;
    RealCross(a, b, c, d);
  }

  /** A fraction is left unchanged by `reduce()` exactly when it is already in lowest terms. */
  lemma ReduceFixedPoint(f: Fraction)
    requires Valid(f)
    ensures Reduce(f) == f <==> Gcd(AbsInt(f.num), f.den) == 1
  {
    var g := Gcd(AbsInt(f.num), f.den);
    ReduceFacts(f);
    if Reduce(f) == f {
      assert f.den == g * f.den;
      MulGrows(f.den, 2);
      if g > 1 {
        MulGrows(f.den, g);
      }
    }
  }

  /** Reducing twice is reducing once. */
  lemma ReduceIdempotent(f: Fraction)
    requires Valid(f)
    ensures Reduce(Reduce(f)) == Reduce(f)
  {
    ReduceFixedPoint(Reduce(f));
  }

  /** Equal cross products of positive-denominator pairs relate the magnitudes too, and the signs agree. */
  lemma CrossMagnitudes(a: int, b: int, c: int, d: int)
    requires b > 0 && d > 0 && a * d == c * b
    ensures AbsInt(a) * d == AbsInt(c) * b
    ensures a < 0 <==> c < 0
  {
    if a < 0 && c >= 0 {
      MulNonNegative(c, b);
      MulGrows(-a, d + 1);
    } else if a >= 0 && c < 0 {
      MulNonNegative(a, d);
      MulGrows(-c, b + 1);
    }
  }

  /** Coprime pairs with equal cross products are equal (Gauss's lemma both ways). */
  lemma CoprimePairsEqual(p: nat, q: nat, x: nat, y: nat)
    requires q > 0 && y > 0 && Gcd(p, q) == 1 && Gcd(x, y) == 1
    requires p * y == x * q
    ensures p == x && q == y
  {
    MultipleDivides(q, x);
    assert x * q == q * x;
    CoprimeDividesFactor(p, q, y);
    MultipleDivides(y, p);
    assert p * y == y * p;
    CoprimeDividesFactor(x, y, q);
    DivisorAtMost(q, y);
    DivisorAtMost(y, q);
    MulCancel(q, p, x);
  }

  /**
   Two fractions in lowest terms with positive denominators and the same value
   are the same stored pair.
   */
  lemma LowestTermsUnique(f: Fraction, g: Fraction)
    requires Valid(f) && Valid(g) && Value(f) == Value(g)
    requires Gcd(AbsInt(f.num), f.den) == 1 && Gcd(AbsInt(g.num), g.den) == 1
    ensures f == g
  {
    ValueEqualCross(f, g);
    CrossMagnitudes(f.num, f.den, g.num, g.den);
    CoprimePairsEqual(AbsInt(f.num), f.den, AbsInt(g.num), g.den);
  }

  /** `reduce()` sends every fraction of a given value to one and the same stored pair. */
  lemma ReduceCanonical(f: Fraction, g: Fraction)
    requires Valid(f) && Valid(g)
    ensures Reduce(f) == Reduce(g) <==> Value(f) == Value(g)
  {
    if Value(f) == Value(g) {
      LowestTermsUnique(Reduce(f), Reduce(g));
    }
  }

  /** Structural equality implies equal values, but not conversely: 2/5 differs from 4/10. */
  lemma EqualsIsFinerThanValue(f: Fraction, g: Fraction)
    requires Valid(f) && Valid(g)
    ensures Equals(f, FractionObject(g)) ==> Value(f) == Value(g)
    ensures Value(Fraction(2, 5)) == Value(Fraction(4, 10)) && !Equals(Fraction(2, 5), FractionObject(Fraction(4, 10)))
  {
  }

  /** `equals` is reflexive, symmetric and transitive on fractions, and false on null. */
  lemma EqualsIsEquivalence(f: Fraction, g: Fraction, h: Fraction)
    ensures Equals(f, FractionObject(f))
    ensures Equals(f, FractionObject(g)) ==> Equals(g, FractionObject(f))
    ensures Equals(f, FractionObject(g)) && Equals(g, FractionObject(h)) ==> Equals(f, FractionObject(h))
    ensures !Equals(f, Null) && !Equals(f, OtherObject)
  {
  }

  // ---------------------------------------------------------------------------
  // Conversions and text
  // ---------------------------------------------------------------------------

  /** Narrowing to `byte` through `short` is narrowing to `byte` directly. */
  lemma ByteValueThroughShort(f: Fraction)
    requires Valid(f)
    ensures ByteValue(f) == Wrap8(ShortValue(f))
  {
    Wrap8OfWrap16(IntValue(f));
  }

  /** On a whole number every conversion returns the number itself, within its range. */
  lemma IntValueOfInteger(n: int32)
    ensures IntValue(FromInt(n)) == n && LongValue(FromInt(n)) == n
  {
  }

  lemma SlashIndexOfNumeral(s: string)
    requires '/' !in s
    ensures SlashIndex(s) == |s|
  {
  }

  lemma SlashIndexOfPair(a: string, b: string)
    requires '/' !in a
    ensures SlashIndex(a + "/" + b) == |a|
  {
    var s := a + "/" + b;
    assert s[|a|] == '/';
  }

  /**
   `toString()` loses nothing but the denominator of zero: reading its text
   back gives the stored pair, or (0, 1) for any zero numerator.
   */
  lemma ParseToString(f: Fraction)
    ensures IsFractionText(ToString(f))
    ensures ParseFraction(ToString(f)) == if f.num == 0 then (0, 1) else (f.num, f.den)
  {
    var s := ToString(f);
    if f.num == 0 {
      assert SlashIndex(s) == 1;
      assert Decimal.ParseNat(s) == 0 by {
        assert s[..0] == "";
      }
    } else if f.den == 1 {
      SlashIndexOfNumeral(s);
      Decimal.ParseIntToString(f.num);
    } else {
      var a, b := Decimal.IntToString(f.num), Decimal.IntToString(f.den);
      SlashIndexOfPair(a, b);
      assert s[..|a|] == a;
      assert s[|a| + 1..] == b;
      Decimal.ParseIntToString(f.num);
      Decimal.ParseIntToString(f.den);
    }
  }

  /** Two non-zero fractions print alike only if they are stored alike. */
  lemma ToStringInjective(f: Fraction, g: Fraction)
    requires f.num != 0 && g.num != 0 && ToString(f) == ToString(g)
    ensures f == g
  {
    ParseToString(f);
    ParseToString(g);
  }
}
