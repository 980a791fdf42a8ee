/**
 The concrete cases of the unit tests, stated about the model. Each lemma
 follows one test method; the cases of `pow`, a method, are results of a
 method that calls it. The last two members exhibit inputs on which a
 wrapped denominator product reaches the constructor: there the corrected
 constructor throws where the one as written stores `-1/INT_MIN`.
 */
module FractionExamples {
  import opened JavaInt
  import opened Divisibility
  import opened Fractions
  import opened FractionLaws

  lemma ConstructorCases()
    ensures New(1, 4) == Ok(Fraction(1, 4))
    ensures New(13, -27) == Ok(Fraction(-13, 27))
    ensures New(-5, -7) == Ok(Fraction(5, 7))
    ensures New(4, 2) == Ok(Fraction(4, 2))
    ensures New(11, 0) == Err(DivisionByZero)
    ensures FromInt(0) == ZERO && FromInt(3) == Fraction(3, 1) && FromInt(-13) == Fraction(-13, 1)
  {
  }

  lemma IntOperandCases()
    ensures AddInt(Fraction(13, 7), 2) == Fraction(27, 7)
    ensures AddInt(Fraction(13, 7), -2) == Fraction(-1, 7)
    ensures SubtractInt(Fraction(111, 53), 5) == Fraction(-154, 53)
    ensures SubtractInt(Fraction(111, 53), -1) == Fraction(164, 53)
    ensures MultiplyInt(Fraction(93, 13), 0) == ZERO
    ensures MultiplyInt(Fraction(93, 13), 3) == Fraction(279, 13)
    ensures MultiplyInt(Fraction(93, 13), -3) == Fraction(-279, 13)
    ensures DivideInt(Fraction(8, 3), 4) == Ok(Fraction(8, 12))
    ensures DivideInt(Fraction(8, 3), -11) == Ok(Fraction(-8, 33))
    ensures DivideInt(Fraction(8, 3), 0) == Err(DivisionByZero)
  {
  }

  /** `(2/5)^0`, `(2/5)^2` and `(2/5)^-2`, as far as the contract of `Pow` fixes them. */
  method PowCases() returns (zeroth: Result<Fraction>, square: Result<Fraction>, inverseSquare: Result<Fraction>)
    ensures zeroth == Ok(Fraction(1, 1))
    ensures square == Ok(Fraction(4, 25))
    ensures inverseSquare == Ok(Fraction(25, 4))
  {
    var f := Fraction(2, 5);
    assert Power(2, 2) == 4 && Power(5, 2) == 25;
    zeroth := Pow(f, 0);
    square := Pow(f, 2);
    inverseSquare := Pow(f, -2);
  }

  lemma FractionOperandCases()
    ensures Add(Fraction(12, 17), Fraction(1, 17)) == Ok(Fraction(13, 17))
    ensures Add(Fraction(12, 17), Fraction(1, 2)) == Ok(Fraction(41, 34))
    ensures Subtract(Fraction(12, 17), Fraction(1, 17)) == Ok(Fraction(11, 17))
    ensures Subtract(Fraction(12, 17), Fraction(1, 2)) == Ok(Fraction(7, 34))
    ensures Divide(Fraction(-21, 7), Fraction(-21, 7)) == Ok(Fraction(147, 147))
    ensures Divide(Fraction(-21, 7), ZERO) == Err(DivisionByZero)
    ensures Multiply(Fraction(11, 13), ZERO) == Ok(ZERO)
    ensures Multiply(Fraction(11, 13), Fraction(11, 13)) == Ok(Fraction(121, 169))
    ensures Multiply(Fraction(11, 13), Fraction(13, 11)) == Ok(Fraction(143, 143))
  {
  }

  lemma UnaryCases()
    ensures Reciprocal(Fraction(1024, 111)) == Ok(Fraction(111, 1024))
    ensures Reciprocal(Fraction(-37, 13)) == Ok(Fraction(-13, 37))
    ensures Reciprocal(Fraction(0, 7)) == Err(DivisionByZero)
    ensures Abs(Fraction(713, 31)) == Fraction(713, 31)
    ensures Abs(Fraction(-713, 31)) == Fraction(713, 31)
    ensures IsZero(ZERO) && IsZero(New(0, -13).value) && !IsZero(Fraction(4096, 19))
  {
  }

  /** Euclid's algorithm on 1477 and 1073, one remainder at a time. */
  lemma CoprimeCaseGcd()
    ensures Gcd(1073, 1477) == 1
  {
    assert Gcd(4, 1) == 1;
    assert Gcd(9, 4) == 1;
    assert Gcd(13, 9) == 1;
    assert Gcd(126, 13) == 1;
    assert Gcd(139, 126) == 1;
    assert Gcd(265, 139) == 1;
    assert Gcd(404, 265) == 1;
    assert Gcd(1073, 404) == 1;
    assert Gcd(1477, 1073) == 1;
  }

  lemma ReduceCoprimeCase()
    ensures Reduce(Fraction(1073, 1477)) == Fraction(1073, 1477)
  {
    CoprimeCaseGcd();
    ReduceFixedPoint(Fraction(1073, 1477));
  }

  lemma ReduceCommonFactorCase()
    ensures Reduce(Fraction(1329577, 4002509)) == Fraction(193, 581)
  {
    assert Gcd(1329577, 4002509) == 6889 by {
      assert Gcd(6889, 0) == 6889;
      assert Gcd(13778, 6889) == 6889;
      assert Gcd(1329577, 13778) == 6889;
      assert Gcd(4002509, 1329577) == 6889;
    }
    assert 1329577 / 6889 == 193 && 4002509 / 6889 == 581;
  }

  /** The digits of 32000, one `NatToString` step at a time. */
  lemma DigitsOf32000()
    ensures Decimal.NatToString(32000) == "32000"
  {
    assert Decimal.NatToString(32) == "32" by {
      assert Decimal.NatToString(3) == "3";
    }
    assert Decimal.NatToString(320) == "320";
    assert Decimal.NatToString(3200) == "3200";
  }

  /** The text of a fraction whose parts both print in two characters or fewer. */
  lemma ShortPartsText()
    ensures ToString(Fraction(3, 4)) == "3/4"
    ensures ToString(Fraction(-51, 48)) == "-51/48"
  {
    var minus51, fortyEight := Decimal.IntToString(-51), Decimal.IntToString(48);
    assert minus51 == "-51" by {
      assert Decimal.NatToString(51) == "51";
    }
    assert fortyEight == "48" by {
      assert Decimal.NatToString(48) == "48";
    }
    assert ToString(Fraction(-51, 48)) == minus51 + "/" + fortyEight;
  }

  lemma ToStringCases()
    ensures ToString(ZERO) == "0"
    ensures ToString(Fraction(-32000, 1)) == "-32000"
    ensures ToString(Fraction(3, 4)) == "3/4"
    ensures ToString(New(51, -48).value) == "-51/48"
  {
    DigitsOf32000();
    ShortPartsText();
    assert New(51, -48) == Ok(Fraction(-51, 48));
  }

  lemma IntValueCases()
    ensures IntValue(Fraction(13, 3)) == 4 && IntValue(Fraction(1, 4)) == 0
    ensures IntValue(Fraction(-4, 3)) == -1 && IntValue(Fraction(1358016, 11)) == 123456
  {
    assert 1358016 / 11 == 123456;
  }

  lemma LongValueCases()
    ensures LongValue(Fraction(13, 3)) == 4 && LongValue(Fraction(1, 4)) == 0
    ensures LongValue(Fraction(-4, 3)) == -1 && LongValue(Fraction(1358016, 11)) == 123456
  {
    assert 1358016 / 11 == 123456;
  }

  lemma ShortValueCases()
    ensures ShortValue(Fraction(13, 3)) == 4 && ShortValue(Fraction(1, 4)) == 0
    ensures ShortValue(Fraction(-4, 3)) == -1 && ShortValue(Fraction(160000, 5)) == 32000
  {
    assert IntValue(Fraction(160000, 5)) == 32000;
  }

  lemma ByteValueCases()
    ensures ByteValue(Fraction(13, 3)) == 4 && ByteValue(Fraction(1, 4)) == 0
    ensures ByteValue(Fraction(-4, 3)) == -1 && ByteValue(Fraction(-1638, 13)) == -126
  {
    assert IntValue(Fraction(-1638, 13)) == -126;
  }

  lemma EqualsCases()
    ensures !Equals(Fraction(2, 5), Null)
    ensures Equals(Fraction(2, 5), FractionObject(Fraction(2, 5)))
    ensures !Equals(Fraction(2, 5), FractionObject(Fraction(2, 7)))
    ensures !Equals(Fraction(2, 5), FractionObject(Fraction(4, 10)))
  {
  }

  /**
   `(1/2).pow(31)`: the denominator's power wraps to INT_MIN. The corrected
   constructor throws `IntegerOverflow`; the one as written stores `-1/INT_MIN`.
   */
  method PowOverflowCase() returns (r: Result<Fraction>)
    ensures r == Err(IntegerOverflow)
    ensures NewAsWritten(Wrap32(Power(1, 31)), Wrap32(Power(2, 31))) == Ok(Fraction(-1, INT_MIN))
  {
    PowerOfOne(31);
    PowerOfTwo31();
    r := Pow(Fraction(1, 2), 31);
  }

  lemma {:induction false} PowerOfOne(e: nat)
    ensures Power(1, e) == 1
  {
    if e > 0 {
      PowerOfOne(e - 1);
    }
  }

  lemma {:induction false} PowerSum(x: int, a: nat, b: nat)
    ensures Power(x, a + b) == Power(x, a) * Power(x, b)
    decreases b
  {
    if b > 0 {
      PowerSum(x, a, b - 1);
      assert Power(x, a + b) == x * Power(x, a + b - 1);
    }
  }

  lemma PowerOfTwo31()
    ensures Power(2, 31) == 0x8000_0000
  {
    assert Power(2, 1) == 2;
    assert Power(2, 3) == 8;
    PowerSum(2, 3, 3);
    PowerSum(2, 6, 6);
    PowerSum(2, 12, 12);
    PowerSum(2, 24, 6);
    PowerSum(2, 30, 1);
  }

  /**
   Denominator products that wrap: 65536 * 32768 wraps to INT_MIN, where the
   corrected constructor throws and the one as written stores `-1/INT_MIN`;
   65536 * 65536 wraps to zero, so `multiply` throws `DivisionByZero`.
   */
  lemma MultiplyWrapCases()
    ensures Multiply(Fraction(1, 65536), Fraction(1, 32768)) == Err(IntegerOverflow)
    ensures NewAsWritten(Wrap32(1 * 1), Wrap32(65536 * 32768)) == Ok(Fraction(-1, INT_MIN))
    ensures Multiply(Fraction(1, 65536), Fraction(1, 65536)) == Err(DivisionByZero)
  {
  }
}
