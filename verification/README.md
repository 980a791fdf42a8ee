# Fraction: a verified model of `math.Fraction`

`math.Fraction` is an immutable rational-number value type. It stores a Java
`int` numerator and a Java `int` denominator. The constructor keeps the
denominator positive by folding its sign into the numerator, and it never
reduces. Reduction is the separate operation `reduce()`. The class offers:

- `add`, `subtract`, `multiply` and `divide`, each with an `int` operand and with a `Fraction` operand;
- `pow(int)`;
- `reciprocal`, `abs`, `isZero` and `reduce`;
- truncating conversion to `int`, `long`, `short` and `byte`;
- structural `equals` and a `toString` of the form `num`, `num/den` or `0`.

Every failure is an `ArithmeticException`.

The model is written in Dafny and has six modules:

| file | module | contents |
|---|---|---|
| `java_int.dfy` | `JavaInt` | Java `int` arithmetic over unbounded integers. It defines the 32-bit wrap-around, `Math.abs`, `/` truncating toward zero, the `(short)` and `(byte)` casts, and the congruence facts that move a wrap from one subterm to another. |
| `divisibility.dfy` | `Divisibility` | Euclid's gcd, with the facts `reduce` needs: common divisors divide the gcd, dividing by the gcd leaves coprime parts, and Gauss's lemma. |
| `decimal.dfy` | `Decimal` | The decimal text of an integer as Java prints it, and a parser that reads it back. |
| `fraction.dfy` | `Fractions` | The fraction datatype, its class invariant and its rational value. It has every operation, each with its error cases, its exact `int` result and the rational value it yields. |
| `fraction_laws.dfy` | `FractionLaws` | Laws relating the operations: inverse pairs, agreement of the `int` and `Fraction` overloads, the canonical form produced by `reduce`, the equality and text round trips, and the constructor finding. |
| `fraction_examples.dfy` | `FractionExamples` | The cases of the unit tests, stated about the model. |

How the model is built:

- **Integers.** Java `int` arithmetic wraps, and the model writes the wrap out with `JavaInt.Wrap32` rather than excluding overflow by preconditions. Each operation states its result as the constructor applied to the wrapped exact parts it hands over, for example `Wrap32(a*d + c*b)` over `Wrap32(b*d)` for a cross-multiplied sum. A wrapped denominator can be zero or negative there, and the constructor's outcome then follows from its own contract: a zero product throws `DivisionByZero` (1/65536 times 1/65536), and a product wrapping to `Integer.MIN_VALUE` throws `IntegerOverflow`. Where no intermediate value leaves the `int` range, each operation also states the rational result through the ghost function `Fractions.Value`.
- **Errors.** An `ArithmeticException` is the `Err` side of `Result`. `DivisionByZero` covers every failure the class documents. `IntegerOverflow` is the corrected constructor's answer to a negation that overflows; see "## Findings".
- **`pow`.** The model is a method whose loop mirrors the Java `while (n != 1)` loop, including the wrapping countdown from `Integer.MIN_VALUE`.

Several operations are `// TODO` stubs in the source: `add`, `subtract` and `divide` with either operand, `multiply(int)`, `reciprocal`, `abs`, `intValue`, `longValue`, `isZero`, `reduce` and `toString`. For these, the model implements what the doc comments and `FractionTest` require, using the natural Java expressions built on the constructor. The constructor, `pow`, `multiply(Fraction)` and `equals` have real bodies in the source. The model follows those bodies, with one change: every fraction is built with the corrected constructor `Fractions.New` (see "## Findings"). So `pow` and `multiply(Fraction)` throw `IntegerOverflow` on the few inputs where the constructor as written would store a broken fraction. Everywhere else their results are those of the bodies as written, and their contracts state this.

The stubs leave some results open. There the model follows the doc comments and `FractionTest`:

- **`add(Fraction)` and `subtract(Fraction)`.** The test expects `12/17 + 1/17 = 13/17` (FractionTest.java:74), not the cross-multiplied `221/289`. So over equal denominators the numerators are added or subtracted and the denominator is kept. Otherwise the operands are cross-multiplied over the product of the denominators, as the test's `12/17 + 1/2 = 41/34` shows (FractionTest.java:75).
- **`multiply(0)`.** The test requires the `ZERO` constant itself (FractionTest.java:50), so `MultiplyInt(f, 0) == ZERO`.
- **`pow` of zero to a negative exponent.** The doc comment names no exception. The body has no guard: the loop leaves a zero numerator, and the constructor throws `DivisionByZero` when that numerator becomes the denominator (Fraction.java:144-146). `Fractions.Pow` states this outcome.

## Model

| member | source | states |
|---|---|---|
| JavaInt.Wrap32 | src/main/java/math/Fraction.java:193 | A Java `int` product or sum is congruent to the exact value modulo 2^32, and it equals the exact value whenever that value fits in an `int`. |
| JavaInt.Neg32 | src/main/java/math/Fraction.java:43-44 | Java unary minus negates every `int` except `Integer.MIN_VALUE`, which it leaves unchanged. |
| JavaInt.Abs32 | src/main/java/math/Fraction.java:206-214 | `Math.abs` gives the magnitude of every `int` except `Integer.MIN_VALUE`, which stays negative. |
| JavaInt.DivTowardZero | src/test/java/math/FractionTest.java:155-160 | Java's `/` with a positive divisor truncates toward zero. The remainder has the dividend's sign and is smaller than the divisor, so -4/3 is -1, and the quotient is no larger in magnitude than the dividend. |
| JavaInt.Wrap32Congruent | src/main/java/math/Fraction.java:139-141 | Values that differ by a multiple of 2^32 wrap to the same `int`, so a loop of wrapping steps can be reasoned about through the exact value. |
| JavaInt.Wrap32MulLeft | src/main/java/math/Fraction.java:139-140 | Multiplying an already wrapped product again is the same as wrapping the exact product. This is why repeated `*=` yields the wrapped power. |
| JavaInt.Wrap8OfWrap16 | src/test/java/math/FractionTest.java:134-140 | A `(byte)` cast of a `(short)` cast is the `(byte)` cast of the original value. |
| Divisibility.Gcd | src/main/java/math/Fraction.java:267-275 | The gcd that `reduce` divides by is a positive common divisor of its arguments, and it is zero only for (0, 0). |
| Divisibility.GcdGreatest | src/main/java/math/Fraction.java:267-275 | Every common divisor of the two arguments divides their gcd. |
| Divisibility.DivideByGcdCoprime | src/main/java/math/Fraction.java:267-275 | Dividing both arguments by their gcd leaves a coprime pair. |
| Divisibility.GcdScale | src/main/java/math/Fraction.java:267-275 | Multiplying both arguments by k multiplies their gcd by k. |
| Divisibility.CoprimeDividesFactor | src/main/java/math/Fraction.java:267-275 | Gauss's lemma: a number coprime to p that divides p * s divides s. It underlies the uniqueness of lowest terms. |
| Decimal.NatToString | src/main/java/math/Fraction.java:323-337 | The decimal digits of a natural number are non-empty and all digits, with a leading zero only for zero itself. |
| Decimal.IntToString | src/main/java/math/Fraction.java:323-337 | `Integer.toString` yields a numeral that starts with '-' exactly for negative values and never contains '/'. |
| Decimal.ParseNatToString | src/main/java/math/Fraction.java:323-337 | Reading the printed digits of n back gives n. |
| Decimal.ParseIntToString | src/main/java/math/Fraction.java:323-337 | Reading the printed text of any integer back gives that integer. |
| Fractions.NewAsWritten | src/main/java/math/Fraction.java:35-46 | The constructor exactly as written throws exactly for a zero denominator. The fraction it stores has a positive denominator exactly when the given denominator is not `Integer.MIN_VALUE`. |
| Fractions.New | src/main/java/math/Fraction.java:35-46 | The constructor with an overflow-safe sign fold. A zero denominator throws `DivisionByZero`, and a negation that would overflow throws `IntegerOverflow`, in both directions. Otherwise it stores a positive denominator of the given magnitude and a numerator of the given magnitude with the same value (`num * d == n * den`), and it does not reduce. |
| Fractions.FromInt | src/main/java/math/Fraction.java:54-56 | `Fraction(n)` is the two-argument constructor applied to (n, 1), and its value is n. |
| Fractions.AddInt | src/main/java/math/Fraction.java:76-85 | `add(int)` keeps the denominator and adds n times it to the numerator with `int` wrap-around. When the result fits, the value is the receiver's plus n. |
| Fractions.SubtractInt | src/main/java/math/Fraction.java:87-96 | `subtract(int)` keeps the denominator and subtracts n times it from the numerator with `int` wrap-around. When the result fits, the value is the receiver's minus n. |
| Fractions.MultiplyInt | src/main/java/math/Fraction.java:98-107 | `multiply(0)` is the `ZERO` constant. Otherwise the denominator is kept and the numerator is multiplied with wrap-around. When the product fits, the value is multiplied by n. |
| Fractions.DivideInt | src/main/java/math/Fraction.java:109-119 | `divide(0)` throws `DivisionByZero`. Otherwise the result is the constructor applied to the numerator and the wrapped `den * n`. Without overflow, n joins the denominator with its sign moved to the numerator, and the value is divided by n. Every result has a positive denominator. |
| Fractions.Pow | src/main/java/math/Fraction.java:121-147 | `pow(0)` is 1/1 for every receiver, zero included. For n > 0 the result is the constructor applied to the wrapped n-th powers of numerator and denominator. For n < 0 the powers are swapped, so zero to a negative power throws `DivisionByZero`. Wherever the result is not `IntegerOverflow`, it is what the constructor as written builds from those powers. The result is the exact (a^n, b^n) when the powers fit. |
| Fractions.Add | src/main/java/math/Fraction.java:149-158 | `add(Fraction)` adds the numerators over a shared denominator, with wrap-around. Otherwise the result is the constructor applied to the wrapped `a*d + c*b` and `b*d`. Every result has a positive denominator. Without overflow the stored pair is exactly (a*d + c*b, b*d), and the value is the sum of the values. |
| Fractions.Subtract | src/main/java/math/Fraction.java:160-169 | `subtract(Fraction)` subtracts the numerators over a shared denominator, with wrap-around. Otherwise the result is the constructor applied to the wrapped `a*d - c*b` and `b*d`. Every result has a positive denominator. Without overflow the stored pair is exactly (a*d - c*b, b*d), and the value is the difference of the values. |
| Fractions.Multiply | src/main/java/math/Fraction.java:183-194 | A `ZERO` operand gives `ZERO`. Otherwise the result is the constructor applied to the wrapped products `a*c` and `b*d`. Wherever that is not `IntegerOverflow`, it is what the body as written builds. Without overflow the result is (a*c, b*d), and its value is the product of the values. |
| Fractions.Divide | src/main/java/math/Fraction.java:171-181 | Dividing by a zero-valued fraction throws `DivisionByZero`. Otherwise the result is the constructor applied to the wrapped `a*d` and `b*c`, which normalises the sign, and every result has a positive denominator. Without overflow the denominator is `b*|c|`, and the value is the quotient of the values. |
| Fractions.Reciprocal | src/main/java/math/Fraction.java:196-204 | `reciprocal()` throws `DivisionByZero` exactly for a zero numerator. It swaps the magnitudes of numerator and denominator and normalises the sign, and the result times the receiver has value one. |
| Fractions.Abs | src/main/java/math/Fraction.java:206-214 | `abs()` keeps the denominator and gives the absolute value, except for a numerator of `Integer.MIN_VALUE`, which `Math.abs` leaves unchanged. |
| Fractions.IsZero | src/main/java/math/Fraction.java:256-265 | `isZero()` holds exactly when the value is zero, whatever the denominator. |
| Fractions.Reduce | src/main/java/math/Fraction.java:267-275 | `reduce()` keeps the value and a positive denominator. Its result is in lowest terms and no larger in either part than the receiver. |
| Fractions.IntValue | src/main/java/math/Fraction.java:216-224 | `intValue()` is the quotient truncated toward zero. The remainder has the numerator's sign and is smaller than the denominator. |
| Fractions.LongValue | src/main/java/math/Fraction.java:246-254 | `longValue()` is the same truncated quotient as a `long`. |
| Fractions.ShortValue | src/test/java/math/FractionTest.java:170-176 | `shortValue()` keeps the low 16 bits of `intValue()`. It is congruent to it modulo 2^16 and equal to it when it fits in a `short`. |
| Fractions.ByteValue | src/test/java/math/FractionTest.java:134-140 | `byteValue()` keeps the low 8 bits of `intValue()`. It is congruent to it modulo 2^8 and equal to it when it fits in a `byte`. |
| Fractions.Equals | src/main/java/math/Fraction.java:293-310 | `equals` is true exactly for a fraction with the same stored numerator and denominator, and false for null and for other classes. |
| Fractions.ToString | src/main/java/math/Fraction.java:323-337 | `toString()` is "0" exactly for a zero numerator, and it contains a '/' exactly when the numerator is non-zero and the denominator is not 1. |
| FractionLaws.NewAsWrittenKeepsNegativeDenominator | src/main/java/math/Fraction.java:35-46 | As written, `new Fraction(1, Integer.MIN_VALUE)` stores the denominator `Integer.MIN_VALUE`, which breaks the positive-denominator invariant. |
| FractionLaws.NewAsWrittenFlipsSign | src/main/java/math/Fraction.java:35-46 | As written, `new Fraction(Integer.MIN_VALUE, -1)` stores -2^31 / 1 for the value +2^31. |
| FractionLaws.NewRefinesAsWritten | src/main/java/math/Fraction.java:35-46 | The corrected constructor agrees with the written one wherever it succeeds, and both throw `DivisionByZero` on the same inputs. Where the corrected one reports overflow, the written one stores a pair that is invalid or has the wrong value. |
| FractionLaws.ConstantsAreConstructed | src/main/java/math/Fraction.java:18-26 | `ZERO` and `ONE` are what the constructors build from 0 and 1. |
| FractionLaws.AddThenSubtractInt | src/main/java/math/Fraction.java:76-96 | `f.add(n).subtract(n)` is `f` again, even when the intermediate numerator wraps. |
| FractionLaws.SubtractThenAddInt | src/main/java/math/Fraction.java:76-96 | `f.subtract(n).add(n)` is `f` again, even when the intermediate numerator wraps. |
| FractionLaws.AddIntIsAddFromInt | src/main/java/math/Fraction.java:76-85 | `add(n)` gives the same fraction as `add(new Fraction(n))`. |
| FractionLaws.SubtractIntIsSubtractFromInt | src/main/java/math/Fraction.java:87-96 | `subtract(n)` gives the same fraction as `subtract(new Fraction(n))`. |
| FractionLaws.MultiplyIntIsMultiplyFromInt | src/main/java/math/Fraction.java:98-107 | `multiply(n)` gives the same fraction as `multiply(new Fraction(n))` when zero is compared by value: for n = 0 both are `ZERO`. |
| FractionLaws.DivideIntIsDivideFromInt | src/main/java/math/Fraction.java:109-119 | `divide(n)` gives the same fraction, or the same error, as `divide(new Fraction(n))`. |
| FractionLaws.ReciprocalInvolution | src/main/java/math/Fraction.java:196-204 | Taking the reciprocal twice gives back the same stored pair. |
| FractionLaws.MultiplyByReciprocalIsOne | src/main/java/math/Fraction.java:183-204 | For a numerator other than 0 and `Integer.MIN_VALUE`, the reciprocal exists, and the fraction multiplied by it has value one whenever `multiply` succeeds. Both products are `den * |num|`, so they wrap to the same `int`. `multiply` succeeds whenever that product fits in an `int`. |
| FractionLaws.AbsIdempotent | src/main/java/math/Fraction.java:206-214 | Applying `abs()` twice is applying it once. |
| FractionLaws.ValueEqualCross | src/main/java/math/Fraction.java:293-310 | Two fractions have the same value exactly when their cross products agree. |
| FractionLaws.ReduceFixedPoint | src/main/java/math/Fraction.java:267-275 | `reduce()` leaves a fraction unchanged exactly when it is already in lowest terms. |
| FractionLaws.ReduceIdempotent | src/main/java/math/Fraction.java:267-275 | Reducing twice is reducing once. |
| FractionLaws.LowestTermsUnique | src/main/java/math/Fraction.java:267-275 | Two fractions in lowest terms with the same value are the same stored pair. |
| FractionLaws.ReduceCanonical | src/main/java/math/Fraction.java:267-275 | Two fractions reduce to the same pair exactly when they have the same value. |
| FractionLaws.EqualsIsFinerThanValue | src/main/java/math/Fraction.java:293-310 | Equal fractions have equal values, but not conversely: 2/5 and 4/10 have the same value and are not equal. |
| FractionLaws.EqualsIsEquivalence | src/main/java/math/Fraction.java:293-310 | `equals` is reflexive, symmetric and transitive on fractions, and false for null and for other classes. |
| FractionLaws.ByteValueThroughShort | src/test/java/math/FractionTest.java:134-176 | `byteValue()` is the byte narrowing of `shortValue()`. |
| FractionLaws.IntValueOfInteger | src/main/java/math/Fraction.java:216-254 | On a whole number, `intValue()` and `longValue()` give the number itself. |
| FractionLaws.ParseToString | src/main/java/math/Fraction.java:323-337 | The text of `toString()` is a numeral, or two numerals around one '/'. Reading it back gives the stored pair, or (0, 1) for a zero numerator. |
| FractionLaws.ToStringInjective | src/main/java/math/Fraction.java:323-337 | Two fractions with non-zero numerators print alike only when they store the same pair. |
| FractionExamples.ConstructorCases | src/test/java/math/FractionTest.java:16-31 | The constructor cases of the tests: 13/-27 becomes -13/27, -5/-7 becomes 5/7, 4/2 is not reduced, 11/0 throws, and `Fraction(n)` is n/1. |
| FractionExamples.IntOperandCases | src/test/java/math/FractionTest.java:33-61 | The `int`-operand cases: 13/7 + 2 = 27/7, 111/53 - 5 = -154/53, 93/13 * 0 is `ZERO`, 8/3 / -11 = -8/33, 8/3 / 4 = 8/12, and division by 0 throws. |
| FractionExamples.PowCases | src/test/java/math/FractionTest.java:63-69 | (2/5)^0 = 1/1, (2/5)^2 = 4/25 and (2/5)^-2 = 25/4 follow from the contract of `Pow`. |
| FractionExamples.FractionOperandCases | src/test/java/math/FractionTest.java:71-98 | The `Fraction`-operand cases: 12/17 + 1/17 = 13/17, 12/17 + 1/2 = 41/34, the matching differences, (-21/7) / (-21/7) = 147/147, and the `ZERO` cases. |
| FractionExamples.UnaryCases | src/test/java/math/FractionTest.java:100-118 | The reciprocal, abs and isZero cases, including 0/-13 being zero and the reciprocal of 0/7 throwing. |
| FractionExamples.ReduceCoprimeCase | src/test/java/math/FractionTest.java:122 | 1073/1477 is already in lowest terms and is left unchanged. |
| FractionExamples.ReduceCommonFactorCase | src/test/java/math/FractionTest.java:123 | 1329577/4002509 reduces to 193/581. |
| FractionExamples.ToStringCases | src/test/java/math/FractionTest.java:126-132 | The texts "0", "-32000", "3/4" and "-51/48". |
| FractionExamples.IntValueCases | src/test/java/math/FractionTest.java:154-160 | 13/3 gives 4, 1/4 gives 0, -4/3 gives -1 and 1358016/11 gives 123456. |
| FractionExamples.LongValueCases | src/test/java/math/FractionTest.java:162-168 | The same four quotients as `long`s. |
| FractionExamples.ShortValueCases | src/test/java/math/FractionTest.java:170-176 | The `short` cases, including 160000/5 giving 32000. |
| FractionExamples.ByteValueCases | src/test/java/math/FractionTest.java:134-140 | The `byte` cases, including -1638/13 giving -126. |
| FractionExamples.EqualsCases | src/test/java/math/FractionTest.java:193-201 | 2/5 equals 2/5 and differs from null, 2/7 and 4/10. |
| FractionExamples.PowOverflowCase | src/main/java/math/Fraction.java:127-146 | (1/2)^31: the denominator's power wraps to `Integer.MIN_VALUE`. The model throws `IntegerOverflow`, where the constructor as written stores -1/`Integer.MIN_VALUE`. |
| FractionExamples.MultiplyWrapCases | src/main/java/math/Fraction.java:189-193 | 1/65536 times 1/32768 throws `IntegerOverflow` in the model, where the body as written stores -1/`Integer.MIN_VALUE`. 1/65536 times 1/65536 throws `DivisionByZero`, because the denominator product wraps to zero. |

## Left out

- `doubleValue()` and `floatValue()` (Fraction.java:231-244) are floating-point division, which the model does not represent.
- `clone()` (Fraction.java:283-291) is object-copy mechanics with no value semantics beyond copying both fields. An immutable datatype value is its own copy.
- `hashCode()` (Fraction.java:318-321) is not modelled. Since `equals` is structural equality of the stored pair, equal fractions hash equal under any function of that pair.
- `getNumerator()` and `getDenominator()` are the datatype fields `num` and `den`.
- The message text of `ArithmeticException` ("Division by zero") is not modelled. Only the error kind is.
- The `Number` superclass's `shortValue()` and `byteValue()` are not in the source file. They are modelled as the `(short)` and `(byte)` narrowing of `intValue()`, which is what `Number` does and what the tests expect.
- `GCD.gcd` is not part of this model. `reduce` uses `Divisibility.Gcd`, Euclid's algorithm on the magnitude of the numerator and the denominator, with its own contract.
- The comparisons with `Fraction.ZERO` by reference identity (Fraction.java:190 and the tests' `assertSame`) are modelled as structural comparison with 0/1. Java identity would not recognise a freshly built 0/1, which the model treats as `ZERO`. The result is `ZERO` either way, because multiplying by 0/1 yields 0/d and the model returns 0/1. So the two differ only in the stored denominator of a zero result.
- The guard `this.denominator == 0` in `multiply(Fraction)` (Fraction.java:190) is kept in `Fractions.Multiply`, but it is dead: the class invariant makes every denominator positive.
- The stubbed methods have no body in the source. The model gives each one the natural Java expression through the constructor, for example `divide(n)` as `new Fraction(numerator, denominator * n)`. Its wrap-around behaviour on overflowing inputs is therefore a modelling choice.
- Fractions.Add, Fractions.Subtract, Fractions.Multiply, Fractions.Divide and Fractions.DivideInt: the rational value is stated only when no intermediate product leaves the `int` range. On overflow the contracts state the wrapped parts handed to the constructor, and through its contract the error or the stored pair, but no value.
- Fractions.Pow: does not return the source's result where a wrapped power reaches the constructor as a negative denominator of `Integer.MIN_VALUE`, or as a negative denominator with numerator `Integer.MIN_VALUE`. There the model throws `IntegerOverflow` instead. For example, `(1/2).pow(31)` stores -1/`Integer.MIN_VALUE` in the source (`FractionExamples.PowOverflowCase`). On every other input the contract states the source's result.
- Fractions.Multiply: does not return the source's result where the wrapped products reach the constructor as a negative denominator of `Integer.MIN_VALUE`, or as a negative denominator with numerator `Integer.MIN_VALUE`. There the model throws `IntegerOverflow` instead. For example, 1/65536 times 1/32768 stores -1/`Integer.MIN_VALUE` in the source (`FractionExamples.MultiplyWrapCases`). On every other input the contract states the source's result.
- FractionLaws.MultiplyIntIsMultiplyFromInt: holds only because `ZERO` is recognised by value. In Java, `f.multiply(new Fraction(0))` is 0/den, since a freshly built 0/1 is not the `ZERO` instance, while `f.multiply(0)` is `ZERO`. The two agree in value, not in the stored denominator.
- FractionLaws.MultiplyByReciprocalIsOne: excludes a numerator of `Integer.MIN_VALUE`, whose reciprocal throws `IntegerOverflow` in the model.

## Findings

| source | as written | input that shows it | evidently intended | confidence | as-written member | corrected member |
|---|---|---|---|---|---|---|
| src/main/java/math/Fraction.java:35-46 | A negative denominator is made positive with Java `int` negation, which leaves `Integer.MIN_VALUE` unchanged. | `new Fraction(1, Integer.MIN_VALUE)` stores 1/-2^31 negated as -1/-2^31, with a negative denominator. | The stored denominator is always positive (Fraction.java:14), so this input should be rejected. | not executed | FractionLaws.NewAsWrittenKeepsNegativeDenominator | Fractions.New |
| src/main/java/math/Fraction.java:35-46 | The numerator is negated with the same overflowing `int` negation. | `new Fraction(Integer.MIN_VALUE, -1)` stores -2^31/1, although the value is +2^31. | The stored fraction has the value numerator/denominator, so this input should be rejected. | not executed | FractionLaws.NewAsWrittenFlipsSign | Fractions.New |

In both cases `Fractions.New` throws `IntegerOverflow`, and the rest of the model builds every fraction with it. `FractionLaws.NewRefinesAsWritten` proves that it agrees with the written constructor everywhere else.
