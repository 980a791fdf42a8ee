/**
 Java's fixed-width integer semantics, written out over Dafny's unbounded `int`.

 Java `int` arithmetic silently wraps around modulo 2^32, `/` truncates toward
 zero, and the narrowing casts `(short)` and `(byte)` keep the low 16 or 8 bits.
 Every such operation the fraction type relies on is defined here once, together
 with the congruence facts that let proofs move a wrap from one place to another.
 */
module JavaInt {
  import opened Divisibility

  const INT_MIN: int := -0x8000_0000
  const INT_MAX: int := 0x7fff_ffff
  const TWO_32: int := 0x1_0000_0000

  /** The values of a Java `int`. */
  type int32 = x: int | -0x8000_0000 <= x < 0x8000_0000

  /** The values of a Java `long`. */
  type int64 = x: int | -0x8000_0000_0000_0000 <= x < 0x8000_0000_0000_0000

  /** The values of a Java `short`. */
  type int16 = x: int | -0x8000 <= x < 0x8000

  /** The values of a Java `byte`. */
  type int8 = x: int | -0x80 <= x < 0x80

  /** True when the mathematical value `x` is representable as a Java `int`. */
  predicate Fits32(x: int) {
    INT_MIN <= x <= INT_MAX
  }

  function AbsInt(x: int): nat {
    if x < 0 then -x else x
  }

  /** The Java `int` whose two's-complement bits are the low 32 bits of `x`. */
  function Wrap32(x: int): (r: int32)
    ensures (x - r) % TWO_32 == 0
    ensures Fits32(x) ==> r == x
  {
    (x + 0x8000_0000) % TWO_32 - 0x8000_0000
  }

  /** The `(short)` cast: keeps the low 16 bits. */
  function Wrap16(x: int): (r: int16)
    ensures (x - r) % 0x1_0000 == 0
    ensures -0x8000 <= x < 0x8000 ==> r == x
  {
    (x + 0x8000) % 0x1_0000 - 0x8000
  }

  /** The `(byte)` cast: keeps the low 8 bits. */
  function Wrap8(x: int): (r: int8)
    ensures (x - r) % 0x100 == 0
    ensures -0x80 <= x < 0x80 ==> r == x
  {
    (x + 0x80) % 0x100 - 0x80
  }

  /** Java `x + y` on `int`. */
  function Add32(x: int32, y: int32): int32 {
    Wrap32(x + y)
  }

  /** Java `x - y` on `int`. */
  function Sub32(x: int32, y: int32): int32 {
    Wrap32(x - y)
  }

  /** Java `x * y` on `int`. */
  function Mul32(x: int32, y: int32): int32 {
    Wrap32(x * y)
  }

  /** Java unary `-x` on `int`: the only value it does not negate is INT_MIN. */
  function Neg32(x: int32): (r: int32)
    ensures x != INT_MIN ==> r == -x
    ensures x == INT_MIN ==> r == INT_MIN
  {
    Wrap32(-(x as int))
  }

  /** `Math.abs(int)`: non-negative for every argument except INT_MIN. */
  function Abs32(x: int32): (r: int32)
    ensures x != INT_MIN ==> r == AbsInt(x)
    ensures x == INT_MIN ==> r == INT_MIN
  {
    if x < 0 then Neg32(x) else x
  }

  /**
   Java's `a / b` for a positive divisor: the quotient truncated toward zero,
   so the remainder `a - q * b` takes the sign of `a`. (Dafny's own `/` is
   Euclidean and would give -2 for -4 / 3 where Java gives -1.)
   */
  function DivTowardZero(a: int, b: int): (q: int)
    requires b > 0
    ensures a >= 0 ==> 0 <= a - q * b < b
    ensures a < 0 ==> -b < a - q * b <= 0
    ensures AbsInt(q) <= AbsInt(a)
  {
    if a >= 0 then
      NatDivBounds(a, b);
      a / b
    else
      NatDivBounds(-a, b);
      -((-a) / b)
  }

  /** How many multiples of 2^32 `Wrap32` takes away from `x`. */
  function WrapCount(x: int): int {
    (x + 0x8000_0000) / TWO_32
  }

  /** `x` is its wrap plus a whole number of 2^32 steps. */
  lemma Wrap32Split(x: int)
    ensures x == Wrap32(x) + WrapCount(x) * TWO_32
  {
  }

  /** Two integers that differ by a multiple of 2^32 wrap to the same Java `int`. */
  lemma Wrap32Congruent(x: int, y: int, k: int)
    requires x == y + k * TWO_32
    ensures Wrap32(x) == Wrap32(y)
  {
    Wrap32Split(y);
    ModUnique(x + 0x8000_0000, TWO_32, WrapCount(y) + k, Wrap32(y) + 0x8000_0000);
  }

  /** Narrowing to 16 bits and then to 8 is narrowing to 8: `(byte) (short) x == (byte) x`. */
  lemma Wrap8OfWrap16(x: int)
    ensures Wrap8(Wrap16(x)) == Wrap8(x)
  {
    var w: int, c: int := Wrap16(x), (x + 0x8000) / 0x1_0000;
    assert x == w + c * 0x1_0000;
    var a := w + 0x80;
    ModUnique(x + 0x80, 0x100, a / 0x100 + c * 0x100, a % 0x100);
  }

  /** Wrapping an operand of a product first does not change the wrapped product. */
  lemma Wrap32MulLeft(x: int, y: int)
    ensures Wrap32(Wrap32(x) * y) == Wrap32(x * y)
  {
    var w, c := Wrap32(x), WrapCount(x);
    Wrap32Split(x);
    assert x * y == w * y + (c * y) * TWO_32 by {
      assert x * y == (w + c * TWO_32) * y;
    }
    Wrap32Congruent(x * y, w * y, c * y);
  }

  /** Wrapping an operand of a sum first does not change the wrapped sum. */
  lemma Wrap32AddLeft(x: int, y: int)
    ensures Wrap32(Wrap32(x) + y) == Wrap32(x + y)
  {
    Wrap32Split(x);
    Wrap32Congruent(x + y, Wrap32(x) + y, WrapCount(x));
  }

  /** Wrapping an operand of a difference first does not change the wrapped difference. */
  lemma Wrap32SubLeft(x: int, y: int)
    ensures Wrap32(Wrap32(x) - y) == Wrap32(x - y)
  {
    Wrap32Split(x);
    Wrap32Congruent(x - y, Wrap32(x) - y, WrapCount(x));
  }

  /** Wrapping both operands of a sum first does not change the wrapped sum. */
  lemma Wrap32AddBoth(x: int, y: int)
    ensures Wrap32(Wrap32(x) + Wrap32(y)) == Wrap32(x + y)
  {
    Wrap32Split(x);
    Wrap32Split(y);
    Wrap32Congruent(x + y, Wrap32(x) + Wrap32(y), WrapCount(x) + WrapCount(y));
  }

  /** Wrapping both operands of a difference first does not change the wrapped difference. */
  lemma Wrap32SubBoth(x: int, y: int)
    ensures Wrap32(Wrap32(x) - Wrap32(y)) == Wrap32(x - y)
  {
    Wrap32Split(x);
    Wrap32Split(y);
    Wrap32Congruent(x - y, Wrap32(x) - Wrap32(y), WrapCount(x) - WrapCount(y));
  }

  /** Wrapping the second operand of a sum first does not change the wrapped sum. */
  lemma Wrap32AddRight(x: int, t: int)
    ensures Wrap32(x + Wrap32(t)) == Wrap32(x + t)
  {
    Wrap32Split(t);
    Wrap32Congruent(x + t, x + Wrap32(t), WrapCount(t));
  }

  /** Wrapping the second operand of a difference first does not change the wrapped difference. */
  lemma Wrap32SubRight(x: int, t: int)
    ensures Wrap32(x - Wrap32(t)) == Wrap32(x - t)
  {
    Wrap32Split(t);
    Wrap32Congruent(x - Wrap32(t), x - t, WrapCount(t));
  }

  /** The Java expression `x + y * z` on `int` is the wrap of the exact value. */
  lemma Add32Mul32(x: int32, y: int32, z: int32)
    ensures Add32(x, Mul32(y, z)) == Wrap32(x + y * z)
  {
    Wrap32AddRight(x, y * z);
  }

  /** The Java expression `x - y * z` on `int` is the wrap of the exact value. */
  lemma Sub32Mul32(x: int32, y: int32, z: int32)
    ensures Sub32(x, Mul32(y, z)) == Wrap32(x - y * z)
  {
    Wrap32SubRight(x, y * z);
  }

  /** Under wrap-around, adding `t` undoes a subtraction of `t`. */
  lemma Wrap32SubThenAdd(x: int32, t: int, y: int32)
    requires y == Wrap32(x - t)
    ensures Wrap32(y + t) == x
  {
    Wrap32AddLeft(x - t, t);
  }

  /** Under wrap-around, subtracting `t` undoes an addition of `t`. */
  lemma Wrap32AddThenSub(x: int32, t: int, y: int32)
    requires y == Wrap32(x + t)
    ensures Wrap32(y - t) == x
  {
    Wrap32SubLeft(x + t, t);
  }
}
