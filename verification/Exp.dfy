/** EXP: square-and-multiply on wrapping words, with tests that are meant to notice overflow. */
module Exp {
  import opened Positional
  import opened Words

  datatype Exponential = Overflow | Power(value: Word)

  /** What EXP makes of a partial result, the current square and the exponent bits still to go. */
  function Loop(result: Word, a: Word, exponent: int): Exponential
    decreases exponent
  {
    if exponent <= 0 then Power(result) else
      var r := if exponent % 2 == 1 then Wrap(result as int * a as int) else result;
      if exponent % 2 == 1 && r < a then Overflow else
        var square := Wrap(a as int * a as int);
        if square < 1 then Overflow else Loop(r, square, exponent / 2)
  }

  /** EXP: `base` to the `exponent`; a negative exponent counts as 0. */
  method Exponentiate(base: Word, exponent: Word) returns (r: Exponential)
    ensures r == Loop(1, base, exponent)
  {
    var a, e, result := base, exponent, 1;
    while e > 0
      invariant Loop(1, base, exponent) == Loop(result, a, e)
      decreases e
    {
      if e % 2 == 1 {
        result := Wrap(result as int * a as int);
        if result < a {
          return Overflow;
        }
      }
      a := Wrap(a as int * a as int);
      if a < 1 {
        return Overflow;
      }
      e := e / 2;
    }
    return Power(result);
  }

  // ---- Congruence modulo 2^64

  ghost predicate Congruent(x: int, y: int)
  {
    exists k :: Differ(x, y, k)
  }

  ghost predicate Differ(x: int, y: int, k: int)
  {
    x == y + k * 0x1_0000_0000_0000_0000
  }

  lemma WrapCongruent(x: int)
    ensures Congruent(Wrap(x), x)
  {
    assert Differ(Wrap(x), x, -((x + 0x8000_0000_0000_0000) / 0x1_0000_0000_0000_0000));
  }

  lemma CongruentTransitive(x: int, y: int, z: int)
    requires Congruent(x, y) && Congruent(y, z)
    ensures Congruent(x, z)
  {
    var j :| Differ(x, y, j);
    var k :| Differ(y, z, k);
    assert Differ(x, z, j + k);
  }

  lemma CongruentTimes(x: int, y: int, z: int)
    requires Congruent(x, y)
    ensures Congruent(x * z, y * z)
  {
    var k :| Differ(x, y, k);
    assert x * z == y * z + (k * z) * 0x1_0000_0000_0000_0000 by {
      assert (y + k * 0x1_0000_0000_0000_0000) * z == y * z + (k * z) * 0x1_0000_0000_0000_0000;
    }
    assert Differ(x * z, y * z, k * z);
  }

  lemma CongruentProduct(x: int, y: int, u: int, v: int)
    requires Congruent(x, y) && Congruent(u, v)
    ensures Congruent(x * u, y * v)
  {
    CongruentTimes(x, y, u);
    CongruentTimes(u, v, y);
    assert u * y == y * u && v * y == y * v;
    CongruentTransitive(x * u, y * u, y * v);
  }

  lemma {:induction false} CongruentPow(x: int, y: int, n: nat)
    requires Congruent(x, y)
    ensures Congruent(Pow(x, n), Pow(y, n))
  {
    if n == 0 {
      assert Differ(1, 1, 0);
    } else {
      CongruentPow(x, y, n - 1);
      CongruentProduct(x, y, Pow(x, n - 1), Pow(y, n - 1));
    }
  }

  lemma CongruentWords(x: Word, y: int)
    requires Congruent(x, y)
    ensures x == y <==> InRange(y)
  {
    var k :| Differ(x, y, k);
  }

  // ---- What the loop computes

  /** The factor that the lowest exponent bit contributes. */
  function Factor(a: int, e: int): int
  {
    if e % 2 == 1 then a else 1
  }

  lemma PowHalves(a: int, e: nat)
    requires e > 0
    ensures Pow(a, e) == Factor(a, e) * Pow(a * a, e / 2)
  {
    PowMul(a, 2, e / 2);
    assert Pow(a, 2) == a * a by { assert Pow(a, 1) == a * Pow(a, 0) == a; }
    if e % 2 == 1 {
      assert 2 * (e / 2) == e - 1;
    } else {
      assert 2 * (e / 2) == e;
    }
  }

  lemma RoundKeeps(result: int, a: int, e: nat)
    requires e > 0
    ensures result * Factor(a, e) * Pow(a * a, e / 2) == result * Pow(a, e)
  {
    PowHalves(a, e);
    MulAssociative(result, Factor(a, e), Pow(a * a, e / 2));
  }

  /** Whatever EXP pushes is the true power modulo 2^64. */
  lemma {:induction false} LoopCongruent(result: Word, a: Word, e: nat)
    requires Loop(result, a, e).Power?
    ensures Congruent(Loop(result, a, e).value, result as int * Pow(a, e))
    decreases e
  {
    if e == 0 {
      assert Differ(result, result as int * Pow(a, e), 0);
    } else {
      var product, square := result as int * Factor(a, e), Wrap(a as int * a as int);
      var r := Wrap(product);
      assert Loop(result, a, e) == Loop(r, square, e / 2);
      LoopCongruent(r, square, e / 2);
      WrapCongruent(product);
      WrapCongruent(a as int * a as int);
      CongruentPow(square, a as int * a as int, e / 2);
      CongruentProduct(r, product, Pow(square, e / 2), Pow(a as int * a as int, e / 2));
      RoundKeeps(result, a, e);
      CongruentTransitive(Loop(result, a, e).value, r as int * Pow(square, e / 2), result as int * Pow(a, e));
    }
  }

  // ---- When it exits

  lemma CongruentWraps(x: int, y: int)
    requires Congruent(x, y)
    ensures Wrap(x) == Wrap(y)
  {
    var k :| Differ(x, y, k);
  }

  lemma WrapProduct(x: int, y: int)
    ensures Wrap(Wrap(x) as int * Wrap(y) as int) == Wrap(x * y)
  {
    hide Wrap;
    WrapCongruent(x);
    WrapCongruent(y);
    CongruentProduct(Wrap(x), x, Wrap(y), y);
    CongruentWraps(Wrap(x) as int * Wrap(y) as int, x * y);
  }

  /** Whether a test fires in round `i`, which exists up to the highest bit of the exponent: the result of the
      rounds so far is less than the square of this round, if it went into it, or the next square is less
      than 1. */
  predicate Fires(base: Word, exponent: nat, i: nat)
  {
    PowPositive(2, i);
    PowPositive(2, i + 1);
    Pow(2, i) <= exponent && (
      || (exponent / Pow(2, i) % 2 == 1 && Wrap(Pow(base, exponent % Pow(2, i + 1))) < Wrap(Pow(base, Pow(2, i))))
      || Wrap(Pow(base, Pow(2, i + 1))) < 1)
  }

  ghost predicate FiresFrom(base: Word, exponent: nat, i: nat)
  {
    exists j: nat :: j >= i && Fires(base, exponent, j)
  }

  lemma FiresNowOrLater(base: Word, exponent: nat, i: nat)
    ensures FiresFrom(base, exponent, i) <==> Fires(base, exponent, i) || FiresFrom(base, exponent, i + 1)
  {
    hide Fires;
  }

  lemma NoneFires(base: Word, exponent: nat, i: nat)
    requires exponent < Pow(2, i)
    ensures !FiresFrom(base, exponent, i)
  {
    forall j: nat | j >= i ensures !Fires(base, exponent, j) {
      PowMonotone(2, i, j);
    }
  }

  /** The next binary digit of `e`. */
  lemma NextBit(e: nat, p: nat)
    requires p > 0
    ensures 2 * p > 0 && e / (2 * p) == e / p / 2
    ensures e % (2 * p) == e % p + (if e / p % 2 == 1 then p else 0)
  {
    DivMod(e, p);
    DivMod(e, 2 * p);
    HalveQuotient(e / p, e / p / 2, e / p % 2, p);
    LastDigit(2 * p, e / p / 2, e % p + (if e / p % 2 == 1 then p else 0), e / (2 * p), e % (2 * p));
  }

  lemma HalveQuotient(q: int, h: int, d: int, p: int)
    requires q == 2 * h + d
    ensures d == 0 ==> q * p == h * (2 * p)
    ensures d == 1 ==> q * p == h * (2 * p) + p
  {
    MulAssociative(h, 2, p);
  }

  /** What a round makes of the result and of the square. */
  lemma RoundPowers(base: Word, e: nat, i: nat)
    ensures 0 < Pow(2, i) && Pow(2, i + 1) == 2 * Pow(2, i)
    ensures var p, result, a := Pow(2, i), Wrap(Pow(base, e % Pow(2, i))), Wrap(Pow(base, Pow(2, i)));
      && Wrap(a as int * a as int) == Wrap(Pow(base, 2 * p))
      && (e / p % 2 == 1 ==> Wrap(result as int * a as int) == Wrap(Pow(base, e % (2 * p))))
      && (e / p % 2 == 0 ==> result == Wrap(Pow(base, e % (2 * p))))
  {
    PowPositive(2, i);
    var p := Pow(2, i);
    assert Pow(2, i + 1) == 2 * p;
    hide Pow, Wrap;
    NextBit(e, p);
    DivMod(e, p);
    WrapProduct(Pow(base, p), Pow(base, p));
    PowAdd(base, p, p);
    WrapProduct(Pow(base, e % p), Pow(base, p));
    PowAdd(base, e % p, p);
  }

  lemma {:induction false} LoopOutcome(base: Word, e: nat, i: nat)
    ensures 0 < Pow(2, i)
    ensures Loop(Wrap(Pow(base, e % Pow(2, i))), Wrap(Pow(base, Pow(2, i))), e / Pow(2, i)) ==
            if FiresFrom(base, e, i) then Overflow else Power(Wrap(Pow(base, e)))
    decreases e - i
  {
    hide Pow, Wrap, FiresFrom;
    PowPositive(2, i);
    var p := Pow(2, i);
    DivMod(e, p);
    if e < p {
      LastDigit(p, e / p, e % p, 0, e);
      NoneFires(base, e, i);
    } else {
      ExponentBelowPower(i);
      RoundPowers(base, e, i);
      NextBit(e, p);
      FiresNowOrLater(base, e, i);
      LoopOutcome(base, e, i + 1);
      QuotientPositive(e, p);
    }
  }

  lemma QuotientPositive(e: nat, p: nat)
    requires 0 < p <= e
    ensures e / p > 0
  {
    DivMod(e, p);
  }

  lemma {:induction false} ExponentBelowPower(i: nat)
    ensures i < Pow(2, i)
  {
    if i > 0 {
      ExponentBelowPower(i - 1);
    }
  }

  /** EXP exits exactly if a test fires in some round, and pushes the power modulo 2^64 if none does. */
  lemma ExpOutcome(base: Word, exponent: nat)
    ensures Loop(1, base, exponent) ==
            if FiresFrom(base, exponent, 0) then Overflow else Power(Wrap(Pow(base, exponent)))
  {
    hide FiresFrom, Loop;
    LoopOutcome(base, exponent, 0);
    PowOne(base);
    assert Pow(2, 0) == 1 && Pow(base, 0) == 1;
  }

  /** A result that EXP pushes is right exactly when the power fits a word. */
  lemma PushedRightIffFits(base: Word, exponent: nat)
    requires Loop(1, base, exponent).Power?
    ensures Loop(1, base, exponent).value == Pow(base, exponent) <==> InRange(Pow(base, exponent))
  {
    LoopCongruent(1, base, exponent);
    CongruentWords(Loop(1, base, exponent).value, Pow(base, exponent));
  }

  // ---- When it is right

  /** The power of the base that the last square holds: 2 to the number of bits of `e`. */
  function LastSquare(e: nat): (n: nat)
    ensures e < n
  {
    if e == 0 then 1 else 2 * LastSquare(e / 2)
  }

  lemma SquaredAgain(a: int, e: nat)
    requires e > 0
    ensures Pow(a, LastSquare(e)) == Pow(a * a, LastSquare(e / 2))
  {
    PowHalves(a, LastSquare(e));
    assert LastSquare(e) / 2 == LastSquare(e / 2);
  }

  lemma PowOne(a: int)
    ensures Pow(a, 1) == a
  {
    assert Pow(a, 1) == a * Pow(a, 0) == a;
  }

  /** With a power that is at least its base, a product with it bounds the product with the base. */
  lemma PowBounds(x: nat, a: int, e: nat)
    requires a >= 1 && e > 0
    ensures a <= Pow(a, e) && x <= x * a <= x * Pow(a, e)
  {
    PowMonotone(a, 1, e);
    PowOne(a);
    MulLeq(x, x, a, Pow(a, e));
    MulLeq(x, x, 1, a);
  }

  /** What is left to multiply at the end of a round. */
  lemma RoundFits(x: nat, a: int, e: nat)
    requires a >= 1 && e > 0
    ensures 1 <= Factor(a, e) && x <= x * Factor(a, e) <= x * Pow(a, e)
    ensures e > 1 ==> x * (a * a) <= x * Pow(a, e)
    ensures e > 1 ==> a * a <= Pow(a, e)
  {
    MulLeq(1, a, 1, a);
    PowHalves(a, e);
    RoundKeeps(x, a, e);
    MulLeq(x, x, 1, Factor(a, e));
    if e > 1 {
      PowBounds(x * Factor(a, e), a * a, e / 2);
      PowBounds(Factor(a, e), a * a, e / 2);
      MulLeq(x, x * Factor(a, e), a * a, a * a);
      MulLeq(1, Factor(a, e), a * a, a * a);
    } else {
      assert Pow(a * a, 0) == 1;
    }
  }

  /** A round whose product fits and passes the first test. */
  lemma Round(result: Word, a: Word, e: nat, r: Word)
    requires e > 0 && r as int == result as int * Factor(a, e) && (e % 2 == 1 ==> r >= a)
    ensures Loop(result, a, e) ==
            if Wrap(a as int * a as int) < 1 then Overflow else Loop(r, Wrap(a as int * a as int), e / 2)
  {
    if e % 2 == 1 {
      assert Wrap(result as int * a as int) == r;
    }
  }

  lemma LastRound(result: Word, a: Word, r: Word)
    requires r as int == result as int * a as int && r >= a
    ensures Loop(result, a, 1) == if Wrap(Pow(a, LastSquare(1))) >= 1 then Power(r) else Overflow
  {
    Round(result, a, 1, r);
    SquaredAgain(a, 1);
    PowOne(a as int * a as int);
    assert LastSquare(0) == 1;
  }

  /** From positive numbers on, a power that fits is pushed unless the test of the last square, which
      is not needed, fires. */
  lemma {:induction false} PositiveLoop(result: Word, a: Word, e: nat)
    requires result >= 1 && a >= 1 && e > 0 && InRange(result as int * Pow(a, e))
    ensures Loop(result, a, e) ==
            if Wrap(Pow(a, LastSquare(e))) >= 1 then Power(result as int * Pow(a, e)) else Overflow
    decreases e
  {
    hide Pow, Loop, LastSquare, Factor, Wrap;
    var r := result as int * Factor(a, e);
    RoundFits(result, a, e);
    ProductAtLeast(result, a, e);
    RoundKeeps(result, a, e);
    if e > 1 {
      var square := a as int * a as int;
      RoundFits(1, a, e);
      MulLeq(1, result, Pow(a, e), Pow(a, e));
      MulLeq(1, a, 1, a);
      SquaredAgain(a, e);
      Round(result, a, e, r);
      PositiveLoop(r, square, e / 2);
    } else {
      PowOne(a);
      MulLeq(1, result, a, a);
      LastRound(result, a, result as int * a as int);
    }
  }

  lemma ProductAtLeast(result: int, a: int, e: nat)
    requires result >= 1 && a >= 1
    ensures e % 2 == 1 ==> result * Factor(a, e) >= a
  {
    MulLeq(1, result, a, a);
  }

  lemma PowNothing(a: int)
    ensures Pow(a, 0) == 1
  {
  }

  /** A negative result meets the test for being less than the square. */
  lemma {:induction false} NegativeLoop(result: Word, a: Word, e: nat)
    requires result < 0 && a >= 1 && e > 0 && InRange(result as int * Pow(a, e))
    ensures Loop(result, a, e) == Overflow
    decreases e
  {
    hide Pow;
    var square := a as int * a as int;
    RoundFits(-(result as int), a, e);
    NegatedTimes(result, Pow(a, e));
    NegatedTimes(result, Factor(a, e));
    if e % 2 == 0 && Wrap(square) >= 1 {
      NegatedTimes(result, square);
      MulLeq(1, -(result as int), square, square);
      MulLeq(1, a, 1, a);
      assert square <= 0x8000_0000_0000_0000 && Wrap(square) as int == square;
      RoundKeeps(result, a, e);
      assert result as int * Factor(a, e) == result;
      NegativeLoop(result, square, e / 2);
    }
  }

  /** What the tests let through, of the powers that fit. */
  predicate LetThrough(base: Word, exponent: nat)
  {
    exponent == 0 || (
      && base != 0
      && (base > 0 || exponent == 1 || exponent % 2 == 0)
      && Wrap(Pow(base, LastSquare(exponent))) >= 1)
  }

  /** The loop on a power that fits: pushed, or taken for an overflow. */
  lemma FittingPower(base: Word, exponent: nat)
    requires InRange(Pow(base, exponent))
    ensures Loop(1, base, exponent) == if LetThrough(base, exponent) then Power(Pow(base, exponent)) else Overflow
  {
    hide Pow, Wrap;
    var a := base as int;
    if exponent == 0 {
      PowNothing(a);
    } else if base > 0 {
      PositiveLoop(1, base, exponent);
    } else if base == 0 {
      assert Wrap(0) == 0;
    } else if exponent == 1 {
      PowOne(a);
      SquaredAgain(a, 1);
      PowOne(a * a);
      assert Loop(base, Wrap(a * a), 0) == Power(base);
    } else {
      NegativeBase(base, exponent);
    }
  }

  lemma NegativeBase(base: Word, exponent: nat)
    requires base < 0 && exponent > 1 && InRange(Pow(base, exponent))
    ensures Loop(1, base, exponent) == if LetThrough(base, exponent) then Power(Pow(base, exponent)) else Overflow
  {
    hide Pow;
    var a, square, e := base as int, base as int * base as int, exponent / 2;
    assert square == -a * -a;
    MulLeq(1, -a, 1, -a);
    PowHalves(a, exponent);
    SquaredAgain(a, exponent);
    PowBounds(-a, square, e);
    NegatedTimes(a, Pow(square, e));
    if exponent % 2 == 0 {
      PositiveLoop(1, square, e);
    } else if Wrap(square) >= 1 {
      MulLeq(1, -a, Pow(square, e), Pow(square, e));
      assert Wrap(square) as int == square;
      NegativeLoop(base, square, e);
    }
  }

  /** EXP pushes the right power exactly when it fits and the tests let it through: then the exponent is 0,
      or the base is not 0, the power of a negative base is the first or even, and the square of the last
      round, which goes into no result, does not wrap to less than 1. Other powers that fit exit. A negative
      exponent counts as 0. */
  lemma ExpRight(base: Word, exponent: Word)
    ensures var r := Loop(1, base, exponent);
      && (exponent < 0 ==> r == Power(1))
      && (exponent >= 0 ==>
          && (r.Power? && r.value == Pow(base, exponent) <==>
              InRange(Pow(base, exponent)) && LetThrough(base, exponent))
          && (InRange(Pow(base, exponent)) && !LetThrough(base, exponent) ==> r == Overflow))
  {
    if exponent >= 0 {
      hide Loop, Pow, LetThrough;
      if InRange(Pow(base, exponent)) {
        FittingPower(base, exponent);
      }
    }
  }

  /** In particular if the base is positive and the last square fits. */
  lemma ExpExact(base: Word, exponent: nat)
    requires base >= 1 && InRange(Pow(base, LastSquare(exponent)))
    ensures Loop(1, base, exponent).Power? && Loop(1, base, exponent).value == Pow(base, exponent)
  {
    PowMonotone(base, exponent, LastSquare(exponent));
    PowMonotone(base, 0, LastSquare(exponent));
    FittingPower(base, exponent);
  }

  /** (2^32 + 1)^2 leaves the range unnoticed; 2^32 to the 1, (-2)^3 and 0 to the 1 exit although they fit. */
  lemma ExpOverflowTestsFail()
    ensures Loop(1, 0x1_0000_0001, 2) == Power(0x2_0000_0001) && Pow(0x1_0000_0001, 2) != 0x2_0000_0001
    ensures Loop(1, 0x1_0000_0000, 1) == Overflow && InRange(Pow(0x1_0000_0000, 1))
    ensures Loop(1, -2, 3) == Overflow && InRange(Pow(-2, 3))
    ensures Loop(1, 0, 1) == Overflow && InRange(Pow(0, 1))
  {
    assert Wrap(0x1_0000_0001 * 0x1_0000_0001) == 0x2_0000_0001;
    assert Wrap(0x2_0000_0001 * 0x2_0000_0001) == 0x4_0000_0001;
    assert Loop(1, 0x2_0000_0001, 1) == Loop(0x2_0000_0001, 0x4_0000_0001, 0);
    assert Pow(0x1_0000_0001, 1) == 0x1_0000_0001;
    assert Pow(0x1_0000_0000, 1) == 0x1_0000_0000;
    assert Pow(-2, 1) == -2 && Pow(-2, 2) == 4;
    assert Loop(-2, 4, 1) == Overflow;
  }
}
