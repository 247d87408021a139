/** The machine's 64-bit signed words. Arithmetic that leaves their range wraps around, in two's complement. */
module Words {
  import opened Positional

  const MIN_WORD: int := -0x8000_0000_0000_0000

  type Word = x: int | -0x8000_0000_0000_0000 <= x < 0x8000_0000_0000_0000

  predicate InRange(x: int)
  {
    -0x8000_0000_0000_0000 <= x < 0x8000_0000_0000_0000
  }

  function Wrap(x: int): (w: Word)
    ensures InRange(x) ==> w == x
  {
    (x + 0x8000_0000_0000_0000) % 0x1_0000_0000_0000_0000 - 0x8000_0000_0000_0000
  }

  /** A word cut to a uint32_t. */
  function Low32(x: int): (u: nat)
    ensures u < 0x1_0000_0000
  {
    x % 0x1_0000_0000
  }

  function Abs(x: int): nat
  {
    if x < 0 then -x else x
  }

  /** C's `a / b`: towards zero. */
  function Quo(a: int, b: int): int
    requires b != 0
  {
    if (a < 0) == (b < 0) then Abs(a) / Abs(b) else -(Abs(a) / Abs(b))
  }

  /** C's `a % b`: what the quotient towards zero leaves. */
  function Rem(a: int, b: int): int
    requires b != 0
  {
    a - Quo(a, b) * b
  }

  lemma QuoRem(a: int, b: int)
    requires b != 0
    ensures Quo(a, b) * b + Rem(a, b) == a
    ensures Abs(Rem(a, b)) < Abs(b)
    ensures Rem(a, b) == 0 || (Rem(a, b) < 0 <==> a < 0)
    ensures Abs(Quo(a, b)) <= Abs(a)
  {
    DivMod(Abs(a), Abs(b));
    var q := Abs(a) / Abs(b);
    assert Quo(a, b) * b == (if a < 0 then -(q * Abs(b)) else q * Abs(b));
  }

  /** The quotient and the remainder are the only such pair. */
  lemma QuoRemUnique(a: int, b: int, q: int, r: int)
    requires b != 0 && q * b + r == a && Abs(r) < Abs(b) && (r == 0 || (r < 0 <==> a < 0))
    ensures q == Quo(a, b) && r == Rem(a, b)
  {
    QuoRem(a, b);
    var q', r' := Quo(a, b), Rem(a, b);
    MulDifference(q, q', b);
    SmallMultiple(q - q', b, r' - r);
  }

  lemma MulDifference(x: int, y: int, b: int)
    ensures (x - y) * b == x * b - y * b
  {
  }

  lemma SmallMultiple(d: int, b: int, x: int)
    requires d * b == x && Abs(x) < Abs(b)
    ensures d == 0 && x == 0
  {
    AbsMul(d, b);
    if d != 0 {
      MulLeq(1, Abs(d), Abs(b), Abs(b));
    }
  }

  lemma AbsMul(x: int, y: int)
    ensures Abs(x * y) == Abs(x) * Abs(y)
  {
    if x < 0 && y < 0 {
      assert x * y == (-x) * (-y);
    } else if x < 0 {
      assert x * y == -((-x) * y);
      MulLeq(0, -x, 0, y);
    } else if y < 0 {
      assert x * y == -(x * (-y));
      MulLeq(0, x, 0, -y);
    }
  }

  lemma RemOfMultiple(x: int, c: int)
    requires c != 0
    ensures x % c == 0 <==> Rem(x, c) == 0
  {
    hide Quo, Rem;
    QuoRem(x, c);
    var k, r := x / c, x % c;
    assert k * c + r == x;
    if r == 0 {
      QuoRemUnique(x, c, k, 0);
    } else if Rem(x, c) == 0 {
      MulDifference(Quo(x, c), k, c);
      SmallMultiple(Quo(x, c) - k, c, r);
    }
  }

  /** Two numbers leave the same remainder exactly if their difference is a multiple and, unless they are
      multiples themselves, their signs are equal. */
  lemma SameRem(x: int, y: int, c: int)
    requires c != 0
    ensures Rem(x, c) == Rem(y, c) <==> (x - y) % c == 0 && (x % c == 0 || (x < 0) == (y < 0))
  {
    hide Quo, Rem;
    RemOfMultiple(x, c);
    RemOfMultiple(x - y, c);
    if Rem(x - y, c) == 0 {
      MultipleApart(x, y, c);
    } else if Rem(x, c) == Rem(y, c) {
      QuoRem(x, c);
      QuoRem(y, c);
      MulDifference(Quo(x, c), Quo(y, c), c);
      QuoRemUnique(x - y, c, Quo(x, c) - Quo(y, c), 0);
    }
  }

  lemma MultipleApart(x: int, y: int, c: int)
    requires c != 0 && Rem(x - y, c) == 0
    ensures Rem(x, c) == Rem(y, c) <==> Rem(x, c) == 0 || (x < 0) == (y < 0)
  {
    hide Quo, Rem;
    QuoRem(x, c);
    QuoRem(y, c);
    QuoRem(x - y, c);
    var k := Quo(x - y, c);
    AddedTimes(k, Quo(y, c), c);
    MulDifference(Quo(x, c), k, c);
    if (x < 0) == (y < 0) {
      QuoRemUnique(x, c, k + Quo(y, c), Rem(y, c));
    } else if Rem(x, c) == 0 {
      QuoRemUnique(y, c, Quo(x, c) - k, 0);
    }
  }

  lemma AddedTimes(x: int, y: int, b: int)
    ensures (x + y) * b == x * b + y * b
  {
  }

  /** C leaves a quotient undefined by zero and when it leaves the range. */
  predicate DivisionDefined(a: Word, b: Word)
  {
    b != 0 && !(a == MIN_WORD && b == -1)
  }

  /** SDIV: the quotient, with its sign put right where the operands' signs differ and it is not exact. */
  function SDiv(a: Word, b: Word): Word
    requires DivisionDefined(a, b)
  {
    if (a < 0) != (b < 0) && Rem(a, b) != 0
    then Wrap(-Quo(Wrap(-Wrap(a - Rem(a, b))), b))
    else Wrap(Quo(a, b))
  }

  /** SMOD: the remainder, with its sign put right in the same cases. */
  function SMod(a: Word, b: Word): Word
    requires DivisionDefined(a, b)
  {
    if (a < 0) != (b < 0) && Rem(a, b) != 0
    then Wrap(Wrap(Quo(Wrap(-(a as int)), b) * b as int) as int + a as int)
    else Wrap(Rem(a, b))
  }

  lemma QuoOfMultiple(q: int, b: int)
    requires b != 0
    ensures Quo(q * b, b) == q
  {
    QuoRemUnique(q * b, b, q, 0);
  }

  lemma QuoInRange(a: Word, b: Word)
    requires DivisionDefined(a, b)
    ensures InRange(Quo(a, b)) && InRange(Rem(a, b)) && InRange(a - Rem(a, b))
  {
    QuoRem(a, b);
    if a == MIN_WORD && Quo(a, b) == -MIN_WORD {
      assert Abs(Quo(a, b) * b) == Abs(Quo(a, b)) * Abs(b) by { AbsMul(Quo(a, b), b); }
    }
  }

  /** SDIV's correction changes nothing, and nothing in it leaves the range. */
  lemma SDivIsQuo(a: Word, b: Word)
    requires DivisionDefined(a, b)
    ensures SDiv(a, b) == Quo(a, b)
    ensures (a < 0) != (b < 0) && Rem(a, b) != 0 ==> InRange(a - Rem(a, b)) && InRange(-(a - Rem(a, b)))
  {
    hide Quo, Rem;
    var q := Quo(a, b);
    QuoRem(a, b);
    QuoInRange(a, b);
    NegatedTimes(q, b);
    QuoOfMultiple(-q, b);
    hide Wrap;
  }

  lemma NegatedTimes(x: int, y: int)
    ensures -x * y == -(x * y)
  {
  }

  lemma QuoNegated(a: int, b: int)
    requires b != 0
    ensures Quo(-a, b) == -Quo(a, b)
  {
    if a != 0 {
      assert Abs(-a) == Abs(a);
    } else {
      DivMod(0, Abs(b));
      QuoRem(0, b);
    }
  }

  /** SMOD is C's remainder except for the least word, whose negation wraps: there the sign comes out
      wrong for every positive divisor that leaves a remainder. */
  lemma SModIsRem(a: Word, b: Word)
    requires DivisionDefined(a, b)
    ensures SMod(a, b) == Rem(a, b) <==> !(a == MIN_WORD && b > 0 && Rem(a, b) != 0)
    ensures a == MIN_WORD && b > 0 ==> SMod(a, b) == -Rem(a, b)
  {
    hide Quo, Rem, Wrap;
    var q, r := Quo(a, b), Rem(a, b);
    QuoRem(a, b);
    QuoInRange(a, b);
    if (a < 0) != (b < 0) && r != 0 {
      MinusInRange(a);
      QuoNegated(a, b);
      NegatedTimes(q, b);
      Correction(a, q * b, r);
    }
  }

  lemma MinusInRange(a: Word)
    ensures Wrap(-(a as int)) as int == if a == MIN_WORD then a as int else -(a as int)
  {
  }

  lemma Correction(a: Word, p: int, r: int)
    requires p + r == a && r != 0 && (r < 0 <==> a < 0) && InRange(p) && InRange(r) && r != MIN_WORD
    ensures a != MIN_WORD ==> Wrap(Wrap(-p) as int + a as int) == r
    ensures a == MIN_WORD ==> Wrap(Wrap(p) as int + a as int) == -r
  {
  }
}
