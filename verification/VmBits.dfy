/** What the bit opcodes leave on the stack, bit by bit. */
module VmBits {
  import opened Positional
  import opened CTypes
  import opened Words
  import opened Vm
  import opened Memory
  import Exp

  lemma {:induction false} BitwiseBits(kind: BitKind, x: nat, y: nat, n: nat, k: nat)
    ensures Bit(Bitwise(kind, x, y, n), k) == (k < n && Combine(kind, Bit(x, k), Bit(y, k)))
    decreases n, k
  {
    if n == 0 {
      NoBits(k);
    } else if k > 0 {
      BitwiseBits(kind, x / 2, y / 2, n - 1, k - 1);
    }
  }

  lemma {:induction false} NoBits(k: nat)
    ensures !Bit(0, k)
  {
    if k > 0 {
      NoBits(k - 1);
    }
  }

  lemma {:induction false} BitwiseBound(kind: BitKind, x: nat, y: nat, n: nat)
    ensures Bitwise(kind, x, y, n) < Pow(2, n)
  {
    if n > 0 {
      BitwiseBound(kind, x / 2, y / 2, n - 1);
    }
  }

  lemma TwoTo64()
    ensures Pow(2, 64) == 0x1_0000_0000_0000_0000
  {
    assert Pow(2, 8) == 256;
    PowAdd(2, 8, 8);
    PowAdd(2, 16, 16);
    PowAdd(2, 32, 32);
  }

  lemma PatternOfWrap(x: nat)
    requires x < 0x1_0000_0000_0000_0000
    ensures Pattern(Wrap(x)) == x
  {
  }

  /** Cutting a word to 32 bits clears the others. */
  lemma Low32Bits(a: int, k: nat)
    ensures Bit(Low32(a), k) == (k < 32 && Bit(Pattern(a), k))
  {
    var p := Pattern(a);
    assert Low32(a) == p % 0x1_0000_0000;
    TwoTo32();
    LowIsMod(p, 32);
    LowBits(p, 32, k);
  }

  lemma TwoTo32()
    ensures Pow(2, 32) == 0x1_0000_0000
  {
    assert Pow(2, 8) == 256;
    PowAdd(2, 8, 8);
    PowAdd(2, 16, 16);
  }

  function KindOf(op: Byte): BitKind
  {
    if op == 0x16 then And else if op == 0x17 then Or else Xor
  }

  /** AND, OR and XOR combine the top element with the low 32 bits of the second: the bits above are
      combined with zeros. */
  lemma LogicBits(op: Byte, args: seq<Word>, mem: Bytes, k: nat)
    requires 0x16 <= op <= 0x18 && |args| == Need(op) && k < 64
    ensures var act := Comparison(op, args, mem);
      && act.Next? && act.mem == mem && |act.pushes| == 1
      && Bit(Pattern(act.pushes[0]), k) ==
         Combine(KindOf(op), Bit(Pattern(args[1]), k), k < 32 && Bit(Pattern(args[0]), k))
  {
    var x, y := Pattern(args[1]), Low32(args[0]);
    hide Wrap, Bit, Pattern, Bitwise, Low32;
    BitwiseBits(KindOf(op), x, y, 64, k);
    BitwiseBound(KindOf(op), x, y, 64);
    TwoTo64();
    PatternOfWrap(Bitwise(KindOf(op), x, y, 64));
    Low32Bits(args[0], k);
  }

  /** Whether the bits of `r` are those of `x` combined with the low 32 of `y`, the bits above with zeros. */
  ghost predicate IsCombination(kind: BitKind, x: Word, y: Word, r: Word)
  {
    forall k: nat :: k < 64 ==>
      Bit(Pattern(r), k) == Combine(kind, Bit(Pattern(x), k), k < 32 && Bit(Pattern(y), k))
  }

  lemma LogicIsCombination(op: Byte, args: seq<Word>, mem: Bytes)
    requires 0x16 <= op <= 0x18 && |args| == Need(op)
    ensures var act := Comparison(op, args, mem);
      act.Next? && |act.pushes| == 1 && IsCombination(KindOf(op), args[1], args[0], act.pushes[0])
  {
    LogicBits(op, args, mem, 0);
    hide Comparison, Bit, Pattern, Combine, KindOf;
    forall k: nat | k < 64
      ensures var act := Comparison(op, args, mem);
        Bit(Pattern(act.pushes[0]), k) ==
        Combine(KindOf(op), Bit(Pattern(args[1]), k), k < 32 && Bit(Pattern(args[0]), k))
    {
      LogicBits(op, args, mem, k);
    }
  }

  lemma {:induction false} ComplementBits(x: nat, n: nat, k: nat)
    requires x < Pow(2, n) && k < n
    ensures Bit(Pow(2, n) - 1 - x, k) == !Bit(x, k)
    decreases k
  {
    var p := Pow(2, n - 1);
    assert (2 * p - 1 - x) / 2 == p - 1 - x / 2;
    if k > 0 {
      ComplementBits(x / 2, n - 1, k - 1);
    }
  }

  /** NOT turns every bit over. */
  lemma NotBits(args: seq<Word>, mem: Bytes, k: nat)
    requires |args| == 1 && k < 64
    ensures var act := Comparison(0x19, args, mem);
      act.Next? && |act.pushes| == 1 && Bit(Pattern(act.pushes[0]), k) == !Bit(Pattern(args[0]), k)
  {
    TwoTo64();
    hide Bit, Pow;
    ComplementBits(Pattern(args[0]), 64, k);
    assert Pattern(Wrap(-(args[0] as int) - 1)) == 0xFFFF_FFFF_FFFF_FFFF - Pattern(args[0]);
  }

  /** A right shift divides by a power of two and rounds down, whatever the sign. */
  lemma {:induction false} ShiftRightIsFloor(a: int, n: nat)
    ensures ShiftRight(a, n) * Pow(2, n) <= a < (ShiftRight(a, n) + 1) * Pow(2, n)
    decreases n
  {
    if n > 0 {
      var q, p := ShiftRight(a / 2, n - 1), Pow(2, n - 1);
      ShiftRightIsFloor(a / 2, n - 1);
      Doubled(q, p);
      Doubled(q + 1, p);
    }
  }

  lemma Doubled(q: int, p: int)
    ensures q * (2 * p) == 2 * (q * p)
  {
  }

  /** Whether `q` is `a` divided by 2 to the `n`, rounded down. */
  ghost predicate IsFloor(q: int, a: int, n: nat)
  {
    q * Pow(2, n) <= a < (q + 1) * Pow(2, n)
  }

  /** Whether `byte` is the byte that `n` places to the right stands last. */
  ghost predicate IsByteAt(byte: int, a: int, n: nat)
  {
    0 <= byte < 256 && exists q :: IsFloor(256 * q + byte, a, n)
  }

  /** What BYTE and the shifts push, up to the numbers of places that C defines. */
  lemma ShiftsMean(op: Byte, a: Word, b: nat, mem: Bytes)
    requires 0x1a <= op <= 0x1d && b <= (if op == 0x1a then 7 else 63)
    ensures var act := Shifts(op, a, b, mem);
      && act.Next? && |act.pushes| == 1
      && (op == 0x1a ==> IsByteAt(act.pushes[0], a, 8 * b))
      && (op == 0x1b ==> Exp.Congruent(act.pushes[0], a as int * Pow(2, b)))
      && (op >= 0x1c ==> IsFloor(act.pushes[0], a, b))
  {
    hide Pow, Wrap, ShiftRight;
    if op == 0x1a {
      var q := ShiftRight(a, 8 * b);
      ShiftRightIsFloor(a, 8 * b);
      assert q == 256 * (q / 256) + q % 256;
      assert IsFloor(256 * (q / 256) + q % 256, a, 8 * b);
    } else if op == 0x1b {
      Exp.WrapCongruent(a as int * Pow(2, b));
    } else {
      ShiftRightIsFloor(a, b);
      ShiftRightRange(a, b);
    }
  }

  lemma ShiftRightAll(a: Word, n: nat)
    requires n >= 63
    ensures ShiftRight(a, n) == if a < 0 then -1 else 0
  {
    ShiftRightIsFloor(a, n);
    TwoTo64();
    assert Pow(2, 64) == 2 * Pow(2, 63);
    PowMonotone(2, 63, n);
    QuotientSign(ShiftRight(a, n), Pow(2, n), a);
  }

  lemma QuotientSign(q: int, p: int, a: int)
    requires p > 0 && -p <= a < p && q * p <= a < (q + 1) * p
    ensures q == if a < 0 then -1 else 0
  {
    if q > 0 {
      MulLeq(1, q, p, p);
    } else if q < -1 {
      MulLeq(1, -(q + 1), p, p);
    } else {
      assert 0 * p == 0 && -1 * p == -p;
    }
  }

  lemma {:induction false} ShiftRightRange(a: int, n: nat)
    ensures if a < 0 then a <= ShiftRight(a, n) < 0 else 0 <= ShiftRight(a, n) <= a
    decreases n
  {
    if n > 0 {
      ShiftRightRange(a / 2, n - 1);
    }
  }

  /** SAR is the arithmetic shift it is said to be exactly up to 63 places or for words that are not
      negative: beyond, it gives the least word and not -1. */
  lemma SarIsShift(a: Word, b: nat, mem: Bytes)
    ensures var act := Shifts(0x1d, a, b, mem);
      act.Next? && |act.pushes| == 1 && (act.pushes[0] == ShiftRight(a, b) <==> b <= 63 || a >= 0)
  {
    ShiftRightRange(a, b);
    if b > 63 {
      ShiftRightAll(a, b);
    }
    hide ShiftRight;
  }

  /** SHR is said to be the logical shift; it is, exactly for words that are not negative, for the shift by
      nothing and beyond 255 places. From 64 to 255 places C says nothing. */
  lemma ShrIsLogical(a: Word, b: nat, mem: Bytes)
    ensures Shifts(0x1c, a, b, mem) == Next([Wrap(Drop(Pattern(a), b))], mem) <==>
            b > 255 || (b <= 63 && (a >= 0 || b == 0))
    ensures Shifts(0x1c, a, b, mem).Undefined? <==> 64 <= b <= 255
  {
    hide ShiftRight, Drop;
    ShiftRightRange(a, b);
    if b > 255 {
      TwoTo64();
      NothingLeft(Pattern(a), b);
    } else if a >= 0 {
      DropIsShift(a, b);
    } else if b > 0 {
      DropShrinks(Pattern(a), b);
    } else {
      ShiftByNothing(a);
    }
  }

  lemma NothingLeft(x: nat, n: nat)
    requires x < Pow(2, 64) && n >= 64
    ensures Drop(x, n) == 0
  {
    DropIsShift(x, n);
    ShiftRightIsFloor(x, n);
    PowMonotone(2, 64, n);
    QuotientSign(ShiftRight(x, n), Pow(2, n), x);
  }

  lemma ShiftByNothing(a: Word)
    ensures ShiftRight(a, 0) == a && Wrap(Drop(Pattern(a), 0)) == a
  {
  }

  lemma {:induction false} DropIsShift(x: nat, n: nat)
    ensures Drop(x, n) == ShiftRight(x, n)
    decreases n
  {
    if n > 0 {
      DropIsShift(x / 2, n - 1);
    }
  }

  lemma {:induction false} DropShrinks(x: nat, n: nat)
    requires n > 0
    ensures Drop(x, n) <= x / 2
    decreases n
  {
    if n > 1 {
      DropShrinks(x / 2, n - 1);
    }
  }

  /** SIGNEXTEND extends no sign: with bit 31 of `b` set it is `a` modulo 2 to the low five bits of `b`. */
  lemma SignExtendIsMod(a: Word, b: nat)
    requires b < 0x1_0000_0000
    ensures 0 < Pow(2, b % 32)
    ensures SignExtend(a, b) == if b >= 0x8000_0000 then a as int % Pow(2, b % 32) else a
  {
    var n := b % 32;
    LowIsMod(Low32(a), n);
    LowBelow(Low32(a), n);
    TwoTo32();
    PowAdd(2, n, 32 - n);
    PowPositive(2, 32 - n);
    ModOfMultiple(a, Pow(2, n), Pow(2, 32 - n));
  }

  lemma {:induction false} LowBelow(x: nat, n: nat)
    ensures Low(x, n) <= x
    decreases n
  {
    if n > 0 {
      LowBelow(x / 2, n - 1);
    }
  }

  lemma ModOfMultiple(a: int, m: nat, n: nat)
    requires m > 0 && n > 0
    ensures m * n > 0 && a % (m * n) % m == a % m
  {
    MulLeq(1, m, 1, n);
    var q, r := a / (m * n), a % (m * n);
    DivMod(r, m);
    Regroup(q, m, n, r / m, r % m);
    EuclideanUnique(a, m, q * n + r / m, r % m);
  }

  lemma Regroup(q: int, m: int, n: int, r: int, t: int)
    ensures q * (m * n) + (r * m + t) == (q * n + r) * m + t
  {
    MulAssociative(q, n, m);
  }

  lemma EuclideanUnique(a: int, m: nat, q: int, r: int)
    requires m > 0 && a == q * m + r && 0 <= r < m
    ensures a % m == r
  {
    assert a == a / m * m + a % m;
    LastDigit(m, q, r, a / m, a % m);
  }
}
