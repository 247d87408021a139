/** The instructions as reference_to_implement.txt describes them, on the machine's 64-bit words and with the
    operands in the order in which the code takes them, and exactly when the code does the same. */
module VmReference {
  import opened Positional
  import opened CTypes
  import opened Words
  import opened Vm
  import opened VmBlocks
  import opened VmBits
  import opened Memory
  import Exp
  import Machine

  // ---- PUSH and DUP

  /** PUSHn pushes one value of n bytes. */
  function PushDescribed(code: Code, cap: nat, s: State): Outcome
    requires s.pc < |code| && s.pc + Length(code[s.pc]) <= |code|
  {
    var next := s.pc + Length(code[s.pc]);
    if |s.stack| >= cap then Exited(Overflow)
    else Running(State(next, s.stack + [Wrap(Value(256, code[s.pc + 1..next]))], s.mem))
  }

  /** It does so only for n = 1, or where there is no room for either. */
  lemma PushAsDescribed(code: Code, cap: nat, s: State)
    requires s.pc < |code| && IsPush(code[s.pc]) && s.pc + Length(code[s.pc]) <= |code| && |s.stack| <= cap
    ensures Step(code, cap, s) == PushDescribed(code, cap, s) <==> code[s.pc] == 0x60 || |s.stack| == cap
  {
    Machine.PushStep(code, cap, s);
    hide Step, Wrap;
    if code[s.pc] == 0x60 {
      OneByte(code, s.pc + 1);
    } else {
      assert |s.stack + Data(code, s.pc + 1, code[s.pc] - 0x5f)| > |s.stack| + 1;
    }
  }

  lemma OneByte(code: Code, at: nat)
    requires at < |code|
    ensures Data(code, at, 1) == [Wrap(Value(256, code[at..at + 1]))]
  {
    var byte := code[at..at + 1];
    assert Value(256, byte[..0]) == 0;
    assert Value(256, byte) == code[at];
  }

  /** DUPx clones the xth element. */
  function DupDescribed(code: Code, cap: nat, s: State): Outcome
    requires s.pc < |code| && IsDup(code[s.pc])
  {
    var x := code[s.pc] - 0x7f;
    if |s.stack| < x then Exited(Underflow)
    else if |s.stack| >= cap then Exited(Overflow)
    else Running(State(s.pc + 1, s.stack + [s.stack[|s.stack| - x]], s.mem))
  }

  /** It does so only for x = 1, or where both fail. */
  lemma DupAsDescribed(code: Code, cap: nat, s: State)
    requires s.pc < |code| && IsDup(code[s.pc]) && |s.stack| <= cap
    ensures Step(code, cap, s) == DupDescribed(code, cap, s) <==>
            code[s.pc] == 0x80 || |s.stack| < code[s.pc] - 0x7f || |s.stack| == cap
  {
    DupStep(code, cap, s);
    hide Step;
  }

  // ---- ADDMOD and MULMOD

  /** ADDMOD and MULMOD are to reduce the sum or the product as it is, and reduce what is left of it in a word:
      right exactly if C defines the division and what was lost is a multiple of the modulus, which without a
      remainder is enough, and with one only if the sign was not lost. */
  lemma ModularAsDescribed(op: Byte, a: Word, b: Word, c: Word, mem: Bytes)
    requires (op == 0x08 || op == 0x09) && c != 0
    ensures var x := Machine.SumOrProduct(op, a, b);
      && InRange(Rem(x, c))
      && (Arithmetic(op, [a, b, c], mem) == Next([Rem(x, c)], mem) <==>
          && DivisionDefined(Wrap(x), c)
          && (x - Wrap(x)) % c == 0 && (x % c == 0 || (x < 0) == (Wrap(x) < 0)))
  {
    hide Quo, Rem, Wrap;
    var x := Machine.SumOrProduct(op, a, b);
    QuoRem(x, c);
    SameRem(x, Wrap(x), c);
    if DivisionDefined(Wrap(x), c) {
      QuoInRange(Wrap(x), c);
    }
  }

  /** A sum that leaves the range loses its sign: then it must be a multiple, and so must 2^64. */
  lemma SumModular(a: Word, b: Word, c: Word, mem: Bytes)
    requires c != 0
    ensures var x := a as int + b as int;
      && InRange(Rem(x, c))
      && (Arithmetic(0x08, [a, b, c], mem) == Next([Rem(x, c)], mem) <==>
          if InRange(x) then DivisionDefined(x, c)
          else DivisionDefined(Wrap(x), c) && x % c == 0 && (x - Wrap(x)) % c == 0)
  {
    ModularAsDescribed(0x08, a, b, c, mem);
    var x := a as int + b as int;
    ZeroMod(c);
    hide Rem, Quo, Arithmetic;
  }

  lemma ZeroMod(c: int)
    requires c != 0
    ensures 0 % c == 0
  {
  }

  /** 2^63 leaves 2 on division by 3, and 2^64 leaves 1. */
  lemma ModularFails(mem: Bytes)
    ensures Arithmetic(0x08, [0x7FFF_FFFF_FFFF_FFFF, 1, 3], mem) == Next([-2], mem)
    ensures Rem(0x8000_0000_0000_0000, 3) == 2
    ensures Arithmetic(0x09, [0x1_0000_0000, 0x1_0000_0000, 3], mem) == Next([0], mem)
    ensures Rem(0x1_0000_0000_0000_0000, 3) == 1
  {
    hide Quo, Rem, Wrap;
    HalfTheWords();
    QuoRemUnique(MIN_WORD, 3, -3074457345618258602, -2);
    QuoRemUnique(0x8000_0000_0000_0000, 3, 3074457345618258602, 2);
    QuoRemUnique(0, 3, 0, 0);
    QuoRemUnique(0x1_0000_0000_0000_0000, 3, 6148914691236517205, 1);
  }

  lemma HalfTheWords()
    ensures Wrap(0x8000_0000_0000_0000) == MIN_WORD && Wrap(0x1_0000_0000_0000_0000) == 0
  {
  }

  // ---- SIGNEXTEND

  /** The low `b` + 1 bytes of a word as a signed number; all of it from 7 on, a negative `b` being large. */
  function Extended(x: Word, b: Word): Word
  {
    if 0 <= b < 7 then
      var half := Half(b);
      (x + half) % (2 * half) - half
    else x
  }

  /** Half the numbers of `b` + 1 bytes. */
  function Half(b: nat): (p: int)
    requires b < 7
    ensures 0 < p < 0x8000_0000_0000_0000
  {
    HalfBound(b);
    Pow(2, 8 * b + 7)
  }

  lemma HalfBound(b: nat)
    requires b < 7
    ensures 0 < Pow(2, 8 * b + 7) < 0x8000_0000_0000_0000
  {
    hide Pow;
    TwoTo64();
    Exp.PowOne(2);
    PowAdd(2, 1, 62);
    PowAdd(2, 1, 63);
    PowMonotone(2, 8 * b + 7, 62);
  }

  /** Where what SIGNEXTEND computes is right: it extends a sign nowhere, so where there is none to extend, and,
      with bit 31 of `b` set, where it masks nothing away. */
  predicate NothingToExtend(x: Word, b: Word)
  {
    if Low32(b) >= 0x8000_0000 then 0 <= x < Pow(2, Low32(b) % 32)
    else 0 <= b < 7 ==> -Half(b) <= x < Half(b)
  }

  lemma ExtendsRight(x: Word, b: Word)
    ensures SignExtend(x, Low32(b)) == Extended(x, b) <==> NothingToExtend(x, b)
  {
    hide SignExtend, Half, Pow;
    SignExtendIsMod(x, Low32(b));
    ModIsSame(x, Pow(2, Low32(b) % 32));
    if 0 <= b < 7 {
      ModIsSame(x + Half(b), 2 * Half(b));
    }
  }

  /** And it asks for a third element, which it leaves where it is. */
  lemma SignExtendAsDescribed(code: Code, cap: nat, s: State, rest: seq<Word>, x: Word, b: Word)
    requires s.pc < |code| && code[s.pc] == 0x0b && s.stack == rest + [x, b] && |s.stack| <= cap
    ensures Step(code, cap, s) == Running(State(s.pc + 1, rest + [Extended(x, b)], s.mem)) <==>
            |rest| > 0 && NothingToExtend(x, b)
  {
    hide Step, SignExtend, Extended, NothingToExtend;
    ExtendsRight(x, b);
    Machine.OpcodeFacts(0x0b);
    Machine.UnderflowStep(code, cap, s);
    if |rest| > 0 {
      Machine.ExtendStep(code, cap, s, rest, x, b);
      LastOf(rest, SignExtend(x, Low32(b)));
      LastOf(rest, Extended(x, b));
    }
  }

  lemma LastOf(rest: seq<Word>, x: Word)
    ensures (rest + [x])[|rest|] == x
  {
  }

  lemma ModIsSame(x: int, m: nat)
    requires m > 0
    ensures x % m == x <==> 0 <= x < m
  {
  }

  lemma HalfOfByte()
    ensures Half(0) == 128
  {
    assert Pow(2, 3) == 8 && Pow(2, 4) == 16;
    PowAdd(2, 3, 4);
  }

  /** 255 is -1 in one byte; and a mask of no bits leaves 0. */
  lemma SignExtendFails()
    ensures SignExtend(255, Low32(0)) == 255 && Extended(255, 0) == -1
    ensures SignExtend(-1, Low32(0x8000_0000)) == 0 && Extended(-1, 0x8000_0000) == -1
  {
    hide SignExtend, Half, Pow;
    HalfOfByte();
    SignExtendIsMod(255, 0);
    SignExtendIsMod(-1, 0x8000_0000);
    Exp.PowNothing(2);
  }

  // ---- JUMPI

  /** JUMPI with condition `b` and destination `a`. */
  function JumpIDescribed(code: Code, s: State, rest: seq<Word>, a: Word, b: Word): Outcome
  {
    if b == 0 then Running(State(s.pc + 1, rest, s.mem))
    else if 0 <= a < |code| && code[a] == JUMPDEST then Running(State(a, rest, s.mem))
    else Returned(-1, Early, rest, s.mem)
  }

  /** The condition is cut to 32 bits, which is wrong exactly if that makes it 0, unless the destination is
      the next instruction anyway. */
  lemma JumpIAsDescribed(code: Code, cap: nat, s: State, rest: seq<Word>, a: Word, b: Word)
    requires s.pc < |code| && code[s.pc] == 0x57 && s.stack == rest + [a, b] && |s.stack| <= cap
    ensures Step(code, cap, s) == JumpIDescribed(code, s, rest, a, b) <==>
            b == 0 || Low32(b) != 0 || (a == s.pc + 1 < |code| && code[a] == JUMPDEST)
  {
    Machine.JumpStep(code, cap, s, rest, [a, b]);
    hide Step;
  }

  /** With the condition 2^32 it does not jump. */
  lemma JumpIFails(cap: nat, mem: Bytes)
    requires cap >= 2
    ensures var code: Code, s := [0x57, 0x00, 0x5b], State(0, [2, 0x1_0000_0000], mem);
      && Step(code, cap, s) == Running(State(1, [], mem))
      && JumpIDescribed(code, s, [], 2, 0x1_0000_0000) == Running(State(2, [], mem))
  {
    var code: Code, s := [0x57, 0x00, 0x5b], State(0, [2, 0x1_0000_0000], mem);
    assert s.stack == [] + [2, 0x1_0000_0000];
    Machine.JumpStep(code, cap, s, [], [2, 0x1_0000_0000]);
    hide Step;
  }

  // ---- Comparisons

  /** LT, GT, SLT, SGT and EQ on whole words, LT and GT unsigned; `y` is the operand that the code cuts to
      32 bits: the top one, but for EQ the one below. */
  predicate Compared(op: Byte, x: Word, y: Word)
    requires 0x10 <= op <= 0x14
  {
    if op == 0x10 then Pattern(x) < Pattern(y)
    else if op == 0x11 then Pattern(x) > Pattern(y)
    else if op == 0x12 then x < y
    else if op == 0x13 then x > y
    else x == y
  }

  function CompareOperands(op: Byte, x: Word, y: Word): seq<Word>
  {
    if op == 0x14 then [y, x] else [x, y]
  }

  /** Whether `x` is outside the words between `y` and its low half, and for LT and GT has no sign to mistake. */
  predicate OutsideTheCut(op: Byte, x: Word, y: Word)
    requires 0x10 <= op <= 0x14
  {
    var low := Low32(y);
    if op == 0x10 then if x < 0 then x < y < 0 else !(low <= x < Pattern(y))
    else if op == 0x11 then if x < 0 then x <= y < 0 else !(low < x <= Pattern(y))
    else if op == 0x12 then !(low <= x < y) && !(y <= x < low)
    else if op == 0x13 then !(low < x <= y) && !(y < x <= low)
    else y == low || (x != y && x != low)
  }

  lemma CompareAsDescribed(op: Byte, x: Word, y: Word, mem: Bytes)
    requires 0x10 <= op <= 0x14
    ensures Comparison(op, CompareOperands(op, x, y), mem) == Next([Flag(Compared(op, x, y))], mem) <==>
            OutsideTheCut(op, x, y)
  {
    LowIsLess(y);
  }

  lemma LowIsLess(y: Word)
    ensures Low32(y) <= Pattern(y)
    ensures y < 0 ==> Pattern(y) == y as int + 0x1_0000_0000_0000_0000
    ensures y >= 0 ==> Pattern(y) == y
  {
  }

  /** SLT, SGT and EQ are right against every word exactly if the operand that they cut needs no more than
      32 bits; LT and GT against no such operand, for want of unsigned words. */
  lemma RightAgainstAll(op: Byte, y: Word)
    requires 0x10 <= op <= 0x14
    ensures (forall x: Word :: OutsideTheCut(op, x, y)) <==> op >= 0x12 && 0 <= y < 0x1_0000_0000
  {
    var low: Word := Low32(y);
    LowIsLess(y);
    if op <= 0x11 {
      assert !OutsideTheCut(op, if op == 0x11 && y == -1 then 0x1_0000_0000 else -1, y);
    } else if y < 0 {
      assert !OutsideTheCut(op, if op == 0x13 then low else y, y);
    } else if y > low {
      assert !OutsideTheCut(op, if op == 0x12 then low else y, y);
    }
  }

  lemma ComparisonsFail(mem: Bytes)
    ensures Comparison(0x10, [-1, 0], mem) == Next([1], mem) && !Compared(0x10, -1, 0)
    ensures Comparison(0x11, [-1, 0], mem) == Next([0], mem) && Compared(0x11, -1, 0)
    ensures Comparison(0x12, [0, 0x1_0000_0000], mem) == Next([0], mem) && Compared(0x12, 0, 0x1_0000_0000)
    ensures Comparison(0x13, [0, -1], mem) == Next([0], mem) && Compared(0x13, 0, -1)
    ensures Comparison(0x14, [0x1_0000_0000, 0], mem) == Next([1], mem) && !Compared(0x14, 0, 0x1_0000_0000)
  {
  }

  // ---- AND, OR and XOR

  /** Whether the bits of `r` are those of `x` and `y` combined. */
  ghost predicate Combined(kind: BitKind, x: Word, y: Word, r: Word)
  {
    forall k: nat :: k < 64 ==> Bit(Pattern(r), k) == Combine(kind, Bit(Pattern(x), k), Bit(Pattern(y), k))
  }

  /** Whether the bits of `y` from 32 on make no difference. */
  ghost predicate HighBitsIdle(kind: BitKind, x: Word, y: Word)
  {
    forall k: nat :: 32 <= k < 64 && Bit(Pattern(y), k) ==>
      match kind
      case And => !Bit(Pattern(x), k)
      case Or => Bit(Pattern(x), k)
      case Xor => false
  }

  /** AND is right exactly if the words have no bit from 32 on in common, OR if those of the second are in the
      first too, XOR if the second has none. */
  lemma LogicAsDescribed(op: Byte, y: Word, x: Word, mem: Bytes)
    requires 0x16 <= op <= 0x18
    ensures var act := Comparison(op, [y, x], mem);
      && act.Next? && |act.pushes| == 1
      && (Combined(KindOf(op), x, y, act.pushes[0]) <==> HighBitsIdle(KindOf(op), x, y))
  {
    LogicIsCombination(op, [y, x], mem);
    hide Comparison, Bit, Pattern, KindOf;
    var kind, r := KindOf(op), Comparison(op, [y, x], mem).pushes[0];
    if Combined(kind, x, y, r) {
      forall k: nat | 32 <= k < 64 && Bit(Pattern(y), k)
        ensures match kind case And => !Bit(Pattern(x), k) case Or => Bit(Pattern(x), k) case Xor => false
      {
        assert Combine(kind, Bit(Pattern(x), k), Bit(Pattern(y), k)) == Combine(kind, Bit(Pattern(x), k), false);
      }
    } else {
      var k: nat :| k < 64 && Bit(Pattern(r), k) != Combine(kind, Bit(Pattern(x), k), Bit(Pattern(y), k));
    }
  }

  // ---- BYTE and the shifts

  /** Byte `i` of a word, from the left; beyond its eight bytes there is none. */
  function ByteFromLeft(a: Word, i: nat): Word
  {
    if i < 8 then ByteFromRight(a, 7 - i) else 0
  }

  function ByteFromRight(a: Word, i: nat): Word
    requires i < 8
  {
    ShiftRight(a, 8 * i) % 256
  }

  /** What BYTE, SHL, SHR and SAR push for a word and a number of places, which is unsigned. */
  function ShiftDescribed(op: Byte, a: Word, places: nat): Word
    requires 0x1a <= op <= 0x1d
  {
    if op == 0x1a then ByteFromLeft(a, places)
    else if op == 0x1b then Wrap(a * Pow(2, places))
    else if op == 0x1c then Wrap(Drop(Pattern(a), places))
    else Wrap(ShiftRight(a, places))
  }

  /** Where the code agrees: it counts bytes from the right, SHR keeps the sign, SAR gives the least word beyond
      63 places, and only the low 32 bits `c` of the number of places count. */
  predicate ShiftAgrees(op: Byte, a: Word, b: Word)
    requires 0x1a <= op <= 0x1d
  {
    var c := Low32(b);
    if op == 0x1a then
      c < 8 && ByteFromRight(a, c) == if b == c then ByteFromRight(a, 7 - c) else 0
    else if op == 0x1b then
      c > 255 || (c <= 63 && (b == c || EndsInZeros(a, 64 - c)))
    else if op == 0x1c then
      c > 255 || (c <= 63 && if b == c then a >= 0 || c == 0 else 0 <= a < Pow(2, c))
    else if b == c then c <= 63 || a >= 0
    else if c > 63 then a >= 0
    else -Pow(2, c) <= a < Pow(2, c)
  }

  predicate EndsInZeros(a: Word, n: nat)
  {
    PowPositive(2, n);
    a as int % Pow(2, n) == 0
  }

  lemma ShiftsAsDescribed(op: Byte, a: Word, b: Word, mem: Bytes)
    requires 0x1a <= op <= 0x1d
    ensures Comparison(op, [a, b], mem) == Next([ShiftDescribed(op, a, Pattern(b))], mem) <==> ShiftAgrees(op, a, b)
  {
    hide Shifts, ShiftDescribed, ShiftAgrees;
    assert Comparison(op, [a, b], mem) == Shifts(op, a, Low32(b), mem);
    if op == 0x1a {
      ByteAgrees(a, b, mem);
    } else if op == 0x1b {
      ShlAgrees(a, b, mem);
    } else if op == 0x1c {
      ShrAgrees(a, b, mem);
    } else {
      SarAgrees(a, b, mem);
    }
  }

  predicate ShiftsRight(op: Byte, a: Word, b: Word, mem: Bytes)
    requires 0x1a <= op <= 0x1d
  {
    Shifts(op, a, Low32(b), mem) == Next([ShiftDescribed(op, a, Pattern(b))], mem)
  }

  lemma ByteAgrees(a: Word, b: Word, mem: Bytes)
    ensures ShiftsRight(0x1a, a, b, mem) <==> ShiftAgrees(0x1a, a, b)
  {
    hide ShiftRight;
    LowIsLess(b);
  }

  lemma ShlAgrees(a: Word, b: Word, mem: Bytes)
    ensures ShiftsRight(0x1b, a, b, mem) <==> ShiftAgrees(0x1b, a, b)
  {
    hide Pow, Wrap, EndsInZeros;
    LowIsLess(b);
    if Pattern(b) >= 64 {
      AllPushedOut(a, Pattern(b));
    }
    if Low32(b) <= 63 {
      PushedOut(a, Low32(b));
    }
  }

  lemma ShrAgrees(a: Word, b: Word, mem: Bytes)
    ensures ShiftsRight(0x1c, a, b, mem) <==> ShiftAgrees(0x1c, a, b)
  {
    hide Pow, Wrap, ShiftRight, Drop;
    LowIsLess(b);
    TwoTo64();
    ShrIsLogical(a, Low32(b), mem);
    if Pattern(b) >= 64 {
      NothingLeft(Pattern(a), Pattern(b));
    }
    if Low32(b) <= 63 {
      ShiftedOut(a, Low32(b));
      ShiftRightRange(a, Low32(b));
    }
  }

  lemma SarAgrees(a: Word, b: Word, mem: Bytes)
    ensures ShiftsRight(0x1d, a, b, mem) <==> ShiftAgrees(0x1d, a, b)
  {
    hide Pow, Wrap, ShiftRight;
    LowIsLess(b);
    ShiftRightRange(a, Pattern(b));
    if Pattern(b) >= 63 {
      ShiftRightAll(a, Pattern(b));
    }
    if Low32(b) <= 63 {
      ShiftedOut(a, Low32(b));
      ShiftRightRange(a, Low32(b));
    }
  }

  /** The lowest byte of 1 in place of its highest. */
  lemma ByteFails(mem: Bytes)
    ensures Comparison(0x1a, [1, 0], mem) == Next([1], mem) && ShiftDescribed(0x1a, 1, 0) == 0
  {
    hide ShiftRight, Pow;
    ShiftRightNothing(1);
    SmallByte(1, 7);
  }

  /** No meaning where the one bit is to fall off. */
  lemma ShlFails(mem: Bytes)
    ensures Comparison(0x1b, [1, 64], mem) == Undefined && ShiftDescribed(0x1b, 1, 64) == 0
  {
    hide Pow, Wrap;
    AllPushedOut(1, 64);
  }

  /** The sign kept. */
  lemma ShrFails(mem: Bytes)
    ensures Comparison(0x1c, [-1, 1], mem) != Next([ShiftDescribed(0x1c, -1, 1)], mem)
  {
    hide Comparison, ShiftDescribed;
    ShiftsAsDescribed(0x1c, -1, 1, mem);
  }

  /** The number of places cut to 0, which harms the least word and does not harm -1. */
  lemma SarFails(mem: Bytes)
    ensures Comparison(0x1d, [MIN_WORD, 0x1_0000_0000], mem) == Next([MIN_WORD], mem)
    ensures Comparison(0x1d, [-1, 0x1_0000_0000], mem) == Next([-1], mem)
    ensures ShiftDescribed(0x1d, MIN_WORD, 0x1_0000_0000) == ShiftDescribed(0x1d, -1, 0x1_0000_0000) == -1
  {
    hide ShiftRight, Wrap;
    ShiftRightNothing(MIN_WORD);
    ShiftRightNothing(-1);
    ShiftRightAll(MIN_WORD, 0x1_0000_0000);
    ShiftRightAll(-1, 0x1_0000_0000);
  }

  lemma ShiftRightNothing(a: Word)
    ensures ShiftRight(a, 0) == a
  {
  }

  lemma SmallByte(a: Word, i: nat)
    requires 0 <= a < 256 && 0 < i < 8
    ensures ByteFromRight(a, i) == 0
  {
    PowMonotone(2, 8, 8 * i);
    assert Pow(2, 8) == 256;
    ShiftedOut(a, 8 * i);
  }

  lemma AllPushedOut(a: Word, n: nat)
    requires n >= 64
    ensures Wrap(a as int * Pow(2, n)) == 0
  {
    hide Pow, Wrap;
    TwoTo64();
    PowAdd(2, 64, n - 64);
    PowPositive(2, n - 64);
    WrapIsZero(a as int * Pow(2, n));
    var p := Pow(2, n - 64);
    assert a as int * Pow(2, n) == (a as int * p) * 0x1_0000_0000_0000_0000;
    EuclideanUnique(a as int * Pow(2, n), 0x1_0000_0000_0000_0000, a as int * p, 0);
  }

  /** A right shift leaves 0 or -1 of the words within 2 to the number of places. */
  lemma ShiftedOut(a: Word, c: nat)
    requires c <= 63
    ensures ShiftRight(a, c) == 0 <==> 0 <= a < Pow(2, c)
    ensures ShiftRight(a, c) == -1 <==> -Pow(2, c) <= a < 0
  {
    var q := ShiftRight(a, c);
    ShiftRightIsFloor(a, c);
    ShiftRightRange(a, c);
    PowPositive(2, c);
    if q > 0 {
      MulLeq(1, q, Pow(2, c), Pow(2, c));
    } else if q < -1 {
      MulLeq(1, -(q + 1), Pow(2, c), Pow(2, c));
    }
  }

  /** A left shift leaves 0 of the words that end in as many zeros as bits stay. */
  lemma PushedOut(a: Word, c: nat)
    requires c <= 63
    ensures Wrap(a as int * Pow(2, c)) == 0 <==> EndsInZeros(a, 64 - c)
  {
    hide Pow, Wrap;
    var p, m := Pow(2, c), Pow(2, 64 - c);
    PowPositive(2, c);
    PowPositive(2, 64 - c);
    PowAdd(2, c, 64 - c);
    TwoTo64();
    WrapIsZero(a as int * p);
    ScaledMod(a, p, m);
    if a as int % m > 0 {
      MulLeq(1, a as int % m, p, p);
    }
  }

  lemma ScaledMod(a: int, p: int, m: int)
    requires p > 0 && m > 0
    ensures p * m > 0 && a * p % (p * m) == a % m * p
  {
    var q, r := a / m, a % m;
    MulLeq(1, p, 1, m);
    MulLeq(r, m - 1, p, p);
    MulLeq(0, r, p, p);
    Spread(q, m, r, p);
    assert q * m + r == a;
    EuclideanUnique(a * p, p * m, q, r * p);
  }

  lemma Spread(q: int, m: int, r: int, p: int)
    ensures (q * m + r) * p == q * (p * m) + r * p
    ensures (m - 1) * p == p * m - p
  {
    MulAssociative(q, m, p);
    assert m * p == p * m;
    assert (q * m + r) * p == q * m * p + r * p;
  }

  lemma WrapIsZero(x: int)
    ensures Wrap(x) == 0 <==> x % 0x1_0000_0000_0000_0000 == 0
  {
  }
}
