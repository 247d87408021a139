/** The list of instructions names operands from the top of the stack down. For some instructions the code takes
    them the other way round; here is exactly when it does what the list says all the same. The top element is
    `t` and the one below it `u`. */
module VmOrder {
  import opened Positional
  import opened CTypes
  import opened Words
  import opened Vm
  import opened VmReference
  import opened Memory
  import Exp
  import Machine
  import VmBits

  // ---- SUB

  lemma SubInListOrder(t: Word, u: Word, mem: Bytes)
    ensures Arithmetic(0x03, [u, t], mem) == Next([Wrap(t - u)], mem) <==> (t - u) % 0x8000_0000_0000_0000 == 0
  {
  }

  // ---- SDIV and SMOD

  lemma SmallerQuo(x: int, y: int)
    requires Abs(x) < Abs(y)
    ensures Quo(x, y) == 0 && Rem(x, y) == x
  {
    QuoRemUnique(x, y, 0, x);
  }

  lemma LargerQuo(x: int, y: int)
    requires 0 < Abs(y) <= Abs(x)
    ensures Quo(x, y) != 0 && Abs(Rem(x, y)) < Abs(y)
  {
    hide Quo, Rem;
    QuoRem(x, y);
  }

  lemma EqualQuo(x: int, y: int)
    requires 0 < Abs(y) == Abs(x)
    ensures Quo(x, y) == (if x == y then 1 else -1) && Rem(x, y) == 0
  {
    QuoRemUnique(x, y, if x == y then 1 else -1, 0);
  }

  /** Between numbers other than 0 the order of a division or a remainder matters unless they are equal but for
      their signs. */
  lemma QuoOrder(x: int, y: int)
    requires x != 0 && y != 0
    ensures Quo(x, y) == Quo(y, x) <==> Abs(x) == Abs(y)
    ensures Rem(x, y) == Rem(y, x) <==> Abs(x) == Abs(y)
    ensures Abs(Rem(x, y)) == Abs(Rem(y, x)) <==> Abs(x) == Abs(y)
  {
    hide Quo, Rem;
    if Abs(x) < Abs(y) {
      SmallerQuo(x, y);
      LargerQuo(y, x);
    } else if Abs(x) > Abs(y) {
      SmallerQuo(y, x);
      LargerQuo(x, y);
    } else {
      EqualQuo(x, y);
      EqualQuo(y, x);
    }
  }

  lemma WrapKeepsZero(x: int)
    requires Abs(x) <= 0x8000_0000_0000_0000
    ensures Wrap(x) == 0 <==> x == 0
    ensures !InRange(x) ==> Wrap(x) == MIN_WORD
  {
  }

  lemma SdivInListOrder(t: Word, u: Word, mem: Bytes)
    requires u != 0
    ensures Arithmetic(0x05, [u, t], mem) == Next([Wrap(Quo(t, u))], mem) <==> Abs(t) == Abs(u)
  {
    hide Quo, Rem, Wrap, SDiv;
    QuoRem(t, u);
    WrapKeepsZero(Quo(t, u));
    if DivisionDefined(u, t) {
      Machine.DivisionMeans(0x05, u, t, mem);
      QuoOrder(t, u);
      if Abs(t) < Abs(u) { SmallerQuo(t, u); }
      if Abs(u) < Abs(t) { SmallerQuo(u, t); }
    }
  }

  lemma SmodInListOrder(t: Word, u: Word, mem: Bytes)
    requires u != 0
    ensures InRange(Rem(t, u))
    ensures Arithmetic(0x07, [u, t], mem) == Next([Rem(t, u)], mem) <==> Abs(t) == Abs(u)
  {
    hide Quo, Rem, Wrap, SMod;
    QuoRem(t, u);
    if DivisionDefined(u, t) {
      Machine.DivisionMeans(0x07, u, t, mem);
      QuoOrder(t, u);
    }
  }

  // ---- DIV and MOD, which the list has unsigned

  lemma UnsignedQuo(x: nat, y: nat)
    requires y > 0
    ensures x < y ==> x / y == 0 && x % y == x
    ensures y <= x ==> 0 < x / y
    ensures y <= x < 2 * y ==> x / y == 1 && x % y == x - y
    ensures y >= 2 ==> x / y <= x / 2
  {
    DivMod(x, y);
    if x < y {
      LastDigit(y, x / y, x % y, 0, x);
    } else if x < 2 * y {
      LastDigit(y, x / y, x % y, 1, x - y);
    }
    if y >= 2 {
      MulLeq(x / y, x / y, 2, y);
    }
  }

  lemma QuoOfPositive(x: nat, y: nat)
    requires y > 0
    ensures Quo(x, y) == x / y && Rem(x, y) == x % y
  {
    DivMod(x, y);
    QuoRemUnique(x, y, x / y, x % y);
  }

  lemma QuoSign(x: int, y: int)
    requires y != 0
    ensures (x < 0) == (y < 0) ==> Quo(x, y) >= 0
    ensures (x < 0) != (y < 0) ==> Quo(x, y) <= 0
  {
    DivMod(Abs(x), Abs(y));
  }

  /** Where the unsigned quotient of `t` by `u` is the signed one of `u` by `t`. */
  predicate DivAgrees(t: Word, u: Word)
  {
    || t == u != 0
    || (t < 0 && u < 0 && Abs(u) < 2 * Abs(t))
    || (t == -1 && u == 1)
    || (u < 0 < t && Abs(u) < t)
  }

  lemma DivInListOrder(t: Word, u: Word, mem: Bytes)
    requires u != 0
    ensures Arithmetic(0x04, [u, t], mem) == Next([Wrap(Pattern(t) / Pattern(u))], mem) <==> DivAgrees(t, u)
  {
    hide Quo, Rem, Wrap, SDiv;
    LowIsLess(t);
    LowIsLess(u);
    if DivisionDefined(u, t) {
      Machine.DivisionMeans(0x04, u, t, mem);
      UnsignedAgrees(t, u);
    }
  }

  lemma UnsignedAgrees(t: Word, u: Word)
    requires u != 0 && DivisionDefined(u, t)
    ensures Wrap(Pattern(t) / Pattern(u)) == Quo(u, t) <==> DivAgrees(t, u)
  {
    hide Quo, Wrap, Pattern;
    LowIsLess(t);
    LowIsLess(u);
    QuoSign(u, t);
    if t > 0 && u > 0 {
      QuoOfPositive(t, u);
      QuoInRange(t, u);
      QuoOrder(t, u);
    } else if t > 0 {
      UnsignedQuo(t, Pattern(u));
      if Abs(u) < t { SmallerQuo(u, t); } else { LargerQuo(u, t); }
    } else if u > 0 {
      UnsignedQuo(Pattern(t), u);
      if u == 1 {
        OneOverNegative(t);
      }
    } else {
      NegativeDiv(t, u);
    }
  }

  lemma OneOverNegative(t: Word)
    requires t < 0
    ensures Pattern(t) / 1 == Pattern(t) && Wrap(Pattern(t)) == t
    ensures Quo(1, t) == if t == -1 then -1 else 0
  {
    if t == -1 { EqualQuo(1, t); } else { SmallerQuo(1, t); }
  }

  lemma NegativeDiv(t: Word, u: Word)
    requires t < 0 && u < 0
    ensures Wrap(Pattern(t) / Pattern(u)) == Quo(u, t) <==> Abs(u) < 2 * Abs(t)
  {
    hide Wrap, Pattern;
    LowIsLess(t);
    LowIsLess(u);
    UnsignedQuo(Pattern(t), Pattern(u));
    UnsignedQuo(Abs(u), Abs(t));
    if Abs(u) >= 2 * Abs(t) {
      DivMod(Abs(u), Abs(t));
      MulLeq(0, Abs(u) / Abs(t), Abs(t), Abs(t));
    }
  }

  lemma ModInListOrder(t: Word, u: Word, mem: Bytes)
    requires u != 0
    ensures Arithmetic(0x06, [u, t], mem) == Next([Wrap(Pattern(t) % Pattern(u))], mem) <==>
            t == u || (t < 0 < u && Pattern(t) % (u as int) == u as int % Abs(t))
  {
    hide Quo, Rem, Wrap, SMod;
    LowIsLess(t);
    LowIsLess(u);
    if DivisionDefined(u, t) {
      Machine.DivisionMeans(0x06, u, t, mem);
      UnsignedRemAgrees(t, u);
    }
  }

  lemma UnsignedRemAgrees(t: Word, u: Word)
    requires u != 0 && DivisionDefined(u, t)
    ensures Wrap(Pattern(t) % Pattern(u)) == Rem(u, t) <==>
            t == u || (t < 0 < u && Pattern(t) % (u as int) == u as int % Abs(t))
  {
    hide Quo, Rem, Wrap, Pattern;
    LowIsLess(t);
    LowIsLess(u);
    QuoRem(u, t);
    if t > 0 && u > 0 {
      QuoOfPositive(t, u);
      QuoInRange(t, u);
      QuoOrder(t, u);
    } else if t > 0 {
      UnsignedQuo(t, Pattern(u));
    } else if u > 0 {
      DivMod(Pattern(t), u);
      RemByNegative(u, t);
    } else {
      UnsignedQuo(Pattern(t), Pattern(u));
      WrapOfNegative(t);
      if Abs(u) < Abs(t) { SmallerQuo(u, t); } else if t == u { EqualQuo(u, t); }
    }
  }

  lemma WrapOfNegative(t: Word)
    requires t < 0
    ensures Wrap(Pattern(t)) == t
  {
  }

  lemma RemByNegative(x: nat, y: int)
    requires y < 0
    ensures Rem(x, y) == x % Abs(y)
  {
    DivMod(x, Abs(y));
    NegatedTimes(x / Abs(y), Abs(y));
    QuoRemUnique(x, y, -(x / Abs(y)), x % Abs(y));
  }

  // ---- ADDMOD and MULMOD: the modulus is the lowest of the three, and the code takes the top

  lemma ModularInListOrder(op: Byte, t: Word, u: Word, w: Word, mem: Bytes)
    requires (op == 0x08 || op == 0x09) && w != 0
    ensures var x, y := Machine.SumOrProduct(op, t, u), Wrap(Machine.SumOrProduct(op, w, u));
      && InRange(Rem(x, w))
      && (Arithmetic(op, [w, u, t], mem) == Next([Rem(x, w)], mem) <==>
          DivisionDefined(y, t) && Rem(y, t) == Rem(x, w))
  {
    hide Quo, Rem, Wrap;
    var x, y := Machine.SumOrProduct(op, t, u), Wrap(Machine.SumOrProduct(op, w, u));
    QuoRem(x, w);
    if DivisionDefined(y, t) {
      QuoInRange(y, t);
    }
  }

  // ---- LT, GT, SLT and SGT

  /** Whether `u` is between `t` and its low half, or outside, as the order taken and the cut together want it. */
  predicate OrderAgrees(op: Byte, t: Word, u: Word)
    requires 0x10 <= op <= 0x13
  {
    var c := Low32(t);
    if op == 0x10 then if u < 0 then Pattern(t) < Pattern(u) else c <= u <= Pattern(t)
    else if op == 0x11 then if u < 0 then Pattern(t) <= Pattern(u) else c < u < Pattern(t) || c == u == t
    else if op == 0x12 then t < u < c || c <= u <= t
    else t <= u <= c || c < u < t
  }

  lemma CompareInListOrder(op: Byte, t: Word, u: Word, mem: Bytes)
    requires 0x10 <= op <= 0x13
    ensures Comparison(op, [u, t], mem) == Next([Flag(Compared(op, t, u))], mem) <==> OrderAgrees(op, t, u)
  {
    LowIsLess(t);
    LowIsLess(u);
  }

  // ---- JUMPI

  predicate IsTarget(code: Code, a: Word)
  {
    0 <= a < |code| && code[a] == JUMPDEST
  }

  /** JUMPI with its destination on top: the code takes the condition for the destination and the other way round. */
  lemma JumpIInListOrder(code: Code, cap: nat, s: State, rest: seq<Word>, u: Word, t: Word)
    requires s.pc < |code| && code[s.pc] == 0x57 && s.stack == rest + [u, t] && |s.stack| <= cap
    ensures Step(code, cap, s) == JumpIDescribed(code, s, rest, t, u) <==>
      if Low32(t) == 0 then u == 0 || (t == s.pc + 1 && IsTarget(code, t))
      else u != 0 && (t == u || (!IsTarget(code, t) && !IsTarget(code, u)))
  {
    Machine.JumpStep(code, cap, s, rest, [u, t]);
    hide Step;
  }

  /** 1 - 0, 4 / 2 and 0 < 1 in the wrong order, and a jump to the condition. */
  lemma OrderFails(code: Code, cap: nat, s: State)
    requires s.pc + 2 < |code| && code[s.pc] == 0x57 && s.stack == [1, s.pc + 2] && cap >= 2 && code[1] != JUMPDEST
    ensures Arithmetic(0x03, [0, 1], s.mem) == Next([-1], s.mem)
    ensures Arithmetic(0x05, [2, 4], s.mem) == Next([0], s.mem) && Quo(4, 2) == 2
    ensures Comparison(0x12, [1, 0], s.mem) == Next([0], s.mem) && Compared(0x12, 0, 1)
    ensures s.pc + 2 < 0x1_0000_0000 ==> Step(code, cap, s) == Returned(-1, Early, [], s.mem)
  {
    hide Quo, Rem, SDiv, Step;
    SmallerQuo(2, 4);
    QuoRemUnique(4, 2, 2, 0);
    Machine.DivisionMeans(0x05, 2, 4, s.mem);
    assert s.stack == [] + [1, s.pc + 2];
    Machine.JumpStep(code, cap, s, [], [1, s.pc + 2]);
  }

  // ---- MSTORE and MSTORE8

  /** The code's own write, at the offset on top. */
  function StoreDescribed(op: Byte, t: Word, u: Word, mem: Bytes): Action
    requires op == 0x52 || op == 0x53
  {
    if !InMemory(t) then Halt(-1)
    else Next([], Store(mem, t, if op == 0x52 then Low32(u) else u as int % 256))
  }

  /** It is right for every memory exactly if value and offset are the same or neither is an offset. */
  lemma StoreInListOrder(code: Code, pc: nat, t: Word, u: Word)
    requires pc < |code| && (code[pc] == 0x52 || code[pc] == 0x53)
    ensures (forall mem: Bytes :: Flow(code, pc, [u, t], mem) == StoreDescribed(code[pc], t, u, mem)) <==>
            t == u || (!InMemory(t) && !InMemory(u))
  {
    hide Store;
    if t != u && (InMemory(t) || InMemory(u)) {
      var mem := Disagreement(t, u);
      if InMemory(t) && InMemory(u) {
        WritesDiffer(t, u);
        Store8IsStore(mem, t, u);
        Store8IsStore(mem, u, t);
      }
      assert Flow(code, pc, [u, t], mem) != StoreDescribed(code[pc], t, u, mem);
    }
  }

  /** A bit that only one of the writes at `t` and at `u` covers, and by its first bit. */
  function OwnBit(t: nat, u: nat): nat
  {
    if t / 8 == u / 8 && t < u then t else u
  }

  /** A memory in which that bit is not what the write puts there. */
  function Disagreement(t: Word, u: Word): Bytes
  {
    var value := if t / 8 == u / 8 && t < u then u else t;
    seq(32, _ => if value % 2 == 1 then 0 else 255)
  }

  lemma WritesDiffer(t: Word, u: Word)
    requires InMemory(t) && InMemory(u) && t != u
    ensures var mem := Disagreement(t, u); Store(mem, u, Low32(t)) != Store(mem, t, Low32(u))
  {
    hide Store, BitsOf;
    var mem, i := Disagreement(t, u), OwnBit(t, u);
    DisagreementAt(t, u, i);
    WrittenBit(mem, u, Low32(t), i);
    WrittenBit(mem, t, Low32(u), i);
    BitNothing(Low32(t));
    BitNothing(Low32(u));
  }

  lemma BitNothing(x: nat)
    ensures Bit(x, 0) == (x % 2 == 1)
  {
  }

  lemma WrittenBit(mem: Bytes, a: nat, v: nat, i: nat)
    requires InMemory(a) && i < BITS
    ensures BitsOf(Store(mem, a, v))[i] == if a <= i < ByteEnd(a) then Bit(v, i - a) else BitsOf(mem)[i]
  {
    hide Store, BitsOf, Bit;
    StoreRefines(mem, a, v);
  }

  lemma DisagreementAt(t: Word, u: Word, i: nat)
    requires i < BITS
    ensures BitsOf(Disagreement(t, u))[i] == ((if t / 8 == u / 8 && t < u then u else t) % 2 != 1)
  {
    hide Bit;
    AllOnes(8, i % 8);
    assert Pow(2, 8) == 256 by { TwoToTheEighth(); }
    VmBits.NoBits(i % 8);
  }

  lemma {:induction false} AllOnes(n: nat, k: nat)
    requires k < n
    ensures 0 < Pow(2, n) && Bit(Pow(2, n) - 1, k)
    decreases n
  {
    PowPositive(2, n);
    assert (Pow(2, n) - 1) / 2 == Pow(2, n - 1) - 1;
    if k > 0 {
      AllOnes(n - 1, k - 1);
    }
  }

  // ---- EXP

  /** y^2 + k y + k^2: multiplied by y^(k - 2) it bounds (y + 1)^k. */
  function Bound(y: int, k: int): int
  {
    y * y + k * y + k * k
  }

  lemma BoundGrows(y: int, k: int)
    requires 0 <= k <= y
    ensures (y + 1) * Bound(y, k) <= y * Bound(y, k + 1)
  {
    assert y * Bound(y, k + 1) - (y + 1) * Bound(y, k) == y * (k + 1) - k * k;
    MulLeq(k, y, k, k + 1);
  }

  lemma {:induction false} PowerStep(y: nat, k: nat)
    requires 1 <= k <= y
    ensures y * y * Pow(y + 1, k) < Pow(y, k) * Bound(y, k)
    decreases k
  {
    if k == 1 {
      Exp.PowOne(y);
      Exp.PowOne(y + 1);
      assert y * Bound(y, 1) == y * y * (y + 1) + y;
    } else {
      PowerStep(y, k - 1);
      PowPositive(y, k - 1);
      BoundGrows(y, k - 1);
      OneMoreFactor(y, y * y, Pow(y + 1, k - 1), Pow(y, k - 1), Bound(y, k - 1), Bound(y, k));
    }
  }

  lemma OneMoreFactor(y: int, square: int, p: int, q: int, a: int, b: int)
    requires y > 0 && q > 0 && square * p < q * a && (y + 1) * a <= y * b
    ensures square * ((y + 1) * p) < y * q * b
  {
    assert square * ((y + 1) * p) == (y + 1) * (square * p);
    assert (y + 1) * (square * p) < (y + 1) * (q * a);
    assert (y + 1) * (q * a) == q * ((y + 1) * a);
    assert q * ((y + 1) * a) <= q * (y * b);
    assert q * (y * b) == y * q * b;
  }

  /** From 3 on, the larger exponent makes the larger power. */
  lemma {:induction false} LargerExponentWins(x: nat, y: nat)
    requires 3 <= x <= y
    ensures if x == y then Pow(x, y) == Pow(y, x) else Pow(x, y) > Pow(y, x)
    decreases y
  {
    if x < y {
      var z := y - 1;
      LargerExponentWins(x, z);
      PowerStep(z, x);
      PowPositive(z, x);
      ThreeSquares(z, x);
      LessThanTimes(z * z, Pow(y, x), Pow(z, x), Bound(z, x), x);
      MulLeq(x, x, Pow(z, x), Pow(x, z));
    }
  }

  lemma ThreeSquares(y: int, k: int)
    requires 3 <= k <= y
    ensures Bound(y, k) <= k * (y * y)
  {
    MulLeq(k, y, y, y);
    MulLeq(k, y, k, y);
    MulLeq(3, k, y * y, y * y);
  }

  lemma LessThanTimes(square: int, p: int, q: int, a: int, k: int)
    requires square > 0 && q > 0 && square * p < q * a && a <= k * square
    ensures p < k * q
  {
    TimesMonotone(q, a, k * square);
    assert q * (k * square) == square * (k * q);
    if p >= k * q {
      TimesMonotone(square, k * q, p);
    }
  }

  lemma TimesMonotone(s: int, a: int, b: int)
    requires s >= 0 && a <= b
    ensures s * a <= s * b
  {
  }

  /** To 2 belongs 4. */
  lemma {:induction false} TwoPowers(y: nat)
    requires y >= 5
    ensures Pow(2, y) > y * y
  {
    if y == 5 {
      assert Pow(2, 4) == 16;
    } else {
      TwoPowers(y - 1);
      assert (y - 1) * (y - 1) == y * y - 2 * y + 1;
      MulLeq(5, y - 1, y - 1, y - 1);
    }
  }

  /** The solutions of x^y == y^x. */
  lemma EqualPowers(x: nat, y: nat)
    requires x >= 2 && y >= 2
    ensures Pow(x, y) == Pow(y, x) <==> x == y || (x == 2 && y == 4) || (x == 4 && y == 2)
  {
    if x >= 3 && y >= 3 {
      LargerExponentWins(if x < y then x else y, if x < y then y else x);
    } else if x == 2 {
      PowersOfTwo(y);
    } else {
      PowersOfTwo(x);
    }
  }

  lemma PowersOfTwo(y: nat)
    requires y >= 2
    ensures Pow(2, y) == Pow(y, 2) <==> y == 2 || y == 4
  {
    Exp.PowOne(y);
    assert Pow(y, 2) == y * y;
    assert Pow(2, 3) == 8 && Pow(2, 4) == 16;
    if y >= 5 {
      TwoPowers(y);
    }
  }

  lemma EqualPowersOfAll(x: nat, y: nat)
    ensures Pow(x, y) == Pow(y, x) <==> x == y || (x == 2 && y == 4) || (x == 4 && y == 2)
  {
    if x >= 2 && y >= 2 {
      EqualPowers(x, y);
    } else if x < 2 {
      SmallPowers(x, y);
    } else {
      SmallPowers(y, x);
    }
  }

  lemma SmallPowers(x: nat, y: nat)
    requires x < 2
    ensures Pow(x, y) == Pow(y, x) <==> x == y
  {
    Exp.PowOne(y);
    if x == 1 {
      PowsOfOne(y);
    } else if y > 0 {
      assert Pow(0, y) == 0 * Pow(0, y - 1) == 0;
    }
  }

  lemma {:induction false} PowsOfOne(n: nat)
    ensures Pow(1, n) == 1
  {
    if n > 0 {
      PowsOfOne(n - 1);
    }
  }

  /** Of two powers that fit, EXP pushes the one for the other exactly if they are equal, of a number and itself
      or of 2 and 4, and the tests let it through. */
  lemma ExpInListOrder(t: Word, u: Word, mem: Bytes)
    requires t >= 0 && u >= 0 && InRange(Pow(t, u)) && InRange(Pow(u, t))
    ensures Arithmetic(0x0a, [u, t], mem) == Next([Pow(t, u)], mem) <==>
            Exp.LetThrough(u, t) && (t == u || (t == 2 && u == 4) || (t == 4 && u == 2))
  {
    hide Pow, Exp.Loop, Exp.LetThrough;
    Exp.FittingPower(u, t);
    EqualPowersOfAll(t, u);
  }
}
