/** What the opcodes do, one by one and in plain numbers: what is on the stack before and after, where the
    machine goes on, and how it ends. */
module VmInstructions {
  import opened Positional
  import opened CTypes
  import opened Words
  import opened Vm
  import VmBits
  import VmBlocks
  import Exp
  import Machine
  import Memory

  /** Whether `r` is `x` modulo 2^64, and so `x` itself if that is a word. */
  predicate IsLowWord(r: Word, x: int)
  {
    (r as int - x) % 0x1_0000_0000_0000_0000 == 0
  }

  lemma LowWordOfWord(r: Word, x: int)
    requires IsLowWord(r, x) && -0x8000_0000_0000_0000 <= x < 0x8000_0000_0000_0000
    ensures r == x
  {
  }

  lemma WrapIsLowWord(x: int)
    ensures IsLowWord(Wrap(x), x)
  {
  }

  /** The machine goes on after an instruction of one byte with `r` pushed on `rest`. */
  predicate Pushes(o: Outcome, s: State, rest: seq<Word>, r: Word)
  {
    o == Running(State(s.pc + 1, rest + [r], s.mem))
  }

  // ---- How the machine ends

  /** Behind the code the top is popped and returned. */
  lemma FinalPop(code: Code, cap: nat, s: State, rest: seq<Word>, v: Word)
    requires s.pc >= |code| && s.stack == rest + [v]
    ensures Step(code, cap, s) == Returned(v, Popped, rest, s.mem)
  {
  }

  lemma FinalPopOfNothing(code: Code, cap: nat, s: State)
    requires s.pc >= |code| && s.stack == []
    ensures Step(code, cap, s) == Exited(Underflow)
  {
  }

  /** STOP returns the index of the top, -1 for none. */
  lemma StopReturnsTop(code: Code, cap: nat, s: State)
    requires s.pc < |code| && code[s.pc] == 0x00 && |s.stack| <= cap
    ensures Step(code, cap, s) == Returned(|s.stack| - 1, Stopped, s.stack, s.mem)
  {
    hide Step;
    Machine.OtherStep(code, cap, s);
  }

  /** The instructions that underflow do so exactly on fewer elements than this; nothing else in the code does. */
  lemma UnderflowExactly(code: Code, cap: nat, s: State)
    requires s.pc < |code|
    ensures var op := code[s.pc];
      var needed :=
        if 0x80 <= op <= 0x8f then op - 0x80 + 1
        else if 0x90 <= op <= 0x9f then op - 0x90 + 2
        else if 0xa0 <= op <= 0xa4 then op - 0xa0 + 2
        else if op in {0x08, 0x09, 0x0b} then 3
        else if 0x01 <= op <= 0x0a || 0x10 <= op <= 0x14 || 0x16 <= op <= 0x18 || 0x1a <= op <= 0x1d then 2
        else if op in {0x52, 0x53, 0x55, 0x57} then 2
        else if op in {0x15, 0x19, 0x31, 0x50, 0x51, 0x54, 0x56} then 1
        else 0;
      Step(code, cap, s) == Exited(Underflow) <==> |s.stack| < needed
  {
    hide Act;
  }

  /** Opcodes without a case end the process. */
  lemma UnknownExits(code: Code, cap: nat, s: State)
    requires s.pc < |code|
    requires var op := code[s.pc];
      || 0x0c <= op <= 0x0f || op == 0x1f || 0x20 <= op <= 0x2f || 0x49 <= op <= 0x4f || 0x5c <= op <= 0x5e
      || 0xa5 <= op <= 0xef || 0xf6 <= op <= 0xf9 || op == 0xfb || op == 0xfc
    ensures Step(code, cap, s) == Exited(BadOpcode)
  {
    hide Step;
    Machine.UnknownStep(code, cap, s);
  }

  /** Cases without statements do nothing. */
  lemma IdleDoesNothing(code: Code, cap: nat, s: State)
    requires s.pc < |code| && |s.stack| <= cap
    requires var op := code[s.pc];
      || op == 0x1e || op == 0x30 || (op == 0x31 && |s.stack| > 0) || 0x32 <= op <= 0x48 || op == 0x5a || op == 0x5b
      || 0xf0 <= op <= 0xf5 || op == 0xfa || 0xfd <= op
    ensures Step(code, cap, s) == Running(State(s.pc + 1, s.stack, s.mem))
  {
    hide Step;
    if code[s.pc] == 0x5a || code[s.pc] == 0x5b {
      Machine.PlainStep(code, cap, s);
    } else {
      Machine.OtherStep(code, cap, s);
    }
  }

  /** SLOAD and SSTORE have no meaning here once they have their operands. */
  lemma StorageIsStuck(code: Code, cap: nat, s: State)
    requires s.pc < |code|
    requires (code[s.pc] == 0x54 && |s.stack| >= 1) || (code[s.pc] == 0x55 && |s.stack| >= 2)
    ensures Step(code, cap, s) == Stuck
  {
    hide Step;
    Machine.StorageStep(code, cap, s);
  }

  // ---- Arithmetic

  /** The step of an opcode from 0x01 to 0x0a on its operands. */
  lemma ArithmeticPushes(code: Code, cap: nat, s: State, rest: seq<Word>, args: seq<Word>)
    requires s.pc < |code| && 0x01 <= code[s.pc] <= 0x0a && |s.stack| <= cap
    requires s.stack == rest + args && |args| == Need(code[s.pc])
    ensures match Arithmetic(code[s.pc], args, s.mem)
      case Next(pushes, mem) =>
        |pushes| == 1 && mem == s.mem ==> Pushes(Step(code, cap, s), s, rest, pushes[0])
      case Fail => Step(code, cap, s) == Exited(BadData)
      case Undefined => Step(code, cap, s) == Stuck
      case _ => true
  {
    hide Arithmetic, Step;
    Machine.ArithmeticStep(code, cap, s, rest, args);
    if Arithmetic(code[s.pc], args, s.mem).Next? && |Arithmetic(code[s.pc], args, s.mem).pushes| == 1 {
      assert Arithmetic(code[s.pc], args, s.mem).pushes == [Arithmetic(code[s.pc], args, s.mem).pushes[0]];
    }
  }

  /** ADD, MUL and SUB */
  lemma Sums(code: Code, cap: nat, s: State, rest: seq<Word>, a: Word, b: Word) returns (r: Word)
    requires s.pc < |code| && code[s.pc] in {0x01, 0x02, 0x03} && s.stack == rest + [a, b] && |s.stack| <= cap
    ensures Pushes(Step(code, cap, s), s, rest, r)
    ensures code[s.pc] == 0x01 ==> IsLowWord(r, a as int + b as int)
    ensures code[s.pc] == 0x02 ==> IsLowWord(r, a as int * b as int)
    ensures code[s.pc] == 0x03 ==> IsLowWord(r, a as int - b as int)
  {
    hide Step, Wrap, Pushes, IsLowWord;
    ArithmeticPushes(code, cap, s, rest, [a, b]);
    var x := if code[s.pc] == 0x01 then a as int + b as int
             else if code[s.pc] == 0x02 then a as int * b as int
             else a as int - b as int;
    WrapIsLowWord(x);
    r := Wrap(x);
  }

  /** Division by 0 ends the process. */
  lemma ZeroDivisorExits(code: Code, cap: nat, s: State, rest: seq<Word>, args: seq<Word>)
    requires s.pc < |code| && 0x04 <= code[s.pc] <= 0x09 && s.stack == rest + args && |s.stack| <= cap
    requires |args| == (if code[s.pc] <= 0x07 then 2 else 3) && args[|args| - 1] == 0
    ensures Step(code, cap, s) == Exited(BadData)
  {
    hide Step;
    ArithmeticPushes(code, cap, s, rest, args);
  }

  /** DIV and SDIV push the quotient `q` towards zero and MOD its remainder `r`; so does SMOD, but for the least
      word over a positive divisor, where it pushes -r. C has no quotient of the least word by -1. */
  lemma Quotients(code: Code, cap: nat, s: State, rest: seq<Word>, a: Word, b: Word) returns (q: Word, r: Word)
    requires s.pc < |code| && 0x04 <= code[s.pc] <= 0x07 && s.stack == rest + [a, b] && |s.stack| <= cap && b != 0
    ensures a == -0x8000_0000_0000_0000 && b == -1 ==> Step(code, cap, s) == Stuck
    ensures !(a == -0x8000_0000_0000_0000 && b == -1) ==>
      && q as int * b as int + r as int == a && Abs(r) < Abs(b) && (r == 0 || (r < 0 <==> a < 0))
      && InRange(-(r as int))
      && Pushes(Step(code, cap, s), s, rest,
           if code[s.pc] == 0x04 || code[s.pc] == 0x05 then q
           else if code[s.pc] == 0x07 && a == -0x8000_0000_0000_0000 && b > 0 then -r
           else r)
  {
    hide Step, Wrap, Pushes, Quo, Rem, SDiv, SMod;
    ArithmeticPushes(code, cap, s, rest, [a, b]);
    q, r := 0, 0;
    if DivisionDefined(a, b) {
      QuoRem(a, b);
      QuoInRange(a, b);
      Machine.DivisionMeans(code[s.pc], a, b, s.mem);
      q, r := Quo(a, b), Rem(a, b);
    }
  }

  /** ADDMOD and MULMOD push the remainder `r` of the sum or the product modulo 2^64, `x`. */
  lemma Moduli(code: Code, cap: nat, s: State, rest: seq<Word>, a: Word, b: Word, c: Word)
    returns (x: Word, q: int, r: Word)
    requires s.pc < |code| && code[s.pc] in {0x08, 0x09} && s.stack == rest + [a, b, c] && |s.stack| <= cap && c != 0
    ensures code[s.pc] == 0x08 ==> IsLowWord(x, a as int + b as int)
    ensures code[s.pc] == 0x09 ==> IsLowWord(x, a as int * b as int)
    ensures q * c as int + r as int == x && Abs(r) < Abs(c) && (r == 0 || (r < 0 <==> x < 0))
    ensures if x == -0x8000_0000_0000_0000 && c == -1 then Step(code, cap, s) == Stuck
            else Pushes(Step(code, cap, s), s, rest, r)
  {
    hide Step, Wrap, Pushes, Quo, Rem, IsLowWord;
    ArithmeticPushes(code, cap, s, rest, [a, b, c]);
    var y := if code[s.pc] == 0x08 then a as int + b as int else a as int * b as int;
    WrapIsLowWord(y);
    x := Wrap(y);
    QuoRem(x, c);
    q, r := Quo(x, c), Rem(x, c);
  }

  /** EXP exits exactly if one of its tests fires, and otherwise pushes the power modulo 2^64; a negative exponent
      counts as 0. */
  lemma Powers(code: Code, cap: nat, s: State, rest: seq<Word>, a: Word, b: Word) returns (r: Word)
    requires s.pc < |code| && code[s.pc] == 0x0a && s.stack == rest + [a, b] && |s.stack| <= cap
    ensures b <= 0 ==> r == 1 && Pushes(Step(code, cap, s), s, rest, r)
    ensures b > 0 ==> IsLowWord(r, Pow(a, b))
    ensures b > 0 && Exp.FiresFrom(a, b, 0) ==> Step(code, cap, s) == Exited(BadData)
    ensures b > 0 && !Exp.FiresFrom(a, b, 0) ==> Pushes(Step(code, cap, s), s, rest, r)
  {
    ArithmeticPushes(code, cap, s, rest, [a, b]);
    hide Step, Wrap, Pushes, Pow, IsLowWord, Exp.FiresFrom;
    if b <= 0 {
      r := 1;
      assert Exp.Loop(1, a, b) == Exp.Power(1);
    } else {
      hide Exp.Loop;
      Exp.ExpOutcome(a, b);
      WrapIsLowWord(Pow(a, b));
      r := Wrap(Pow(a, b));
    }
  }

  /** SIGNEXTEND, above a third element, keeps the low bits of `a` if bit 31 of the top is set, and else all. */
  lemma SignExtensions(code: Code, cap: nat, s: State, rest: seq<Word>, a: Word, b: Word) returns (r: Word)
    requires s.pc < |code| && code[s.pc] == 0x0b && s.stack == rest + [a, b] && |rest| > 0 && |s.stack| <= cap
    ensures Pushes(Step(code, cap, s), s, rest, r)
    ensures 0 < Pow(2, b as int % 32)
    ensures r == if b as int % 0x1_0000_0000 >= 0x8000_0000 then a as int % Pow(2, b as int % 32) else a
  {
    hide Step, SignExtend, Pow;
    Machine.ExtendStep(code, cap, s, rest, a, b);
    VmBits.SignExtendIsMod(a, Low32(b));
    assert Low32(b) % 32 == b as int % 32;
    r := SignExtend(a, Low32(b));
  }

  // ---- Comparisons and bits

  /** The step of an opcode from 0x10 to 0x1d on its operands. */
  lemma ComparisonPushes(code: Code, cap: nat, s: State, rest: seq<Word>, args: seq<Word>)
    requires s.pc < |code| && 0x10 <= code[s.pc] <= 0x1d && |s.stack| <= cap
    requires s.stack == rest + args && |args| == Need(code[s.pc])
    ensures match Comparison(code[s.pc], args, s.mem)
      case Next(pushes, mem) =>
        |pushes| == 1 && mem == s.mem ==> Pushes(Step(code, cap, s), s, rest, pushes[0])
      case Fail => Step(code, cap, s) == Exited(BadData)
      case Undefined => Step(code, cap, s) == Stuck
      case _ => true
  {
    hide Comparison, Step;
    Machine.ComparisonStep(code, cap, s, rest, args);
    if Comparison(code[s.pc], args, s.mem).Next? && |Comparison(code[s.pc], args, s.mem).pushes| == 1 {
      assert Comparison(code[s.pc], args, s.mem).pushes == [Comparison(code[s.pc], args, s.mem).pushes[0]];
    }
  }

  /** LT, GT, SLT, SGT and EQ push 1 or 0; the top is cut to 32 bits, for EQ the element below it. */
  lemma Comparisons(code: Code, cap: nat, s: State, rest: seq<Word>, a: Word, b: Word)
    requires s.pc < |code| && 0x10 <= code[s.pc] <= 0x14 && s.stack == rest + [a, b] && |s.stack| <= cap
    ensures var op, x, y := code[s.pc], a as int % 0x1_0000_0000, b as int % 0x1_0000_0000;
      Pushes(Step(code, cap, s), s, rest,
        if ((op == 0x10 || op == 0x12) && a < y) || ((op == 0x11 || op == 0x13) && a > y) || (op == 0x14 && b == x)
        then 1 else 0)
  {
    hide Step, Pushes;
    ComparisonPushes(code, cap, s, rest, [a, b]);
  }

  /** ISZERO and NOT */
  lemma IsZeroAndNot(code: Code, cap: nat, s: State, rest: seq<Word>, a: Word)
    requires s.pc < |code| && code[s.pc] in {0x15, 0x19} && s.stack == rest + [a] && |s.stack| <= cap
    ensures code[s.pc] == 0x15 ==> Pushes(Step(code, cap, s), s, rest, if a == 0 then 1 else 0)
    ensures code[s.pc] == 0x19 ==> Pushes(Step(code, cap, s), s, rest, -(a as int) - 1)
  {
    hide Step, Pushes;
    ComparisonPushes(code, cap, s, rest, [a]);
  }

  /** Bit `k` of a word. */
  predicate Has(a: Word, k: nat)
    requires k < 64
  {
    Memory.Bit(a as int % 0x1_0000_0000_0000_0000, k)
  }

  /** AND, OR and XOR, of the top and the low 32 bits of the element below it. */
  lemma Logic(code: Code, cap: nat, s: State, rest: seq<Word>, a: Word, b: Word) returns (r: Word)
    requires s.pc < |code| && code[s.pc] in {0x16, 0x17, 0x18} && s.stack == rest + [a, b] && |s.stack| <= cap
    ensures Pushes(Step(code, cap, s), s, rest, r)
    ensures forall k: nat :: k < 64 ==>
      && (code[s.pc] == 0x16 ==> Has(r, k) == (Has(b, k) && k < 32 && Has(a, k)))
      && (code[s.pc] == 0x17 ==> Has(r, k) == (Has(b, k) || (k < 32 && Has(a, k))))
      && (code[s.pc] == 0x18 ==> Has(r, k) == (Has(b, k) != (k < 32 && Has(a, k))))
  {
    hide Step, Pushes, Comparison, Memory.Bit;
    ComparisonPushes(code, cap, s, rest, [a, b]);
    VmBits.LogicBits(code[s.pc], [a, b], s.mem, 0);
    r := Comparison(code[s.pc], [a, b], s.mem).pushes[0];
    forall k: nat | k < 64
      ensures Has(r, k) == Combine(VmBits.KindOf(code[s.pc]), Has(b, k), k < 32 && Has(a, k))
    {
      VmBits.LogicBits(code[s.pc], [a, b], s.mem, k);
    }
  }

  /** BYTE, SHL, SHR and SAR by the low 32 bits `c` of the top. */
  lemma Shiftings(code: Code, cap: nat, s: State, rest: seq<Word>, a: Word, b: Word) returns (r: Word)
    requires s.pc < |code| && 0x1a <= code[s.pc] <= 0x1d && s.stack == rest + [a, b] && |s.stack| <= cap
    ensures var op, c, o := code[s.pc], b as int % 0x1_0000_0000, Step(code, cap, s);
      && (op == 0x1a && c < 8 ==>
          Pushes(o, s, rest, r) && 0 <= r < 256 && exists q :: VmBits.IsFloor(256 * q + r, a, 8 * c))
      && (op == 0x1a && 8 <= c < 32 ==> o == Stuck)
      && (op == 0x1a && 32 <= c ==> o == Exited(BadData))
      && (op == 0x1b && c < 64 ==> Pushes(o, s, rest, r) && IsLowWord(r, a as int * Pow(2, c)))
      && (op >= 0x1c && c < 64 ==> Pushes(o, s, rest, r) && r * Pow(2, c) <= a < (r + 1) * Pow(2, c))
      && ((op == 0x1b || op == 0x1c) && 64 <= c < 256 ==> o == Stuck)
      && ((op == 0x1b || op == 0x1c) && 256 <= c ==> Pushes(o, s, rest, 0))
      && (op == 0x1d && 64 <= c ==> Pushes(o, s, rest, if a < 0 then -0x8000_0000_0000_0000 else 0))
  {
    hide Step, Pushes, Wrap, Pow, ShiftRight, IsLowWord;
    ComparisonPushes(code, cap, s, rest, [a, b]);
    var op, c := code[s.pc], Low32(b);
    r := 0;
    if c <= (if op == 0x1a then 7 else 63) {
      VmBits.ShiftsMean(op, a, c, s.mem);
      WrapIsLowWord(a as int * Pow(2, c));
      r := Shifts(op, a, c, s.mem).pushes[0];
    }
  }

  // ---- Memory

  /** MLOAD goes on exactly inside the memory's bits, with the number from the bit offset to the end of its byte;
      elsewhere it returns 0. */
  lemma Loads(code: Code, cap: nat, s: State, rest: seq<Word>, a: Word) returns (r: Word)
    requires s.pc < |code| && code[s.pc] == 0x51 && s.stack == rest + [a] && |s.stack| <= cap
    ensures if 0 <= a < 8 * |s.mem|
            then Pushes(Step(code, cap, s), s, rest, r) && VmBits.IsFloor(r, s.mem[a / 8], a % 8)
            else Step(code, cap, s) == Returned(0, Early, rest, s.mem)
  {
    hide Step, Memory.Load, VmBits.IsFloor;
    Machine.LoadStep(code, cap, s, rest, a);
    r := 0;
    if 0 <= a < 8 * |s.mem| {
      LoadIsFloor(s.mem, a);
      r := Memory.Load(s.mem, a);
    }
  }

  lemma LoadIsFloor(mem: Memory.Bytes, a: nat)
    requires a < 8 * |mem|
    ensures 0 <= Memory.Load(mem, a) < 256 && VmBits.IsFloor(Memory.Load(mem, a), mem[a / 8], a % 8)
  {
    hide Pow, Memory.Drop;
    VmBits.DropIsShift(mem[a / 8], a % 8);
    VmBits.ShiftRightIsFloor(mem[a / 8], a % 8);
    VmBits.ShiftRightRange(mem[a / 8], a % 8);
  }

  /** MSTORE and MSTORE8 go on exactly inside the memory's bits, and put the value's low bits from the bit offset
      on into its byte, which keeps its bits below; elsewhere they return -1. */
  lemma Stores(code: Code, cap: nat, s: State, rest: seq<Word>, a: Word, v: Word)
    requires s.pc < |code| && code[s.pc] in {0x52, 0x53} && s.stack == rest + [a, v] && |s.stack| <= cap
    ensures if 0 <= a < 8 * |s.mem| then
        var o := a % 8;
        && 0 < Pow(2, o) && 0 < Pow(2, 8 - o)
        && var byte := s.mem[a / 8] % Pow(2, o) + v as int % Pow(2, 8 - o) * Pow(2, o);
           0 <= byte < 256 && Step(code, cap, s) == Running(State(s.pc + 1, rest, s.mem[a / 8 := byte]))
      else Step(code, cap, s) == Returned(-1, Early, rest, s.mem)
  {
    hide Step, Memory.Store, Pow;
    Machine.StoreStep(code, cap, s, rest, a, v);
    if 0 <= a < 8 * |s.mem| {
      Memory.Store8IsStore(s.mem, a, v);
      StoreIsSum(s.mem, a, v);
    }
  }

  lemma StoreIsSum(mem: Memory.Bytes, a: nat, v: Word)
    requires a < 8 * |mem|
    ensures var o := a % 8;
      && 0 < Pow(2, o) && 0 < Pow(2, 8 - o)
      && var byte := mem[a / 8] % Pow(2, o) + v as int % Pow(2, 8 - o) * Pow(2, o);
         0 <= byte < 256 && Memory.Store(mem, a, Low32(v)) == mem[a / 8 := byte]
  {
    var x, o, n := mem[a / 8], a % 8, 8 - a % 8;
    hide Memory.Splice, Memory.Low, Pow;
    Memory.LowIsMod(Low32(v), n);
    SpliceIsSum(x, Memory.Low(Low32(v), n), o);
    VmBits.TwoTo32();
    PowAdd(2, n, 32 - n);
    PowPositive(2, 32 - n);
    VmBits.ModOfMultiple(v, Pow(2, n), Pow(2, 32 - n));
    assert Memory.StoreByte(x, Low32(v), o) == x % Pow(2, o) + v as int % Pow(2, n) * Pow(2, o);
  }

  lemma {:induction false} SpliceIsSum(x: nat, y: nat, n: nat)
    ensures 0 < Pow(2, n) && Memory.Splice(x, y, n) == x % Pow(2, n) + y * Pow(2, n)
    decreases n
  {
    PowPositive(2, n);
    if n > 0 {
      SpliceIsSum(x / 2, y, n - 1);
      Memory.HalfMod(x, Pow(2, n - 1));
    } else {
      assert x % 1 == 0;
    }
  }

  // ---- Jumps, constants and blocks

  /** JUMP, and JUMPI on a condition whose low 32 bits are not 0, go to a byte 0x5b or return -1. */
  lemma Jumpings(code: Code, cap: nat, s: State, rest: seq<Word>, a: Word, b: Word)
    requires s.pc < |code| && |s.stack| <= cap
    requires (code[s.pc] == 0x56 && s.stack == rest + [a]) || (code[s.pc] == 0x57 && s.stack == rest + [a, b])
    ensures Step(code, cap, s) ==
      if code[s.pc] == 0x57 && b as int % 0x1_0000_0000 == 0 then Running(State(s.pc + 1, rest, s.mem))
      else if 0 <= a < |code| && code[a] == 0x5b then Running(State(a, rest, s.mem))
      else Returned(-1, Early, rest, s.mem)
  {
    hide Step;
    Machine.JumpStep(code, cap, s, rest, if code[s.pc] == 0x56 then [a] else [a, b]);
  }

  /** POP, PC, MSIZE and PUSH0 */
  lemma PopAndConstants(code: Code, cap: nat, s: State)
    requires s.pc < |code| && code[s.pc] in {0x50, 0x58, 0x59, 0x5f} && |s.stack| <= cap
    ensures var op, h := code[s.pc], |s.stack|;
      Step(code, cap, s) ==
        if op == 0x50 then
          if h == 0 then Exited(Underflow) else Running(State(s.pc + 1, s.stack[..h - 1], s.mem))
        else if h == cap then Exited(Overflow)
        else
          var v: Word := if op == 0x58 then s.pc + 1 else if op == 0x59 then 256 else 0;
          Running(State(s.pc + 1, s.stack + [v], s.mem))
  {
    hide Step;
    Machine.PlainStep(code, cap, s);
  }

  /** PUSHn, of n = code[s.pc] - 0x5f bytes: each is pushed as a word; it exits where the room ends, has no meaning
      where the code does, and goes on behind its bytes. */
  lemma Pushings(code: Code, cap: nat, s: State)
    requires s.pc < |code| && 0x60 <= code[s.pc] <= 0x7f && |s.stack| <= cap
    ensures var n, h, room, avail := code[s.pc] - 0x60 + 1, |s.stack|, cap - |s.stack|, |code| - s.pc - 1;
      && (room < n && room < avail ==> Step(code, cap, s) == Exited(Overflow))
      && (avail < n && avail <= room ==> Step(code, cap, s) == Stuck)
      && (n <= room && n <= avail ==>
          && Step(code, cap, s).Running?
          && var t := Step(code, cap, s).state;
             && t.pc == s.pc + 1 + n && t.mem == s.mem && |t.stack| == h + n && t.stack[..h] == s.stack
             && forall k :: h <= k < h + n ==> t.stack[k] == code[s.pc + 1 + k - h])
  {
    hide Step;
    Machine.PushStep(code, cap, s);
  }

  /** DUPx, for x from 1 to 16, repeats the top x elements in their order. */
  lemma Duplications(code: Code, cap: nat, s: State)
    requires s.pc < |code| && 0x80 <= code[s.pc] <= 0x8f && |s.stack| <= cap
    ensures var x, h, o := code[s.pc] - 0x80 + 1, |s.stack|, Step(code, cap, s);
      && (h >= x && h + x > cap ==> o == Exited(Overflow))
      && (h >= x && h + x <= cap ==>
          && o.Running?
          && var t := o.state;
             && t.pc == s.pc + 1 && t.mem == s.mem && |t.stack| == h + x && t.stack[..h] == s.stack
             && forall k :: h <= k < h + x ==> t.stack[k] == s.stack[k - x])
  {
    hide Step;
    VmBlocks.DupStep(code, cap, s);
  }

  /** SWAPx, for x from 1 to 16, reverses the top x + 1 elements. */
  lemma Reversals(code: Code, cap: nat, s: State)
    requires s.pc < |code| && 0x90 <= code[s.pc] <= 0x9f && |s.stack| <= cap
    ensures var x, h, o := code[s.pc] - 0x90 + 1, |s.stack|, Step(code, cap, s);
      h > x ==>
        && o.Running?
        && var t := o.state;
           && t.pc == s.pc + 1 && t.mem == s.mem && |t.stack| == h
           && (forall k :: 0 <= k < h - 1 - x ==> t.stack[k] == s.stack[k])
           && forall k :: h - 1 - x <= k < h ==> t.stack[k] == s.stack[2 * h - 2 - x - k]
  {
    hide Step;
    VmBlocks.SwapStep(code, cap, s);
    var x, h := code[s.pc] - 0x90 + 1, |s.stack|;
    if h > x {
      hide VmBlocks.Swapped;
      forall k | 0 <= k < h
        ensures VmBlocks.Swapped(s.stack, x)[k] == s.stack[if k < h - 1 - x then k else 2 * h - 2 - x - k]
      {
        VmBlocks.SwappedAt(s.stack, x, k);
      }
    }
  }

  /** LOGn takes the offset from the top, the size, and n topics, and exits for a range outside the memory. */
  lemma Loggings(code: Code, cap: nat, s: State, rest: seq<Word>, size: Word, offset: Word)
    requires s.pc < |code| && 0xa0 <= code[s.pc] <= 0xa4 && |s.stack| <= cap
    requires |rest| >= code[s.pc] - 0xa0 && s.stack == rest + [size, offset]
    ensures Step(code, cap, s) ==
      if offset < 0 || offset as int + size as int > 32 then Exited(BadData)
      else Running(State(s.pc + 1, rest[..|rest| - (code[s.pc] - 0xa0)], s.mem))
  {
    hide Step;
    Machine.LogStep(code, cap, s);
    assert s.stack[..|s.stack| - 2 - (code[s.pc] - 0xa0)] == rest[..|rest| - (code[s.pc] - 0xa0)];
  }
}
