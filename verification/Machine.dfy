/** The machine in place: a stack over an array with a top index, and execute_bytecode's loop over it. */
module Machine {
  import opened Positional
  import opened CTypes
  import opened Words
  import opened Vm
  import opened VmBlocks
  import opened VmRuns
  import opened VmBits
  import Exp
  import Memory

  /** How the handling of one opcode ends: the loop goes on at `pc`, the function returns, or the process exits. */
  datatype Signal = Go(pc: nat) | Return(value: int, ending: Ending) | Exit(reason: Reason) | Lost

  datatype Popped = Empty | Element(value: Word) {
    predicate IsFailure() {
      Empty?
    }

    function PropagateFailure(): Signal
      requires Empty?
    {
      Exit(Underflow)
    }

    function Extract(): Word
      requires Element?
    {
      value
    }
  }

  datatype PoppedPair = TooFew | Pair(a: Word, b: Word) {
    predicate IsFailure() {
      TooFew?
    }

    function PropagateFailure(): Signal
      requires TooFew?
    {
      Exit(Underflow)
    }

    function Extract(): (Word, Word)
      requires Pair?
    {
      (a, b)
    }
  }

  datatype Pushed = Full | Done {
    predicate IsFailure() {
      Full?
    }

    function PropagateFailure(): Signal
      requires Full?
    {
      Exit(Overflow)
    }
  }

  function OutcomeOf(sig: Signal, stack: seq<Word>, mem: Memory.Bytes): Outcome
  {
    match sig
    case Go(pc) => Running(State(pc, stack, mem))
    case Return(value, ending) => Returned(value, ending, stack, mem)
    case Exit(reason) => Exited(reason)
    case Lost => Stuck
  }

  lemma ExitOutcome(reason: Reason, stack: seq<Word>, mem: Memory.Bytes)
    ensures OutcomeOf(Exit(reason), stack, mem) == Exited(reason)
  {
  }

  /** What a case computes from the operands that it has popped. */
  datatype Computed = Result(value: Word) | Invalid | Meaningless

  function ActionOf(c: Computed, mem: Memory.Bytes): Action
  {
    match c
    case Result(value) => Next([value], mem)
    case Invalid => Fail
    case Meaningless => Undefined
  }

  /** The outcome of an action, with `rest` left on the stack and `next` the following instruction. */
  function Settled(act: Action, cap: nat, next: nat, rest: seq<Word>, mem: Memory.Bytes): Outcome
    requires !act.Stop?
  {
    match act
    case Next(pushes, mem') =>
      if |rest| + |pushes| > cap then Exited(Overflow) else Running(State(next, rest + pushes, mem'))
    case Goto(dest) => Running(State(dest, rest, mem))
    case Halt(value) => Returned(value, Early, rest, mem)
    case Fail => Exited(BadData)
    case Undefined => Stuck
  }

  lemma OpcodeFacts(op: Byte)
    ensures IsBinary(op) || IsComparison(op) ==> Known(op) && !IsPush(op) && Need(op) == 2
    ensures op == 0x52 || op == 0x53 || op == 0x57 ==> Known(op) && !IsPush(op) && Need(op) == 2
    ensures op == 0x08 || op == 0x09 || op == 0x0b ==> Known(op) && !IsPush(op) && Need(op) == 3
    ensures op == 0x15 || op == 0x19 || op == 0x51 || op == 0x56 ==> Known(op) && !IsPush(op) && Need(op) == 1
  {
  }

  lemma UnderflowStep(code: Code, cap: nat, s: State)
    requires s.pc < |code| && Known(code[s.pc])
    ensures |s.stack| < Need(code[s.pc]) ==> Step(code, cap, s) == Exited(Underflow)
  {
    hide Act, After;
  }

  /** Popping one by one takes off what was put on together. */
  lemma Joined(rest: seq<Word>, a: Word, b: Word, c: Word)
    ensures rest + [a, b] + [c] == rest + [a, b, c]
  {
  }

  /** Of an opcode that takes off all the elements it needs. */
  lemma PoppedStep(code: Code, cap: nat, s: State, rest: seq<Word>, args: seq<Word>)
    requires s.pc < |code| && Known(code[s.pc]) && !IsPush(code[s.pc]) && code[s.pc] != STOP
    requires s.stack == rest + args && |args| == Need(code[s.pc]) == Pops(code[s.pc])
    ensures var act := Act(code, s.pc, args, s.mem);
      !act.Stop? && Step(code, cap, s) == Settled(act, cap, s.pc + 1, rest, s.mem)
  {
    StepOf(code, cap, s);
    ActStops(code, s.pc, args, s.mem);
    assert Operands(s, code[s.pc]) == args;
    assert s.stack[..|rest|] == rest;
    assert Length(code[s.pc]) == 1;
    hide Act, Step, Operands, Need, Pops;
  }

  lemma ArithmeticStep(code: Code, cap: nat, s: State, rest: seq<Word>, args: seq<Word>)
    requires s.pc < |code| && 0x01 <= code[s.pc] <= 0x0a
    requires s.stack == rest + args && |args| == Need(code[s.pc])
    ensures var act := Arithmetic(code[s.pc], args, s.mem);
      !act.Stop? && Step(code, cap, s) == Settled(act, cap, s.pc + 1, rest, s.mem)
  {
    hide Act, Arithmetic;
    PoppedStep(code, cap, s, rest, args);
    ActCases(code, s.pc, args, s.mem);
  }

  lemma ComparisonStep(code: Code, cap: nat, s: State, rest: seq<Word>, args: seq<Word>)
    requires s.pc < |code| && 0x10 <= code[s.pc] <= 0x1d
    requires s.stack == rest + args && |args| == Need(code[s.pc])
    ensures var act := Comparison(code[s.pc], args, s.mem);
      !act.Stop? && Step(code, cap, s) == Settled(act, cap, s.pc + 1, rest, s.mem)
  {
    hide Act, Comparison;
    PoppedStep(code, cap, s, rest, args);
    ActCases(code, s.pc, args, s.mem);
  }

  lemma FlowStep(code: Code, cap: nat, s: State, rest: seq<Word>, args: seq<Word>)
    requires s.pc < |code| && (0x50 <= code[s.pc] <= 0x5b || code[s.pc] == 0x5f)
    requires s.stack == rest + args && |args| == Need(code[s.pc])
    ensures var act := Flow(code, s.pc, args, s.mem);
      !act.Stop? && Step(code, cap, s) == Settled(act, cap, s.pc + 1, rest, s.mem)
  {
    hide Act, Flow;
    PoppedStep(code, cap, s, rest, args);
    ActCases(code, s.pc, args, s.mem);
  }

  lemma ExtendStep(code: Code, cap: nat, s: State, rest: seq<Word>, a: Word, b: Word)
    requires s.pc < |code| && code[s.pc] == 0x0b
    requires s.stack == rest + [a, b] && |rest| > 0
    ensures Step(code, cap, s) == Settled(Next([SignExtend(a, Low32(b))], s.mem), cap, s.pc + 1, rest, s.mem)
  {
    hide SignExtend, Act, Step;
    StepOf(code, cap, s);
    ActCases(code, s.pc, [rest[|rest| - 1], a, b], s.mem);
    assert Operands(s, 0x0b) == [rest[|rest| - 1], a, b];
    assert s.stack[..|rest|] == rest;
  }

  lemma PushStep(code: Code, cap: nat, s: State)
    requires s.pc < |code| && IsPush(code[s.pc])
    ensures var n, room, avail := code[s.pc] - 95, cap - |s.stack|, |code| - s.pc - 1;
      Step(code, cap, s) ==
        if room < n && room < avail then Exited(Overflow)
        else if avail < n then Stuck
        else Running(State(s.pc + 1 + n, s.stack + Data(code, s.pc + 1, n), s.mem))
  {
    hide Act;
    ActCases(code, s.pc, [], s.mem);
    assert Operands(s, code[s.pc]) == [];
    assert s.stack[..|s.stack|] == s.stack;
  }

  lemma DataNext(code: Code, from: nat, n: nat)
    requires from + n < |code|
    ensures Data(code, from, n + 1) == Data(code, from, n) + [code[from + n]]
  {
  }

  lemma LogStep(code: Code, cap: nat, s: State)
    requires s.pc < |code| && IsLog(code[s.pc]) && |s.stack| <= cap
    ensures var n, h := code[s.pc] - 0xa0, |s.stack|;
      Step(code, cap, s) ==
        if h < n + 2 then Exited(Underflow)
        else if s.stack[h - 1] < 0 || s.stack[h - 1] as int + s.stack[h - 2] as int > 32 then Exited(BadData)
        else Running(State(s.pc + 1, s.stack[..h - 2 - n], s.mem))
  {
    hide Act, Step;
    StepOf(code, cap, s);
    if |s.stack| >= Need(code[s.pc]) {
      ActCases(code, s.pc, Operands(s, code[s.pc]), s.mem);
    }
  }

  lemma StorageStep(code: Code, cap: nat, s: State)
    requires s.pc < |code| && (code[s.pc] == 0x54 || code[s.pc] == 0x55)
    ensures Step(code, cap, s) == if |s.stack| < code[s.pc] - 0x53 then Exited(Underflow) else Stuck
  {
    hide Act, Step;
    StepOf(code, cap, s);
    if |s.stack| >= Need(code[s.pc]) {
      ActCases(code, s.pc, Operands(s, code[s.pc]), s.mem);
    }
  }

  lemma StoreStep(code: Code, cap: nat, s: State, rest: seq<Word>, a: Word, value: Word)
    requires s.pc < |code| && (code[s.pc] == 0x52 || code[s.pc] == 0x53)
    requires s.stack == rest + [a, value] && |s.stack| <= cap
    ensures Step(code, cap, s) ==
      if !Memory.InMemory(a) then Returned(-1, Early, rest, s.mem)
      else
        var v := if code[s.pc] == 0x52 then Low32(value) else value as int % 256;
        Running(State(s.pc + 1, rest, Memory.Store(s.mem, a, v)))
  {
    hide Act, Step, Memory.StoreByte;
    FlowStep(code, cap, s, rest, [a, value]);
    assert rest + [] == rest;
  }

  lemma LoadStep(code: Code, cap: nat, s: State, rest: seq<Word>, a: Word)
    requires s.pc < |code| && code[s.pc] == 0x51 && s.stack == rest + [a] && |s.stack| <= cap
    ensures Step(code, cap, s) ==
      if !Memory.InMemory(a) then Returned(0, Early, rest, s.mem)
      else Running(State(s.pc + 1, rest + [Wrap(Memory.Load(s.mem, a) % 256)], s.mem))
  {
    hide Act, Step, Memory.Load, Memory.Store, Wrap;
    FlowStep(code, cap, s, rest, [a]);
  }

  lemma StoreUnderflow(code: Code, cap: nat, s: State)
    requires s.pc < |code| && (code[s.pc] == 0x52 || code[s.pc] == 0x53)
    ensures |s.stack| < 2 ==> Step(code, cap, s) == Exited(Underflow)
  {
    hide Step;
    UnderflowStep(code, cap, s);
  }

  lemma JumpStep(code: Code, cap: nat, s: State, rest: seq<Word>, args: seq<Word>)
    requires s.pc < |code| && IsJump(code[s.pc]) && |args| == (if code[s.pc] == 0x56 then 1 else 2)
    requires s.stack == rest + args && |s.stack| <= cap
    ensures Step(code, cap, s) ==
      if code[s.pc] == 0x57 && Low32(args[1]) == 0 then Running(State(s.pc + 1, rest, s.mem))
      else if 0 <= args[0] < |code| && code[args[0]] == JUMPDEST then Running(State(args[0], rest, s.mem))
      else Returned(-1, Early, rest, s.mem)
  {
    hide Act, Step, Memory.Load, Memory.Store;
    FlowStep(code, cap, s, rest, args);
    assert rest + [] == rest;
  }

  predicate IsPlain(op: Byte)
  {
    op == 0x50 || 0x58 <= op <= 0x5b || op == 0x5f
  }

  lemma FlowOfPlain(code: Code, pc: nat, args: seq<Word>, mem: Memory.Bytes)
    requires pc < |code| && IsPlain(code[pc]) && |args| == Need(code[pc])
    ensures var op := code[pc];
      Flow(code, pc, args, mem) ==
        if op == 0x50 || op == 0x5a || op == 0x5b then Next([], mem)
        else Next([if op == 0x58 then pc + 1 else if op == 0x59 then 256 else 0], mem)
  {
    hide Jump, Memory.Load, Memory.Store;
  }

  lemma PlainStep(code: Code, cap: nat, s: State)
    requires s.pc < |code| && IsPlain(code[s.pc]) && |s.stack| <= cap
    ensures var op, next := code[s.pc], s.pc + 1;
      Step(code, cap, s) ==
        if op == 0x50 then
          if |s.stack| == 0 then Exited(Underflow) else Running(State(next, s.stack[..|s.stack| - 1], s.mem))
        else if op == 0x5a || op == 0x5b then Running(State(next, s.stack, s.mem))
        else if |s.stack| >= cap then Exited(Overflow)
        else Running(State(next, s.stack + [if op == 0x58 then next else if op == 0x59 then 256 else 0], s.mem))
  {
    hide Step;
    if code[s.pc] != 0x50 {
      ConstantStep(code, cap, s);
    } else if |s.stack| > 0 {
      PopStep(code, cap, s);
    } else {
      UnderflowStep(code, cap, s);
    }
  }

  lemma ConstantStep(code: Code, cap: nat, s: State)
    requires s.pc < |code| && IsPlain(code[s.pc]) && code[s.pc] != 0x50 && |s.stack| <= cap
    ensures var op, next := code[s.pc], s.pc + 1;
      Step(code, cap, s) ==
        if op == 0x5a || op == 0x5b then Running(State(next, s.stack, s.mem))
        else if |s.stack| >= cap then Exited(Overflow)
        else Running(State(next, s.stack + [if op == 0x58 then next else if op == 0x59 then 256 else 0], s.mem))
  {
    hide Act, Step, Flow;
    FlowOfPlain(code, s.pc, [], s.mem);
    FlowStep(code, cap, s, s.stack, []);
    assert s.stack + [] == s.stack;
  }

  predicate IsOther(op: Byte)
  {
    op == STOP || 0x0c <= op <= 0x0f || 0x1e <= op <= 0x4f || 0x5c <= op <= 0x5e || 0xa5 <= op
  }

  lemma UnknownStep(code: Code, cap: nat, s: State)
    requires s.pc < |code| && !Known(code[s.pc])
    ensures Step(code, cap, s) == Exited(BadOpcode)
  {
    hide Act, After, Operands, Need;
  }

  lemma OtherStep(code: Code, cap: nat, s: State)
    requires s.pc < |code| && IsOther(code[s.pc]) && |s.stack| <= cap
    ensures var op := code[s.pc];
      Step(code, cap, s) ==
        if op == STOP then Returned(|s.stack| - 1, Stopped, s.stack, s.mem)
        else if !Known(op) then Exited(BadOpcode)
        else if op == 0x31 && |s.stack| == 0 then Exited(Underflow)
        else Running(State(s.pc + 1, s.stack, s.mem))
  {
    hide Act, Step;
    if !Known(code[s.pc]) {
      UnknownStep(code, cap, s);
    } else {
      StepOf(code, cap, s);
      if |s.stack| >= Need(code[s.pc]) {
        ActCases(code, s.pc, Operands(s, code[s.pc]), s.mem);
      }
      assert s.stack[..|s.stack|] == s.stack;
      assert s.stack + [] == s.stack;
    }
  }

  /** What DIV, SDIV, MOD and SMOD push: the quotient or the remainder towards zero, but for SMOD's
      wrong sign at the least word. */
  lemma DivisionMeans(op: Byte, a: Word, b: Word, mem: Memory.Bytes)
    requires 0x04 <= op <= 0x07 && DivisionDefined(a, b)
    ensures Division(op, a, b, mem) == Next([
      if op <= 0x05 then Quo(a, b)
      else if op == 0x07 && a == MIN_WORD && b > 0 then -Rem(a, b)
      else Rem(a, b)], mem)
  {
    hide Quo, Rem, Wrap, SDiv, SMod;
    QuoRem(a, b);
    QuoInRange(a, b);
    SDivIsQuo(a, b);
    SModIsRem(a, b);
  }

  /** DIV, SDIV, MOD and SMOD, with their tests for zero and their corrections of the sign. */
  method ComputeDivision(opcode: Byte, a: Word, b: Word, ghost mem: Memory.Bytes) returns (r: Computed)
    requires 0x04 <= opcode <= 0x07
    ensures ActionOf(r, mem) == Division(opcode, a, b, mem)
    ensures r.Invalid? <==> b == 0
    ensures r.Result? <==> DivisionDefined(a, b)
    ensures r.Result? && opcode <= 0x05 ==> r.value == Quo(a, b)
    ensures r.Result? && opcode >= 0x06 ==>
      r.value == if opcode == 0x07 && a == MIN_WORD && b > 0 then -Rem(a, b) else Rem(a, b)
  {
    hide Quo, Rem, Wrap;
    if b == 0 {
      return Invalid;
    }
    if !DivisionDefined(a, b) {
      return Meaningless;
    }
    DivisionMeans(opcode, a, b, mem);
    var result := 0;
    if opcode == 0x04 {
      result := Wrap(Quo(a, b));
    } else if opcode == 0x05 {
      result := Wrap(Quo(a, b));
      if (a < 0) != (b < 0) && Rem(a, b) != 0 {
        result := Wrap(-Quo(Wrap(-(Wrap(a - Rem(a, b)) as int)), b));
      }
    } else if opcode == 0x06 {
      result := Wrap(Rem(a, b));
    } else {
      result := Wrap(Rem(a, b));
      if (a < 0) != (b < 0) && Rem(a, b) != 0 {
        result := Wrap(Wrap(Quo(Wrap(-(a as int)), b) * b as int) as int + a as int);
      }
    }
    return Result(result);
  }

  predicate IsBinary(opcode: Byte)
  {
    0x01 <= opcode <= 0x07 || opcode == 0x0a
  }

  lemma BinaryUnderflow(code: Code, cap: nat, s: State)
    requires s.pc < |code| && IsBinary(code[s.pc])
    ensures |s.stack| < 2 ==> Step(code, cap, s) == Exited(Underflow)
  {
    hide Step;
    UnderflowStep(code, cap, s);
  }

  lemma BinaryStep(code: Code, cap: nat, s: State, rest: seq<Word>, a: Word, b: Word, result: Computed)
    requires s.pc < |code| && IsBinary(code[s.pc]) && s.stack == rest + [a, b]
    requires ActionOf(result, s.mem) == Arithmetic(code[s.pc], [a, b], s.mem)
    ensures Step(code, cap, s) == Settled(ActionOf(result, s.mem), cap, s.pc + 1, rest, s.mem)
  {
    hide Step, Arithmetic, Settled, ActionOf;
    ArithmeticStep(code, cap, s, rest, [a, b]);
  }

  /** The cases 0x01 to 0x07 and EXP. */
  method ComputeBinary(opcode: Byte, a: Word, b: Word, ghost mem: Memory.Bytes) returns (r: Computed)
    requires IsBinary(opcode)
    ensures ActionOf(r, mem) == Arithmetic(opcode, [a, b], mem)
    ensures opcode == 0x01 ==> r.Result? && Exp.Congruent(r.value, a as int + b as int)
    ensures opcode == 0x02 ==> r.Result? && Exp.Congruent(r.value, a as int * b as int)
    ensures opcode == 0x03 ==> r.Result? && Exp.Congruent(r.value, a as int - b as int)
  {
    hide Division, Wrap, Exp.Congruent;
    Exp.WrapCongruent(a as int + b as int);
    Exp.WrapCongruent(a as int * b as int);
    Exp.WrapCongruent(a as int - b as int);
    if opcode == 0x01 {
      r := Result(Wrap(a as int + b as int));
    } else if opcode == 0x02 {
      r := Result(Wrap(a as int * b as int));
    } else if opcode == 0x03 {
      r := Result(Wrap(a as int - b as int));
    } else if opcode == 0x0a {
      var power := Exp.Exponentiate(a, b);
      r := if power.Overflow? then Invalid else Result(power.value);
    } else {
      r := ComputeDivision(opcode, a, b, mem);
    }
  }

  function SumOrProduct(opcode: Byte, a: Word, b: Word): int
  {
    if opcode == 0x08 then a as int + b as int else a as int * b as int
  }

  /** ADDMOD and MULMOD reduce what is left of the sum or the product in a word. */
  method ComputeModular(opcode: Byte, a: Word, b: Word, c: Word, ghost mem: Memory.Bytes) returns (r: Computed)
    requires opcode == 0x08 || opcode == 0x09
    ensures ActionOf(r, mem) == Arithmetic(opcode, [a, b, c], mem)
    ensures r.Invalid? <==> c == 0
    ensures var x := SumOrProduct(opcode, a, b);
      && (r.Result? <==> DivisionDefined(Wrap(x), c))
      && (r.Result? ==> Quo(Wrap(x), c) * c + r.value == Wrap(x))
      && (r.Result? ==> Abs(r.value) < Abs(c) && (r.value == 0 || (r.value < 0 <==> Wrap(x) < 0)))
      && (r.Result? && InRange(x) ==> r.value == Rem(x, c))
  {
    hide Wrap, Rem, Quo;
    if c == 0 {
      return Invalid;
    }
    var x := if opcode == 0x08 then Wrap(a as int + b as int) else Wrap(a as int * b as int);
    if !DivisionDefined(x, c) {
      return Meaningless;
    }
    QuoRem(x, c);
    QuoInRange(x, c);
    return Result(Wrap(Rem(x, c)));
  }

  predicate IsComparison(opcode: Byte)
  {
    0x10 <= opcode <= 0x14 || 0x16 <= opcode <= 0x18 || 0x1a <= opcode <= 0x1d
  }

  lemma CompareUnderflow(code: Code, cap: nat, s: State)
    requires s.pc < |code| && IsComparison(code[s.pc])
    ensures |s.stack| < 2 ==> Step(code, cap, s) == Exited(Underflow)
  {
    hide Step;
    UnderflowStep(code, cap, s);
  }

  lemma CompareStep(code: Code, cap: nat, s: State, rest: seq<Word>, a: Word, b: Word, result: Computed)
    requires s.pc < |code| && IsComparison(code[s.pc]) && s.stack == rest + [a, b]
    requires ActionOf(result, s.mem) == Comparison(code[s.pc], [a, b], s.mem)
    ensures Step(code, cap, s) == Settled(ActionOf(result, s.mem), cap, s.pc + 1, rest, s.mem)
  {
    hide Step, Comparison, Settled, ActionOf;
    ComparisonStep(code, cap, s, rest, [a, b]);
  }

  /** The cases 0x10 to 0x1d with two operands; EQ, AND, OR and XOR pop `a` first, the others `b`, and
      `b` is a uint32_t in all of them. */
  method ComputeComparison(opcode: Byte, second: Word, first: Word, ghost mem: Memory.Bytes) returns (r: Computed)
    requires IsComparison(opcode)
    ensures ActionOf(r, mem) == Comparison(opcode, [second, first], mem)
    ensures 0x16 <= opcode <= 0x18 ==> r.Result? && IsCombination(KindOf(opcode), first, second, r.value)
    ensures opcode >= 0x1a ==> ShiftMeaning(opcode, second, Low32(first), r)
  {
    hide Wrap, Bitwise, ShiftRight, IsCombination, ShiftMeaning;
    if 0x16 <= opcode <= 0x18 {
      LogicIsCombination(opcode, [second, first], mem);
    }
    if opcode == 0x14 || 0x16 <= opcode <= 0x18 {
      var a, b := first, Low32(second);
      if opcode == 0x14 {
        return Result(if a == b then 1 else 0);
      }
      var kind := if opcode == 0x16 then And else if opcode == 0x17 then Or else Xor;
      return Result(Wrap(Bitwise(kind, Pattern(a), b, 64)));
    }
    var a, b := second, Low32(first);
    if opcode == 0x10 || opcode == 0x12 {
      return Result(if a < b then 1 else 0);
    }
    if opcode == 0x11 || opcode == 0x13 {
      return Result(if a > b then 1 else 0);
    }
    r := ComputeShift(opcode, a, b, mem);
  }

  /** BYTE's byte, SHL's product modulo 2^64, SHR's and SAR's quotient rounded down; what becomes of more
      places than there are, and where C says nothing. */
  ghost predicate ShiftMeaning(opcode: Byte, a: Word, b: nat, r: Computed)
  {
    if opcode == 0x1a then
      if b < 8 then r.Result? && IsByteAt(r.value, a, 8 * b)
      else if b < 32 then r.Meaningless?
      else r.Invalid?
    else if opcode == 0x1d && b > 63 then r == Result(if a < 0 then MIN_WORD else 0)
    else if b > 255 then r == Result(0)
    else if b > 63 then r.Meaningless?
    else if opcode == 0x1b then r.Result? && Exp.Congruent(r.value, a as int * Pow(2, b))
    else r.Result? && IsFloor(r.value, a, b)
  }

  /** BYTE, SHL, SHR and SAR */
  method ComputeShift(opcode: Byte, a: Word, b: nat, ghost mem: Memory.Bytes) returns (r: Computed)
    requires 0x1a <= opcode <= 0x1d
    ensures ActionOf(r, mem) == Shifts(opcode, a, b, mem)
    ensures ShiftMeaning(opcode, a, b, r)
  {
    hide Wrap, ShiftRight, Pow, IsFloor, IsByteAt, Exp.Congruent;
    if b <= (if opcode == 0x1a then 7 else 63) {
      ShiftsMean(opcode, a, b, mem);
    }
    if opcode == 0x1a {
      if b >= 32 {
        return Invalid;
      }
      return if b >= 8 then Meaningless else Result(Wrap(ShiftRight(a, 8 * b) % 256));
    }
    if opcode == 0x1d {
      return Result(if b > 63 then (if a < 0 then MIN_WORD else 0) else Wrap(ShiftRight(a, b)));
    }
    if b > 255 {
      return Result(0);
    }
    if b > 63 {
      return Meaningless;
    }
    return Result(if opcode == 0x1b then Wrap(a as int * Pow(2, b)) else Wrap(ShiftRight(a, b)));
  }

  /** What stack_swap writes back is the reversal of the block. */
  lemma SwapWritten(was: seq<Word>, now: seq<Word>, block: seq<Word>, x: nat)
    requires x < |was| == |now| && |block| == x + 1
    requires forall k :: 0 <= k <= x ==> block[k] == was[|was| - 1 - k]
    requires forall k :: 0 <= k < |was| - x - 1 ==> now[k] == was[k]
    requires forall k :: |was| - x - 1 <= k < |was| ==> now[k] == block[k - (|was| - x - 1)]
    ensures now == Swapped(was, x)
  {
    var n := |was| - x - 1;
    forall k | 0 <= k <= x ensures Reverse(was[n..])[k] == block[k] {
      ReverseAt(was[n..], k);
    }
    assert now[..n] == was[..n] && now[n..] == block == Reverse(was[n..]);
    assert now == now[..n] + now[n..];
  }

  class Stack {
    const size: nat
    var top: int
    const data: array<Word>
    const memory: array<Byte>

    ghost predicate Valid()
      reads this
    {
      -1 <= top < size == data.Length && memory.Length == 32 && data as object != memory as object
    }

    /** The elements, the top one last. */
    ghost function Contents(): (s: seq<Word>)
      requires Valid()
      reads this, data
      ensures |s| == top + 1 <= size
    {
      data[..top + 1]
    }

    ghost function Bytes(): Memory.Bytes
      requires Valid()
      reads this, memory
    {
      memory[..]
    }

    ghost function At(pc: nat): State
      requires Valid()
      reads this, data, memory
    {
      State(pc, Contents(), Bytes())
    }

    /** stack_create; memory is not initialised. */
    constructor (capacity: nat)
      ensures Valid() && fresh(data) && fresh(memory) && size == capacity && Contents() == []
    {
      size := capacity;
      top := -1;
      data := new Word[capacity];
      memory := new Byte[32];
    }

    /** stack_clear */
    method Clear()
      requires Valid()
      modifies this
      ensures Valid() && Contents() == []
    {
      top := -1;
    }

    /** stack_push */
    method Push(value: Word) returns (r: Pushed)
      requires Valid()
      modifies this, data
      ensures Valid() && Bytes() == old(Bytes())
      ensures r.Full? <==> |old(Contents())| >= size
      ensures r.Done? ==> Contents() == old(Contents()) + [value]
      ensures r.Full? ==> Contents() == old(Contents())
    {
      if top >= size - 1 {
        return Full;
      }
      top := top + 1;
      data[top] := value;
      return Done;
    }

    /** stack_pop */
    method Pop() returns (r: Popped)
      requires Valid()
      modifies this
      ensures Valid() && Bytes() == old(Bytes())
      ensures r.Empty? <==> |old(Contents())| == 0
      ensures r.Element? ==> old(Contents()) == Contents() + [r.value]
      ensures r.Empty? ==> Contents() == old(Contents())
    {
      if top < 0 {
        return Empty;
      }
      top := top - 1;
      return Element(data[top + 1]);
    }

    /** The two pops that most cases begin with: `b` from the top, then `a`. */
    method PopTwo() returns (r: PoppedPair)
      requires Valid()
      modifies this
      ensures Valid() && Bytes() == old(Bytes())
      ensures r.TooFew? <==> |old(Contents())| < 2
      ensures r.Pair? ==> old(Contents()) == Contents() + [r.a, r.b]
    {
      var b := Pop();
      if b.Empty? {
        return TooFew;
      }
      var a := Pop();
      if a.Empty? {
        return TooFew;
      }
      assert [a.value] + [b.value] == [a.value, b.value];
      return Pair(a.value, b.value);
    }

    /** The loop that copies the top elements into a temporary array, the top one first. */
    method CopyTop(n: nat) returns (a: array<Word>)
      requires Valid() && n <= top + 1
      ensures fresh(a) && a.Length == n
      ensures forall k :: 0 <= k < n ==> a[k] == Contents()[top - k]
    {
      a := new Word[n];
      for i := 0 to n
        invariant forall k :: 0 <= k < i ==> a[k] == Contents()[top - k]
      {
        a[i] := data[top - i];
      }
    }

    /** stack_dup: the top `x` elements are copied out, then pushed from the lowest. */
    method Dup(x: nat, pc: nat) returns (sig: Signal)
      requires Valid() && x > 0
      modifies this, data
      ensures Valid()
      ensures sig == if |old(Contents())| < x then Exit(Underflow)
                     else if |old(Contents())| + x > size then Exit(Overflow) else Go(pc)
      ensures sig.Go? ==> Contents() == Duplicated(old(Contents()), x)
    {
      hide Contents, Bytes;
      if top < x - 1 {
        return Exit(Underflow);
      }
      ghost var was := Contents();
      var a := CopyTop(x);
      var i := x - 1;
      while i >= 0
        invariant -1 <= i < x && Valid() && a.Length == x
        invariant forall k :: 0 <= k < x ==> a[k] == was[|was| - 1 - k]
        invariant Contents() == was + was[|was| - x..|was| - 1 - i]
      {
        :- Push(a[i]);
        assert was[|was| - x..|was| - i] == was[|was| - x..|was| - 1 - i] + [was[|was| - 1 - i]];
        i := i - 1;
      }
      return Go(pc);
    }

    /** The loop that writes a temporary array back over the top elements, its last element on top. */
    method WriteBack(a: array<Word>)
      requires Valid() && 0 < a.Length <= top + 1 && a != data
      modifies data
      ensures Valid()
      ensures forall k :: 0 <= k <= top - a.Length ==> data[k] == old(data[k])
      ensures forall k :: top - a.Length < k <= top ==> data[k] == a[k - (top + 1 - a.Length)]
    {
      var x := a.Length - 1;
      for i := 0 to x + 1
        invariant forall k :: 0 <= k <= top - i ==> data[k] == old(data[k])
        invariant forall k :: top - i < k <= top ==> data[k] == a[k - (top - x)]
      {
        data[top - i] := a[x - i];
      }
    }

    /** stack_swap: the top `x + 1` elements are copied out and written back in reverse. */
    method Swap(x: nat, pc: nat) returns (sig: Signal)
      requires Valid()
      modifies data
      ensures Valid()
      ensures sig == if |old(Contents())| <= x then Exit(Underflow) else Go(pc)
      ensures sig.Go? ==> Contents() == Swapped(old(Contents()), x)
    {
      hide Swapped, Reverse;
      if top < x {
        return Exit(Underflow);
      }
      ghost var was := Contents();
      var a := CopyTop(x + 1);
      WriteBack(a);
      SwapWritten(was, Contents(), a[..], x);
      return Go(pc);
    }

    /** The end of the cases that push one result. */
    method Finish(result: Computed, next: nat) returns (sig: Signal)
      requires Valid()
      modifies this, data
      ensures Valid()
      ensures OutcomeOf(sig, Contents(), Bytes()) ==
              Settled(ActionOf(result, old(Bytes())), size, next, old(Contents()), old(Bytes()))
    {
      if result.Invalid? {
        return Exit(BadData);
      }
      if result.Meaningless? {
        return Lost;
      }
      :- Push(result.value);
      return Go(next);
    }

    /** The cases that pop `b`, then `a`, and push a result: 0x01 to 0x07 and EXP. */
    method Binary(code: Code, pc: nat) returns (sig: Signal)
      requires Valid() && pc < |code| && IsBinary(code[pc])
      modifies this, data
      ensures Valid()
      ensures OutcomeOf(sig, Contents(), Bytes()) == Step(code, size, old(At(pc)))
    {
      ghost var s := At(pc);
      hide Step, Need, OutcomeOf, Arithmetic, Known, Settled, ActionOf, IsBinary, Contents, Bytes;
      BinaryUnderflow(code, size, s);
      ExitOutcome(Underflow, Contents(), Bytes());
      var popped :- PopTwo();
      var a, b := popped.0, popped.1;
      var result := ComputeBinary(code[pc], a, b, s.mem);
      BinaryStep(code, size, s, Contents(), a, b, result);
      sig := Finish(result, pc + 1);
    }

    /** ADDMOD and MULMOD pop `c`, then `b` and `a`. */
    method Modular(code: Code, pc: nat) returns (sig: Signal)
      requires Valid() && pc < |code| && (code[pc] == 0x08 || code[pc] == 0x09)
      modifies this, data
      ensures Valid()
      ensures OutcomeOf(sig, Contents(), Bytes()) == Step(code, size, old(At(pc)))
    {
      ghost var s := At(pc);
      hide Step;
      UnderflowStep(code, size, s);
      var c :- Pop();
      sig := ModularOf(code, pc, c, s);
    }

    method ModularOf(code: Code, pc: nat, c: Word, ghost s: State) returns (sig: Signal)
      requires Valid() && pc == s.pc < |code| && (code[pc] == 0x08 || code[pc] == 0x09)
      requires s.stack == Contents() + [c] && s.mem == Bytes()
      modifies this, data
      ensures Valid()
      ensures OutcomeOf(sig, Contents(), Bytes()) == Step(code, size, s)
    {
      hide Step, Act, Need, Arithmetic, Known, After, Operands, Settled, ActionOf, Contents, Bytes;
      OpcodeFacts(code[pc]);
      UnderflowStep(code, size, s);
      var popped :- PopTwo();
      var a, b := popped.0, popped.1;
      var result := ComputeModular(code[pc], a, b, c, s.mem);
      Joined(Contents(), a, b, c);
      ArithmeticStep(code, size, s, Contents(), [a, b, c]);
      sig := Finish(result, pc + 1);
    }

    /** The cases 0x10 to 0x1d with two operands check the height before they pop. */
    method Compare(code: Code, pc: nat) returns (sig: Signal)
      requires Valid() && pc < |code| && IsComparison(code[pc])
      modifies this, data
      ensures Valid()
      ensures OutcomeOf(sig, Contents(), Bytes()) == Step(code, size, old(At(pc)))
    {
      ghost var s := At(pc);
      hide Step, Need, Comparison, Known, Settled, ActionOf, IsComparison, Contents, Bytes;
      CompareUnderflow(code, size, s);
      if top < 1 {
        return Exit(Underflow);
      }
      var popped := PopTwo();
      var result := ComputeComparison(code[pc], popped.a, popped.b, s.mem);
      CompareStep(code, size, s, Contents(), popped.a, popped.b, result);
      sig := Finish(result, pc + 1);
    }

    /** ISZERO and NOT */
    method Unary(code: Code, pc: nat) returns (sig: Signal)
      requires Valid() && pc < |code| && (code[pc] == 0x15 || code[pc] == 0x19)
      modifies this, data
      ensures Valid()
      ensures OutcomeOf(sig, Contents(), Bytes()) == Step(code, size, old(At(pc)))
    {
      ghost var s := At(pc);
      hide Step, Act, Need, Comparison, Known, After, Operands, Settled, ActionOf, Contents, Bytes;
      OpcodeFacts(code[pc]);
      UnderflowStep(code, size, s);
      if top < 0 {
        return Exit(Underflow);
      }
      var popped := Pop();
      var a := popped.value;
      var result := if code[pc] == 0x15 then Result(if a == 0 then 1 else 0) else Result(Wrap(-(a as int) - 1));
      ComparisonStep(code, size, s, Contents(), [a]);
      sig := Finish(result, pc + 1);
    }

    /** SIGNEXTEND asks for three elements and pops two. */
    method Extend(code: Code, pc: nat) returns (sig: Signal)
      requires Valid() && pc < |code| && code[pc] == 0x0b
      modifies this, data
      ensures Valid()
      ensures OutcomeOf(sig, Contents(), Bytes()) == Step(code, size, old(At(pc)))
    {
      ghost var s := At(pc);
      hide Step, Act, Need, Known, After, Operands, SignExtend, Settled, Contents, Bytes;
      OpcodeFacts(code[pc]);
      UnderflowStep(code, size, s);
      if top < 2 {
        return Exit(Underflow);
      }
      var popped := PopTwo();
      ExtendStep(code, size, s, Contents(), popped.a, popped.b);
      sig := Finish(Result(SignExtend(popped.a, Low32(popped.b))), pc + 1);
    }

    /** MLOAD */
    method Load(code: Code, pc: nat) returns (sig: Signal)
      requires Valid() && pc < |code| && code[pc] == 0x51
      modifies this, data
      ensures Valid()
      ensures OutcomeOf(sig, Contents(), Bytes()) == Step(code, size, old(At(pc)))
    {
      ghost var s := At(pc);
      hide Step, Act, Need, Known, After, Operands, Contents, Bytes;
      OpcodeFacts(code[pc]);
      UnderflowStep(code, size, s);
      var a :- Pop();
      FlowStep(code, size, s, Contents(), [a]);
      if a < 0 || a >= 256 {
        return Return(0, Early);
      }
      var b := Memory.Drop(memory[a / 8], a % 8) % 256;
      sig := Finish(Result(b), pc + 1);
    }

    /** The masked write into the byte of bit offset `a`. */
    method WriteBits(a: Word, b: nat)
      requires Valid() && Memory.InMemory(a)
      modifies memory
      ensures Valid() && Bytes() == Memory.Store(old(Bytes()), a, b)
    {
      hide Memory.StoreByte;
      memory[a / 8] := Memory.StoreByte(memory[a / 8], b, a % 8);
    }

    /** MSTORE and MSTORE8, which cut the value to 32 and to 8 bits. */
    method Store(code: Code, pc: nat) returns (sig: Signal)
      requires Valid() && pc < |code| && (code[pc] == 0x52 || code[pc] == 0x53)
      modifies this, memory
      ensures Valid()
      ensures OutcomeOf(sig, Contents(), Bytes()) == Step(code, size, old(At(pc)))
    {
      ghost var s := At(pc);
      hide Step, Need, Known, Contents, Bytes, Memory.Store;
      StoreUnderflow(code, size, s);
      var popped :- PopTwo();
      var a, value := popped.0, popped.1;
      StoreStep(code, size, s, Contents(), a, value);
      if a < 0 || a >= 256 {
        return Return(-1, Early);
      }
      var b: nat := if code[pc] == 0x52 then Low32(value) else value as int % 256;
      WriteBits(a, b);
      return Go(pc + 1);
    }

    /** JUMP and JUMPI; JUMPI's condition is a uint32_t. */
    method JumpTo(code: Code, pc: nat) returns (sig: Signal)
      requires Valid() && pc < |code| && IsJump(code[pc])
      modifies this
      ensures Valid()
      ensures OutcomeOf(sig, Contents(), Bytes()) == Step(code, size, old(At(pc)))
    {
      ghost var s := At(pc);
      hide Step, Act, Flow, Need, Known, After, Operands, Contents, Bytes;
      OpcodeFacts(code[pc]);
      UnderflowStep(code, size, s);
      var a := 0;
      if code[pc] == 0x56 {
        a :- Pop();
        JumpStep(code, size, s, Contents(), [a]);
      } else {
        var popped :- PopTwo();
        a := popped.0;
        var b := popped.1;
        JumpStep(code, size, s, Contents(), [a, b]);
        if Low32(b) == 0 {
          return Go(pc + 1);
        }
      }
      if a < 0 || a >= |code| {
        return Return(-1, Early);
      }
      if code[a] != JUMPDEST {
        return Return(-1, Early);
      }
      return Go(a);
    }

    /** SLOAD and SSTORE pop their operands; what they then do has no meaning here. */
    method Storage(code: Code, pc: nat) returns (sig: Signal)
      requires Valid() && pc < |code| && (code[pc] == 0x54 || code[pc] == 0x55)
      modifies this
      ensures Valid()
      ensures OutcomeOf(sig, Contents(), Bytes()) == Step(code, size, old(At(pc)))
    {
      StorageStep(code, size, At(pc));
      hide Step;
      var first :- Pop();
      if code[pc] == 0x55 {
        var second :- Pop();
      }
      return Lost;
    }

    /** POP, once the stack is known not to be empty. */
    method Discard()
      requires Valid() && top >= 0
      modifies this
      ensures Valid() && Bytes() == old(Bytes())
      ensures Contents() == old(Contents()[..top])
    {
      top := top - 1;
    }

    /** POP, PC, MSIZE, PUSH0, and 0x5a and JUMPDEST, which do nothing. */
    method Plain(code: Code, pc: nat) returns (sig: Signal)
      requires Valid() && pc < |code| && IsPlain(code[pc])
      modifies this, data
      ensures Valid()
      ensures OutcomeOf(sig, Contents(), Bytes()) == Step(code, size, old(At(pc)))
    {
      hide Step, Known, Contents, Bytes;
      PlainStep(code, size, At(pc));
      var opcode := code[pc];
      if opcode == 0x50 {
        if top < 0 {
          return Exit(Underflow);
        }
        Discard();
      } else if opcode == 0x58 {
        :- Push(pc + 1);
      } else if opcode == 0x59 {
        :- Push(32 * 8);
      } else if opcode == 0x5f {
        :- Push(0);
      }
      return Go(pc + 1);
    }

    /** PUSH: each byte after the opcode is read, then pushed as a word. */
    method PushData(code: Code, pc: nat) returns (sig: Signal)
      requires Valid() && pc < |code| && IsPush(code[pc])
      modifies this, data
      ensures Valid()
      ensures OutcomeOf(sig, Contents(), Bytes()) == Step(code, size, old(At(pc)))
    {
      ghost var s := At(pc);
      var n := code[pc] - 95;
      hide Step, Data, IsPush, Contents, Bytes;
      PushStep(code, size, s);
      var next, i := pc + 1, 0;
      while i < n
        invariant i <= n && next == pc + 1 + i <= |code| && Valid() && Bytes() == s.mem
        invariant Contents() == s.stack + Data(code, pc + 1, i)
      {
        if next >= |code| {
          return Lost;
        }
        var byte := code[next];
        next := next + 1;
        :- Push(byte);
        DataNext(code, pc + 1, i);
        i := i + 1;
      }
      return Go(next);
    }

    /** stack_LOG: offset and size, then the topics, then the range of memory that would be printed. */
    method Log(topicCount: nat, code: Code, pc: nat) returns (sig: Signal)
      requires Valid() && pc < |code| && IsLog(code[pc]) && topicCount == code[pc] - 0xa0
      modifies this
      ensures Valid()
      ensures OutcomeOf(sig, Contents(), Bytes()) == Step(code, size, old(At(pc)))
    {
      ghost var s := At(pc);
      hide Step, IsLog, Contents, Bytes;
      LogStep(code, size, s);
      if top + 1 < topicCount + 2 {
        return Exit(Underflow);
      }
      var offset := Pop();
      var length := Pop();
      var topics := new Word[topicCount];
      for i := 0 to topicCount
        invariant Valid() && Bytes() == s.mem && Contents() == s.stack[..|s.stack| - 2 - i]
      {
        var topic := Pop();
        topics[i] := topic.value;
      }
      if offset.value < 0 || offset.value as int + length.value as int > 32 {
        return Exit(BadData);
      }
      return Go(pc + 1);
    }

    /** The opcodes without a case of their own: STOP, BALANCE, the empty cases and the unknown ones. */
    method Other(code: Code, pc: nat) returns (sig: Signal)
      requires Valid() && pc < |code| && IsOther(code[pc])
      ensures OutcomeOf(sig, Contents(), Bytes()) == Step(code, size, At(pc))
    {
      OtherStep(code, size, At(pc));
      hide Step;
      if code[pc] == STOP {
        return Return(top, Stopped);
      }
      if code[pc] == 0x31 && top < 0 {
        return Exit(Underflow);
      }
      return if Known(code[pc]) then Go(pc + 1) else Exit(BadOpcode);
    }

    /** The cases up to 0x1d: arithmetic and comparison. */
    method IterateLow(code: Code, pc: nat) returns (sig: Signal)
      requires Valid() && pc < |code| && code[pc] <= 0x1d
      modifies this, data
      ensures Valid()
      ensures OutcomeOf(sig, Contents(), Bytes()) == Step(code, size, old(At(pc)))
    {
      hide Step, OutcomeOf;
      var opcode := code[pc];
      if IsBinary(opcode) {
        sig := Binary(code, pc);
      } else if opcode == 0x08 || opcode == 0x09 {
        sig := Modular(code, pc);
      } else if opcode == 0x0b {
        sig := Extend(code, pc);
      } else if IsComparison(opcode) {
        sig := Compare(code, pc);
      } else if opcode == 0x15 || opcode == 0x19 {
        sig := Unary(code, pc);
      } else {
        sig := Other(code, pc);
      }
    }

    /** The cases from 0x50 to 0x5f: memory, jumps and constants. */
    method IterateMiddle(code: Code, pc: nat) returns (sig: Signal)
      requires Valid() && pc < |code| && (0x50 <= code[pc] <= 0x5b || code[pc] == 0x5f)
      modifies this, data, memory
      ensures Valid()
      ensures OutcomeOf(sig, Contents(), Bytes()) == Step(code, size, old(At(pc)))
    {
      hide Step, OutcomeOf;
      var opcode := code[pc];
      if opcode == 0x51 {
        sig := Load(code, pc);
      } else if opcode == 0x52 || opcode == 0x53 {
        sig := Store(code, pc);
      } else if IsJump(opcode) {
        sig := JumpTo(code, pc);
      } else if IsPlain(opcode) {
        sig := Plain(code, pc);
      } else {
        sig := Storage(code, pc);
      }
    }

    /** DUP and SWAP. */
    method Block(code: Code, pc: nat) returns (sig: Signal)
      requires Valid() && pc < |code| && (IsDup(code[pc]) || IsSwap(code[pc]))
      modifies this, data
      ensures Valid()
      ensures OutcomeOf(sig, Contents(), Bytes()) == Step(code, size, old(At(pc)))
    {
      if IsDup(code[pc]) {
        DupStep(code, size, At(pc));
        hide Step;
        sig := Dup(code[pc] - 127, pc + 1);
      } else {
        SwapStep(code, size, At(pc));
        hide Step;
        sig := Swap(code[pc] - 143, pc + 1);
      }
    }

    /** One iteration of execute_bytecode's loop, or the pop after it. */
    method Iterate(code: Code, pc: nat) returns (sig: Signal)
      requires Valid()
      modifies this, data, memory
      ensures Valid()
      ensures OutcomeOf(sig, Contents(), Bytes()) == Step(code, size, old(At(pc)))
      ensures pc >= |code| && |old(Contents())| == 0 ==> sig == Exit(Underflow)
      ensures pc >= |code| && |old(Contents())| > 0 ==>
        && sig.Return? && sig.ending == Popped && old(Contents())[|old(Contents())| - 1] == sig.value
        && Contents() == old(Contents())[..|old(Contents())| - 1]
    {
      if pc >= |code| {
        var value :- Pop();
        return Return(value, Popped);
      }
      hide Step, OutcomeOf;
      var opcode := code[pc];
      if opcode <= 0x1d {
        sig := IterateLow(code, pc);
      } else if 0x50 <= opcode <= 0x5b || opcode == 0x5f {
        sig := IterateMiddle(code, pc);
      } else if IsPush(opcode) {
        sig := PushData(code, pc);
      } else if IsDup(opcode) || IsSwap(opcode) {
        sig := Block(code, pc);
      } else if IsLog(opcode) {
        sig := Log(opcode - 160, code, pc);
      } else {
        sig := Other(code, pc);
      }
    }

    /** execute_bytecode, stopped after `steps` iterations if it is still going by then. */
    method Execute(code: Code, steps: nat) returns (sig: Signal)
      requires Valid()
      modifies this, data, memory
      ensures Valid()
      ensures OutcomeOf(sig, Contents(), Bytes()) == Run(code, size, old(At(0)), steps)
      ensures sig.Return? && sig.ending == Popped ==>
        PopsLast(code, size, old(At(0)), steps, sig.value, Contents(), Bytes())
    {
      ghost var s := At(0);
      hide Step, Run;
      RunNone(code, size, s);
      sig := Go(0);
      for i := 0 to steps
        invariant Valid() && sig.Go?
        invariant OutcomeOf(sig, Contents(), Bytes()) == Run(code, size, s, i)
      {
        RunOneMore(code, size, s, i);
        sig := Iterate(code, sig.pc);
        if !sig.Go? {
          RunStays(code, size, s, i + 1, steps);
          if sig.Return? && sig.ending == Popped {
            PoppedIsLast(code, size, s, steps, OutcomeOf(sig, Contents(), Bytes()));
          }
          return;
        }
      }
    }
  }
}
