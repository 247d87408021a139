/** One iteration of execute_bytecode as a step of a machine over a program counter, a bounded stack and
    32 bytes of memory. The class in Machine.dfy does the same in place. */
module Vm {
  import opened Positional
  import opened CTypes
  import opened Words
  import Exp
  import Memory

  type Code = c: seq<Byte> | |c| < 0x8000_0000_0000_0000

  /** The stack has its top at the end. */
  datatype State = State(pc: nat, stack: seq<Word>, mem: Memory.Bytes)

  datatype Reason = Underflow | Overflow | BadData | BadOpcode

  /** How a run returns: by STOP with the stack's top index, with an error value, or with the value
      popped when the program counter leaves the code. */
  datatype Ending = Stopped | Early | Popped

  datatype Outcome =
    | Running(state: State)
    | Returned(value: int, ending: Ending, stack: seq<Word>, mem: Memory.Bytes)
    | Exited(reason: Reason)
    | Stuck // C gives no meaning, or this model does not (SLOAD and SSTORE)

  // ---- Opcodes

  const STOP: Byte := 0x00
  const JUMPDEST: Byte := 0x5b

  predicate Known(op: Byte)
  {
    op <= 0x0b || 0x10 <= op <= 0x1e || 0x30 <= op <= 0x48 || 0x50 <= op <= 0x5b || 0x5f <= op <= 0xa4
    || 0xf0 <= op <= 0xf5 || op == 0xfa || 0xfd <= op
  }

  predicate IsPush(op: Byte) { 0x60 <= op <= 0x7f }

  predicate IsDup(op: Byte) { 0x80 <= op <= 0x8f }

  predicate IsSwap(op: Byte) { 0x90 <= op <= 0x9f }

  predicate IsLog(op: Byte) { 0xa0 <= op <= 0xa4 }

  predicate IsJump(op: Byte) { op == 0x56 || op == 0x57 }

  /** How many elements must be on the stack. */
  function Need(op: Byte): nat
  {
    if IsDup(op) then op - 0x7f
    else if IsSwap(op) then op - 0x8f + 1
    else if IsLog(op) then op - 0xa0 + 2
    else if op == 0x08 || op == 0x09 || op == 0x0b then 3
    else if 0x01 <= op <= 0x0a || 0x10 <= op <= 0x14 || 0x16 <= op <= 0x18 || 0x1a <= op <= 0x1d then 2
    else if op == 0x52 || op == 0x53 || op == 0x55 || op == 0x57 then 2
    else if op == 0x15 || op == 0x19 || op == 0x31 || op == 0x50 || op == 0x51 || op == 0x54 || op == 0x56 then 1
    else 0
  }

  /** How many of them are taken off: SIGNEXTEND takes two of three, BALANCE and DUP none. */
  function Pops(op: Byte): (n: nat)
    ensures n <= Need(op)
  {
    if op == 0x0b then 2 else if op == 0x31 || IsDup(op) then 0 else Need(op)
  }

  /** How many elements are put on. */
  function Pushes(op: Byte): nat
  {
    if IsPush(op) then op - 0x5f
    else if IsDup(op) then op - 0x7f
    else if IsSwap(op) then op - 0x8f + 1
    else if 0x01 <= op <= 0x0b || 0x10 <= op <= 0x1d || op == 0x51 || op == 0x54 then 1
    else if op == 0x58 || op == 0x59 || op == 0x5f then 1
    else 0
  }

  /** How many bytes the instruction takes: PUSH is followed by its data. */
  function Length(op: Byte): (n: nat)
    ensures n >= 1
  {
    if IsPush(op) then 1 + (op - 0x5f) else 1
  }

  // ---- What an instruction does with the elements it needs, the top one last

  datatype Action =
    | Next(pushes: seq<Word>, mem: Memory.Bytes)
    | Goto(dest: nat)
    | Stop
    | Halt(value: int)
    | Fail
    | Undefined

  /** DIV, SDIV, MOD and SMOD */
  function Division(op: Byte, a: Word, b: Word, mem: Memory.Bytes): Action
    requires 0x04 <= op <= 0x07
  {
    if b == 0 then Fail
    else if !DivisionDefined(a, b) then Undefined
    else if op == 0x04 then Next([Wrap(Quo(a, b))], mem)
    else if op == 0x05 then Next([SDiv(a, b)], mem)
    else if op == 0x06 then Next([Wrap(Rem(a, b))], mem)
    else Next([SMod(a, b)], mem)
  }

  function Arithmetic(op: Byte, args: seq<Word>, mem: Memory.Bytes): Action
    requires 0x01 <= op <= 0x0b && |args| == Need(op)
  {
    var a, b := args[0] as int, args[1] as int;
    if op == 0x01 then Next([Wrap(a + b)], mem)
    else if op == 0x02 then Next([Wrap(a * b)], mem)
    else if op == 0x03 then Next([Wrap(a - b)], mem)
    else if op <= 0x07 then Division(op, args[0], args[1], mem)
    else if op <= 0x09 then
      var x := if op == 0x08 then Wrap(a + b) else Wrap(a * b);
      if args[2] == 0 then Fail
      else if !DivisionDefined(x, args[2]) then Undefined
      else Next([Wrap(Rem(x, args[2]))], mem)
    else if op == 0x0a then
      match Exp.Loop(1, args[0], b)
      case Overflow => Fail
      case Power(value) => Next([value], mem)
    else
      Next([SignExtend(b, Low32(args[2]))], mem)
  }

  /** SIGNEXTEND keeps the low bits of `a` if bit 31 of `b` is set, and does nothing otherwise. */
  function SignExtend(a: int, b: nat): Word
  {
    if b >= 0x8000_0000 then Wrap(Memory.Low(Low32(a), b % 32)) else Wrap(a)
  }

  datatype BitKind = And | Or | Xor

  function Combine(kind: BitKind, x: bool, y: bool): bool
  {
    match kind
    case And => x && y
    case Or => x || y
    case Xor => x != y
  }

  function Bitwise(kind: BitKind, x: nat, y: nat, n: nat): nat
  {
    if n == 0 then 0
    else (if Combine(kind, x % 2 == 1, y % 2 == 1) then 1 else 0) + 2 * Bitwise(kind, x / 2, y / 2, n - 1)
  }

  /** The bit pattern of a word. */
  function Pattern(a: int): nat
  {
    a % 0x1_0000_0000_0000_0000
  }

  /** `a >> n`, keeping the sign */
  function ShiftRight(a: int, n: nat): int
    decreases n
  {
    if n == 0 then a else ShiftRight(a / 2, n - 1)
  }

  function Flag(b: bool): Word
  {
    if b then 1 else 0
  }

  /** 0x10 to 0x1d. The second operand has been cut to 32 bits, whichever order the two are taken in. */
  function Comparison(op: Byte, args: seq<Word>, mem: Memory.Bytes): Action
    requires 0x10 <= op <= 0x1d && |args| == Need(op)
  {
    var a := args[0] as int;
    if op == 0x15 then Next([Flag(a == 0)], mem)
    else if op == 0x19 then Next([Wrap(-a - 1)], mem)
    else
      var top := args[1] as int;
      if op == 0x10 || op == 0x12 then Next([Flag(a < Low32(top))], mem)
      else if op == 0x11 || op == 0x13 then Next([Flag(a > Low32(top))], mem)
      else if op == 0x14 then Next([Flag(top == Low32(a))], mem)
      else if op == 0x16 then Next([Wrap(Bitwise(And, Pattern(top), Low32(a), 64))], mem)
      else if op == 0x17 then Next([Wrap(Bitwise(Or, Pattern(top), Low32(a), 64))], mem)
      else if op == 0x18 then Next([Wrap(Bitwise(Xor, Pattern(top), Low32(a), 64))], mem)
      else Shifts(op, a, Low32(top), mem)
  }

  /** BYTE, SHL, SHR and SAR; C leaves a shift by 64 or more undefined. */
  function Shifts(op: Byte, a: int, b: nat, mem: Memory.Bytes): Action
    requires 0x1a <= op <= 0x1d
  {
    if op == 0x1a then
      if b >= 32 then Fail
      else if b >= 8 then Undefined
      else Next([Wrap(ShiftRight(a, 8 * b) % 256)], mem)
    else if op == 0x1d then
      if b > 63 then Next([if a < 0 then MIN_WORD else 0], mem) else Next([Wrap(ShiftRight(a, b))], mem)
    else if b > 255 then Next([0], mem)
    else if b > 63 then Undefined
    else if op == 0x1b then Next([Wrap(a * Pow(2, b))], mem)
    else Next([Wrap(ShiftRight(a, b))], mem)
  }

  /** 0x50 to 0x5f without PUSH data: POP, memory, jumps, PC, MSIZE, JUMPDEST and PUSH0. */
  function Flow(code: Code, pc: nat, args: seq<Word>, mem: Memory.Bytes): Action
    requires pc < |code| && (0x50 <= code[pc] <= 0x5b || code[pc] == 0x5f) && |args| == Need(code[pc])
  {
    var op := code[pc];
    if op == 0x51 then
      if Memory.InMemory(args[0]) then Next([Wrap(Memory.Load(mem, args[0]) % 256)], mem) else Halt(0)
    else if op == 0x52 then
      if Memory.InMemory(args[0]) then Next([], Memory.Store(mem, args[0], Low32(args[1]))) else Halt(-1)
    else if op == 0x53 then
      if Memory.InMemory(args[0]) then Next([], Memory.Store(mem, args[0], args[1] as int % 256)) else Halt(-1)
    else if op == 0x54 || op == 0x55 then Undefined
    else if op == 0x56 then Jump(code, args[0])
    else if op == 0x57 then
      if Low32(args[1]) != 0 then Jump(code, args[0]) else Next([], mem)
    else if op == 0x58 then Next([pc + 1], mem)
    else if op == 0x59 then Next([Memory.BITS], mem)
    else if op == 0x5f then Next([0], mem)
    else Next([], mem)
  }

  function Jump(code: Code, dest: int): Action
  {
    if 0 <= dest < |code| && code[dest] == JUMPDEST then Goto(dest) else Halt(-1)
  }

  /** LOG reads `size` bytes of memory from `offset`, both on top of the topics. */
  function Log(args: seq<Word>, mem: Memory.Bytes): Action
    requires |args| >= 2
  {
    var offset, size := args[|args| - 1] as int, args[|args| - 2] as int;
    if offset < 0 || offset + size > 32 then Fail else Next([], mem)
  }

  function Reverse(s: seq<Word>): (r: seq<Word>)
    ensures |r| == |s|
  {
    if |s| == 0 then [] else Reverse(s[1..]) + [s[0]]
  }

  /** The bytes after a PUSH, each a word of its own. */
  function Data(code: Code, from: nat, n: nat): (ws: seq<Word>)
    requires from + n <= |code|
    ensures |ws| == n
  {
    seq(n, i requires 0 <= i < n => code[from + i] as Word)
  }

  function Act(code: Code, pc: nat, args: seq<Word>, mem: Memory.Bytes): (act: Action)
    requires pc < |code| && Known(code[pc]) && |args| == Need(code[pc])
    ensures act.Next? ==> |act.pushes| == Pushes(code[pc])
  {
    var op := code[pc];
    if op == STOP then Stop
    else if op <= 0x0b then Arithmetic(op, args, mem)
    else if 0x10 <= op <= 0x1d then Comparison(op, args, mem)
    else if 0x50 <= op <= 0x5b || op == 0x5f then Flow(code, pc, args, mem)
    else if IsPush(op) then
      if pc + Length(op) <= |code| then Next(Data(code, pc + 1, op - 0x5f), mem) else Undefined
    else if IsDup(op) then Next(args, mem)
    else if IsSwap(op) then Next(Reverse(args), mem)
    else if IsLog(op) then Log(args, mem)
    else Next([], mem)
  }

  // ---- Steps

  /** PUSH reads and pushes byte by byte, so the stack may overflow before the code runs out. */
  predicate PushOverflows(code: Code, cap: nat, s: State)
    requires s.pc < |code|
  {
    IsPush(code[s.pc]) && cap - |s.stack| < Pushes(code[s.pc]) && cap - |s.stack| < |code| - s.pc - 1
  }

  /** The elements that an instruction needs, the top one last. */
  function Operands(s: State, op: Byte): (args: seq<Word>)
    requires |s.stack| >= Need(op)
    ensures |args| == Need(op)
  {
    s.stack[|s.stack| - Need(op)..]
  }

  /** What an action makes of the state. */
  function After(cap: nat, s: State, op: Byte, act: Action): Outcome
    requires |s.stack| >= Need(op)
  {
    var rest := s.stack[..|s.stack| - Pops(op)];
    match act
    case Stop => Returned(|s.stack| - 1, Stopped, s.stack, s.mem)
    case Halt(value) => Returned(value, Early, rest, s.mem)
    case Fail => Exited(BadData)
    case Undefined => Stuck
    case Goto(dest) => Running(State(dest, rest, s.mem))
    case Next(pushes, mem) =>
      if |rest| + |pushes| > cap then Exited(Overflow)
      else Running(State(s.pc + Length(op), rest + pushes, mem))
  }

  /** One iteration of the loop, or the pop after it. */
  function Step(code: Code, cap: nat, s: State): Outcome
  {
    var h := |s.stack|;
    if s.pc >= |code| then
      if h == 0 then Exited(Underflow) else Returned(s.stack[h - 1], Popped, s.stack[..h - 1], s.mem)
    else
      var op := code[s.pc];
      if !Known(op) then Exited(BadOpcode)
      else if h < Need(op) then Exited(Underflow)
      else if PushOverflows(code, cap, s) then Exited(Overflow)
      else After(cap, s, op, Act(code, s.pc, Operands(s, op), s.mem))
  }

  /** The outcome after at most `k` steps. */
  function Run(code: Code, cap: nat, s: State, k: nat): Outcome
    decreases k
  {
    if k == 0 then Running(s) else
      var o := Step(code, cap, s);
      if o.Running? then Run(code, cap, o.state, k - 1) else o
  }

  /** Act by kinds of opcode, for proofs that are not about what the instructions compute. */
  lemma ActCases(code: Code, pc: nat, args: seq<Word>, mem: Memory.Bytes)
    requires pc < |code| && Known(code[pc]) && |args| == Need(code[pc])
    ensures var op, act := code[pc], Act(code, pc, args, mem);
      && (op == STOP <==> act.Stop?)
      && (0x01 <= op <= 0x0b ==> act == Arithmetic(op, args, mem))
      && (0x10 <= op <= 0x1d ==> act == Comparison(op, args, mem))
      && (0x50 <= op <= 0x5b || op == 0x5f ==> act == Flow(code, pc, args, mem))
      && (IsPush(op) ==>
          act == if pc + Length(op) <= |code| then Next(Data(code, pc + 1, op - 0x5f), mem) else Undefined)
      && (IsDup(op) ==> act == Next(args, mem))
      && (IsSwap(op) ==> act == Next(Reverse(args), mem))
      && (IsLog(op) ==> act == Log(args, mem))
      && (0x1e <= op <= 0x4f || 0xf0 <= op ==> act == Next([], mem))
  {
    hide SignExtend, Reverse, Wrap, SDiv, SMod, Quo, Rem, ShiftRight, Bitwise, Data;
  }

  /** The action of a step that goes on. */
  lemma StepRuns(code: Code, cap: nat, s: State)
    requires Step(code, cap, s).Running?
    ensures s.pc < |code| && Known(code[s.pc]) && |s.stack| >= Need(code[s.pc])
    ensures var act := Act(code, s.pc, Operands(s, code[s.pc]), s.mem);
      && (act.Goto? || act.Next?)
      && Step(code, cap, s) == After(cap, s, code[s.pc], act)
  {
    hide Act;
  }

  /** The step of a known opcode other than PUSH: underflow, or what its action makes of the state. */
  lemma StepOf(code: Code, cap: nat, s: State)
    requires s.pc < |code| && Known(code[s.pc]) && !IsPush(code[s.pc])
    ensures |s.stack| < Need(code[s.pc]) ==> Step(code, cap, s) == Exited(Underflow)
    ensures |s.stack| >= Need(code[s.pc]) ==>
      Step(code, cap, s) == After(cap, s, code[s.pc], Act(code, s.pc, Operands(s, code[s.pc]), s.mem))
  {
    hide Act, After;
  }

  lemma ActStops(code: Code, pc: nat, args: seq<Word>, mem: Memory.Bytes)
    requires pc < |code| && Known(code[pc]) && |args| == Need(code[pc])
    ensures Act(code, pc, args, mem).Stop? <==> code[pc] == STOP
  {
    hide Act;
    ActCases(code, pc, args, mem);
  }

  /** Only the jumps leave the line, and only for a byte 0x5b inside the code. */
  lemma ActGoesToJumpdest(code: Code, pc: nat, args: seq<Word>, mem: Memory.Bytes)
    requires pc < |code| && Known(code[pc]) && |args| == Need(code[pc])
    requires Act(code, pc, args, mem).Goto?
    ensures IsJump(code[pc])
    ensures var dest := Act(code, pc, args, mem).dest; dest < |code| && code[dest] == JUMPDEST
  {
  }

  /** The stack stays within its capacity. */
  lemma {:induction false} RunKeepsBound(code: Code, cap: nat, s: State, k: nat)
    requires |s.stack| <= cap
    ensures Run(code, cap, s, k).Running? ==> |Run(code, cap, s, k).state.stack| <= cap
    decreases k
  {
    hide Act, Step;
    if k > 0 && Step(code, cap, s).Running? {
      StepRuns(code, cap, s);
      RunKeepsBound(code, cap, Step(code, cap, s).state, k - 1);
    }
  }

  lemma RunNone(code: Code, cap: nat, s: State)
    ensures Run(code, cap, s, 0) == Running(s)
  {
  }

  /** One step more, at the end of a run. */
  lemma {:induction false} RunOneMore(code: Code, cap: nat, s: State, k: nat)
    ensures Run(code, cap, s, k + 1) ==
            if Run(code, cap, s, k).Running? then Step(code, cap, Run(code, cap, s, k).state) else Run(code, cap, s, k)
    decreases k
  {
    hide Step;
    var o := Step(code, cap, s);
    if k == 0 {
      assert Run(code, cap, s, 1) == if o.Running? then Run(code, cap, o.state, 0) else o;
    } else if o.Running? {
      RunOneMore(code, cap, o.state, k - 1);
    }
  }

  /** An outcome is final. */
  lemma {:induction false} RunStays(code: Code, cap: nat, s: State, j: nat, k: nat)
    requires j <= k && !Run(code, cap, s, j).Running?
    ensures Run(code, cap, s, k) == Run(code, cap, s, j)
    decreases j
  {
    hide Step;
    if Step(code, cap, s).Running? {
      RunStays(code, cap, Step(code, cap, s).state, j - 1, k - 1);
    }
  }
}
