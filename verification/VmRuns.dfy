/** What holds of every run of the machine: frames, control flow, length and memory. */
module VmRuns {
  import opened CTypes
  import opened Words
  import opened Vm
  import Memory

  // ---- Frames: elements below a run's own stack

  function Under(base: seq<Word>, s: State): State
  {
    s.(stack := base + s.stack)
  }

  /** The outcome of a run that has `base` below its stack. Only STOP, which returns the index of the
      top, tells the difference. */
  function UnderOutcome(base: seq<Word>, o: Outcome): Outcome
  {
    match o
    case Running(s) => Running(Under(base, s))
    case Returned(value, ending, stack, mem) =>
      Returned(if ending == Stopped then value + |base| else value, ending, base + stack, mem)
    case Exited(reason) => o
    case Stuck => o
  }

  lemma AfterFrame(cap: nat, s: State, op: Byte, act: Action, base: seq<Word>)
    requires |s.stack| >= Need(op)
    ensures After(cap + |base|, Under(base, s), op, act) == UnderOutcome(base, After(cap, s, op, act))
    ensures Operands(Under(base, s), op) == Operands(s, op)
  {
    var h, n := |s.stack|, |base|;
    var rest := s.stack[..h - Pops(op)];
    assert (base + s.stack)[..n + h - Pops(op)] == base + rest;
    if act.Next? {
      assert base + rest + act.pushes == base + (rest + act.pushes);
    }
  }

  lemma StepFrame(code: Code, cap: nat, s: State, base: seq<Word>)
    requires Step(code, cap, s) != Exited(Underflow)
    ensures Step(code, cap + |base|, Under(base, s)) == UnderOutcome(base, Step(code, cap, s))
  {
    hide Act, After, Operands;
    if s.pc >= |code| {
      assert (base + s.stack)[..|base| + |s.stack| - 1] == base + s.stack[..|s.stack| - 1];
    } else if Known(code[s.pc]) {
      var op := code[s.pc];
      AfterFrame(cap, s, op, Act(code, s.pc, Operands(s, op), s.mem), base);
    }
  }

  /** A run that does not underflow does the same on top of any other elements, jumps included. */
  lemma {:induction false} RunFrame(code: Code, cap: nat, s: State, base: seq<Word>, k: nat)
    requires Run(code, cap, s, k) != Exited(Underflow)
    ensures Run(code, cap + |base|, Under(base, s), k) == UnderOutcome(base, Run(code, cap, s, k))
    decreases k
  {
    hide Step;
    if k > 0 {
      StepFrame(code, cap, s, base);
      if Step(code, cap, s).Running? {
        RunFrame(code, cap, Step(code, cap, s).state, base, k - 1);
      }
    }
  }

  // ---- How runs return

  /** The step with which a run returned. */
  lemma {:induction false} LastStep(code: Code, cap: nat, s: State, k: nat) returns (i: nat)
    requires Run(code, cap, s, k).Returned?
    ensures i < k && Run(code, cap, s, i).Running?
    ensures Step(code, cap, Run(code, cap, s, i).state) == Run(code, cap, s, k)
    decreases k
  {
    hide Step;
    RunOneMore(code, cap, s, k - 1);
    if Run(code, cap, s, k - 1).Running? {
      i := k - 1;
    } else {
      i := LastStep(code, cap, s, k - 1);
    }
  }

  /** Whether the first `k` steps come to a state behind the code with `v` on top of `rest`, and one step more. */
  ghost predicate PopsLast(code: Code, cap: nat, s: State, k: nat, v: int, rest: seq<Word>, mem: Memory.Bytes)
  {
    exists i: nat, t: State ::
      && i < k && Run(code, cap, s, i) == Running(t) && t.pc >= |code| && t.mem == mem
      && |t.stack| > 0 && t.stack[|t.stack| - 1] == v && t.stack[..|t.stack| - 1] == rest
  }

  /** A run returns by the pop behind the code exactly if it comes to the end of the code with an element left,
      and what it returns is the top one. */
  lemma PoppedIsLast(code: Code, cap: nat, s: State, k: nat, o: Outcome)
    requires o.Returned? && o.ending == Popped
    ensures Run(code, cap, s, k) == o <==> PopsLast(code, cap, s, k, o.value, o.stack, o.mem)
  {
    hide Run;
    if Run(code, cap, s, k) == o {
      var i := LastStep(code, cap, s, k);
      var t := Run(code, cap, s, i).state;
      OnlyTheEndPops(code, cap, t);
      assert Run(code, cap, s, i) == Running(t);
    }
    hide Step;
    if PopsLast(code, cap, s, k, o.value, o.stack, o.mem) {
      var i: nat, t: State :|
        && i < k && Run(code, cap, s, i) == Running(t) && t.pc >= |code| && t.mem == o.mem
        && |t.stack| > 0 && t.stack[|t.stack| - 1] == o.value && t.stack[..|t.stack| - 1] == o.stack;
      EndPops(code, cap, t);
      RunOneMore(code, cap, s, i);
      RunStays(code, cap, s, i + 1, k);
    }
  }

  lemma EndPops(code: Code, cap: nat, t: State)
    requires t.pc >= |code| && |t.stack| > 0
    ensures Step(code, cap, t) == Returned(t.stack[|t.stack| - 1], Popped, t.stack[..|t.stack| - 1], t.mem)
  {
  }

  lemma OnlyTheEndPops(code: Code, cap: nat, t: State)
    requires Step(code, cap, t).Returned? && Step(code, cap, t).ending == Popped
    ensures t.pc >= |code| && |t.stack| > 0
    ensures Step(code, cap, t) == Returned(t.stack[|t.stack| - 1], Popped, t.stack[..|t.stack| - 1], t.mem)
  {
    hide Act;
  }

  // ---- Control flow

  /** Whether decoding from `from` on arrives at `pc`. */
  ghost predicate Decodes(code: Code, from: nat, pc: nat)
    decreases pc - from
  {
    from == pc || (from < |code| && from < pc && Decodes(code, from + Length(code[from]), pc))
  }

  lemma {:induction false} DecodesNext(code: Code, from: nat, pc: nat)
    requires Decodes(code, from, pc) && pc < |code|
    ensures Decodes(code, from, pc + Length(code[pc]))
    decreases pc - from
  {
    if from != pc {
      DecodesNext(code, from + Length(code[from]), pc);
    }
  }

  /** A start of decoding that a run can have: the first byte or a byte 0x5b. */
  predicate Entry(code: Code, from: nat)
  {
    from == 0 || (from < |code| && code[from] == JUMPDEST)
  }

  ghost predicate OnChain(code: Code, pc: nat)
  {
    exists from :: Entry(code, from) && Decodes(code, from, pc)
  }

  lemma StepOnChain(code: Code, cap: nat, s: State)
    requires OnChain(code, s.pc) && Step(code, cap, s).Running?
    ensures OnChain(code, Step(code, cap, s).state.pc)
  {
    hide Act, Step;
    StepRuns(code, cap, s);
    var pc := Step(code, cap, s).state.pc;
    var args := Operands(s, code[s.pc]);
    if Act(code, s.pc, args, s.mem).Goto? {
      ActGoesToJumpdest(code, s.pc, args, s.mem);
      assert Entry(code, pc) && Decodes(code, pc, pc);
    } else {
      var from :| Entry(code, from) && Decodes(code, from, s.pc);
      DecodesNext(code, from, s.pc);
      assert Entry(code, from) && Decodes(code, from, pc);
    }
  }

  /** Every program counter that a run reaches is decoded from the start of the code or from a byte 0x5b,
      which need not be an instruction: it may be data of a PUSH. */
  lemma {:induction false} RunOnChain(code: Code, cap: nat, s: State, k: nat)
    requires OnChain(code, s.pc)
    ensures Run(code, cap, s, k).Running? ==> OnChain(code, Run(code, cap, s, k).state.pc)
    decreases k
  {
    hide Step;
    if k > 0 && Step(code, cap, s).Running? {
      StepOnChain(code, cap, s);
      RunOnChain(code, cap, Step(code, cap, s).state, k - 1);
    }
  }

  /** Whether every byte 0x5b is an instruction. */
  ghost predicate DestsDecoded(code: Code)
  {
    forall pc :: 0 <= pc < |code| && code[pc] == JUMPDEST ==> Decodes(code, 0, pc)
  }

  /** Decoding from the start ends exactly at the end of the code, and every byte 0x5b is an instruction. */
  ghost predicate WellFormed(code: Code)
  {
    Decodes(code, 0, |code|) && DestsDecoded(code)
  }

  /** Two decodings from one place meet: the one that is behind arrives at the other. */
  lemma {:induction false} DecodesOrdered(code: Code, from: nat, p: nat, q: nat)
    requires Decodes(code, from, p) && Decodes(code, from, q) && p <= q
    ensures Decodes(code, p, q)
    decreases q - from
  {
    if from != p {
      DecodesOrdered(code, from + Length(code[from]), p, q);
    }
  }

  lemma StepStaysInCode(code: Code, cap: nat, s: State)
    requires WellFormed(code) && Decodes(code, 0, s.pc) && s.pc <= |code| && Step(code, cap, s).Running?
    ensures var pc := Step(code, cap, s).state.pc; Decodes(code, 0, pc) && pc <= |code|
  {
    hide Act, Step;
    StepRuns(code, cap, s);
    var args := Operands(s, code[s.pc]);
    if Act(code, s.pc, args, s.mem).Goto? {
      ActGoesToJumpdest(code, s.pc, args, s.mem);
    } else {
      DecodesOrdered(code, 0, s.pc, |code|);
      DecodesNext(code, 0, s.pc);
    }
  }

  /** In well-formed code every reached program counter is an instruction boundary, and no opcode or
      PUSH data is read beyond the end. */
  lemma {:induction false} RunStaysInCode(code: Code, cap: nat, s: State, k: nat)
    requires WellFormed(code) && Decodes(code, 0, s.pc) && s.pc <= |code|
    ensures var o := Run(code, cap, s, k);
      o.Running? ==> Decodes(code, 0, o.state.pc) && o.state.pc <= |code| && !ReadsBeyond(code, o.state.pc)
    decreases k
  {
    hide Step;
    DecodesOrdered(code, 0, s.pc, |code|);
    if k > 0 && Step(code, cap, s).Running? {
      StepStaysInCode(code, cap, s);
      RunStaysInCode(code, cap, Step(code, cap, s).state, k - 1);
    }
  }

  /** Whether no jump is an instruction that a stack of capacity `cap` has the operands for. */
  ghost predicate NoJumpDecoded(code: Code, cap: nat)
  {
    forall pc :: 0 <= pc < |code| && Decodes(code, 0, pc) ==> !(IsJump(code[pc]) && Need(code[pc]) <= cap)
  }

  /** Whether runs from instructions reach nothing but instructions. */
  ghost predicate StaysOnInstructions(code: Code, cap: nat)
  {
    forall s: State, k: nat :: Decodes(code, 0, s.pc) && |s.stack| <= cap && Run(code, cap, s, k).Running? ==>
      Decodes(code, 0, Run(code, cap, s, k).state.pc)
  }

  lemma StepStaysOnInstructions(code: Code, cap: nat, s: State)
    requires DestsDecoded(code) || NoJumpDecoded(code, cap)
    requires Decodes(code, 0, s.pc) && |s.stack| <= cap && Step(code, cap, s).Running?
    ensures Decodes(code, 0, Step(code, cap, s).state.pc) && |Step(code, cap, s).state.stack| <= cap
  {
    hide Act, Step, Decodes;
    StepRuns(code, cap, s);
    var args := Operands(s, code[s.pc]);
    if Act(code, s.pc, args, s.mem).Goto? {
      ActGoesToJumpdest(code, s.pc, args, s.mem);
    } else {
      DecodesNext(code, 0, s.pc);
    }
  }

  lemma {:induction false} RunStaysOnInstructions(code: Code, cap: nat, s: State, k: nat)
    requires DestsDecoded(code) || NoJumpDecoded(code, cap)
    requires Decodes(code, 0, s.pc) && |s.stack| <= cap && Run(code, cap, s, k).Running?
    ensures Decodes(code, 0, Run(code, cap, s, k).state.pc)
    decreases k
  {
    hide Step, Decodes, DestsDecoded, NoJumpDecoded;
    if k > 0 {
      StepStaysOnInstructions(code, cap, s);
      RunStaysOnInstructions(code, cap, Step(code, cap, s).state, k - 1);
    }
  }

  /** The operands with which the jump at `p` goes to `d`. */
  function Leaping(code: Code, p: nat, d: nat, mem: Memory.Bytes): State
    requires p < |code| && d < |code|
  {
    State(p, if code[p] == 0x56 then [d] else [d, 1], mem)
  }

  lemma LeapStep(code: Code, cap: nat, p: nat, d: nat, mem: Memory.Bytes)
    requires p < |code| && IsJump(code[p]) && d < |code| && code[d] == JUMPDEST
    ensures Step(code, cap, Leaping(code, p, d, mem)) == Running(State(d, [], mem))
  {
    hide Act, Step, Arithmetic, Comparison, Memory.Load, Memory.Store, Wrap;
    var s := Leaping(code, p, d, mem);
    StepOf(code, cap, s);
    ActCases(code, p, s.stack, mem);
    assert Operands(s, code[p]) == s.stack;
    assert s.stack[..0] == [];
  }

  lemma Leaps(code: Code, cap: nat, p: nat, d: nat, mem: Memory.Bytes)
    requires p < |code| && IsJump(code[p]) && d < |code| && code[d] == JUMPDEST
    ensures Run(code, cap, Leaping(code, p, d, mem), 1) == Running(State(d, [], mem))
  {
    hide Act, Step, Need;
    LeapStep(code, cap, p, d, mem);
    assert Run(code, cap, State(d, [], mem), 0) == Running(State(d, [], mem));
  }

  lemma PushOneStep(code: Code, cap: nat, s: State)
    requires s.pc + 1 < |code| && code[s.pc] == 0x60 && |s.stack| < cap
    ensures Step(code, cap, s) == Running(State(s.pc + 2, s.stack + [code[s.pc + 1]], s.mem))
  {
    hide Act;
    ActCases(code, s.pc, [], s.mem);
    assert Operands(s, 0x60) == [];
    assert Data(code, s.pc + 1, 1) == [code[s.pc + 1]];
    assert s.stack[..|s.stack|] == s.stack;
  }

  /** A jump may lead into the data of a PUSH: here to the byte 0x5b that the PUSH1 after the jump has. */
  lemma JumpIntoData(cap: nat, mem: Memory.Bytes)
    requires cap >= 1
    ensures var code: Code := [0x60, 0x04, 0x56, 0x60, 0x5b];
      && Run(code, cap, State(0, [], mem), 2) == Running(State(4, [], mem))
      && !Decodes(code, 0, 4)
  {
    hide Step, Run;
    var code: Code := [0x60, 0x04, 0x56, 0x60, 0x5b];
    var s := State(0, [], mem);
    PushOneStep(code, cap, s);
    assert Step(code, cap, s).state == Leaping(code, 2, 4, mem);
    Leaps(code, cap, 2, 4, mem);
    RunFirst(code, cap, s, 1);
  }

  lemma RunFirst(code: Code, cap: nat, s: State, k: nat)
    requires Step(code, cap, s).Running?
    ensures Run(code, cap, s, k + 1) == Run(code, cap, Step(code, cap, s).state, k)
  {
    hide Step;
  }

  /** Whatever is on the stack, runs from instructions reach nothing but instructions exactly if the code
      has no jump among its instructions that the stack has room to feed, or no byte 0x5b outside them. */
  lemma JumpsStayOnInstructions(code: Code, cap: nat)
    ensures StaysOnInstructions(code, cap) <==> NoJumpDecoded(code, cap) || DestsDecoded(code)
  {
    hide Run, Decodes;
    if NoJumpDecoded(code, cap) || DestsDecoded(code) {
      forall s: State, k: nat | Decodes(code, 0, s.pc) && |s.stack| <= cap && Run(code, cap, s, k).Running?
        ensures Decodes(code, 0, Run(code, cap, s, k).state.pc)
      {
        RunStaysOnInstructions(code, cap, s, k);
      }
    } else {
      var p :| 0 <= p < |code| && Decodes(code, 0, p) && IsJump(code[p]) && Need(code[p]) <= cap;
      var d :| 0 <= d < |code| && code[d] == JUMPDEST && !Decodes(code, 0, d);
      var mem: Memory.Bytes := seq(32, _ => 0);
      Leaps(code, cap, p, d, mem);
      assert !Decodes(code, 0, Run(code, cap, Leaping(code, p, d, mem), 1).state.pc);
    }
  }

  /** Whether the instruction at `pc` has data beyond the end of the code. */
  predicate ReadsBeyond(code: Code, pc: nat)
  {
    pc < |code| && pc + Length(code[pc]) > |code|
  }

  // ---- Length

  /** Whether the step from `s` is a jump that is taken. */
  predicate Jumps(code: Code, s: State)
  {
    && s.pc < |code| && Known(code[s.pc]) && |s.stack| >= Need(code[s.pc])
    && Act(code, s.pc, Operands(s, code[s.pc]), s.mem).Goto?
  }

  /** How many of the first `k` steps are jumps taken. */
  function JumpCount(code: Code, cap: nat, s: State, k: nat): nat
    decreases k
  {
    if k == 0 || !Step(code, cap, s).Running? then 0
    else (if Jumps(code, s) then 1 else 0) + JumpCount(code, cap, Step(code, cap, s).state, k - 1)
  }

  lemma StepAdvances(code: Code, cap: nat, s: State)
    requires Step(code, cap, s).Running?
    ensures s.pc < |code|
    ensures Jumps(code, s) ==> IsJump(code[s.pc]) && Step(code, cap, s).state.pc < |code|
    ensures !Jumps(code, s) ==> Step(code, cap, s).state.pc == s.pc + Length(code[s.pc]) <= |code|
  {
    StepRuns(code, cap, s);
    var args := Operands(s, code[s.pc]);
    ActReadsInside(code, s.pc, args, s.mem);
    hide Act, Step;
    if Jumps(code, s) {
      ActGoesToJumpdest(code, s.pc, args, s.mem);
    }
  }

  lemma ActReadsInside(code: Code, pc: nat, args: seq<Word>, mem: Memory.Bytes)
    requires pc < |code| && Known(code[pc]) && |args| == Need(code[pc])
    ensures Act(code, pc, args, mem).Next? ==> pc + Length(code[pc]) <= |code|
  {
  }

  /** The program counter moves forward between jumps: a run that is still going after `k` steps has taken
      at least one jump for each time the code's length goes into `k`. */
  lemma {:induction false} RunLength(code: Code, cap: nat, s: State, k: nat)
    requires s.pc <= |code| && Run(code, cap, s, k).Running?
    ensures s.pc + k <= JumpCount(code, cap, s, k) * |code| + Run(code, cap, s, k).state.pc
    ensures Run(code, cap, s, k).state.pc <= |code|
    decreases k
  {
    hide Step, Jumps;
    if k > 0 {
      var s' := Step(code, cap, s).state;
      StepAdvances(code, cap, s);
      RunLength(code, cap, s', k - 1);
      OneMore(JumpCount(code, cap, s', k - 1), |code|);
    }
  }

  /** How many of the first `k` steps are iterations of the loop, the last one of a run that ends in the
      loop included; the pop after the loop is none. */
  function LoopCount(code: Code, cap: nat, s: State, k: nat): nat
    decreases k
  {
    if k == 0 || s.pc >= |code| then 0
    else 1 + if Step(code, cap, s).Running? then LoopCount(code, cap, Step(code, cap, s).state, k - 1) else 0
  }

  /** Every run, going on or ended in whatever way, with J jumps taken has had at most J + 1 times the
      code's length iterations of the loop. */
  lemma {:induction false} LoopBound(code: Code, cap: nat, s: State, k: nat)
    requires s.pc <= |code|
    ensures s.pc + LoopCount(code, cap, s, k) <= (1 + JumpCount(code, cap, s, k)) * |code|
    decreases k
  {
    hide Step, Jumps;
    OneMore(JumpCount(code, cap, s, k), |code|);
    MulNat(JumpCount(code, cap, s, k), |code|);
    if k > 0 && Step(code, cap, s).Running? {
      var s' := Step(code, cap, s).state;
      StepAdvances(code, cap, s);
      LoopBound(code, cap, s', k - 1);
      OneMore(1 + JumpCount(code, cap, s', k - 1), |code|);
    }
  }

  lemma MulNat(n: nat, size: nat)
    ensures 0 <= n * size
  {
  }

  lemma OneMore(n: nat, size: nat)
    ensures (1 + n) * size == size + n * size
  {
  }

  ghost predicate JumpFree(code: Code, from: nat)
  {
    forall pc :: from <= pc < |code| && Decodes(code, from, pc) ==> !IsJump(code[pc])
  }

  lemma {:induction false} JumpFreeTakesNone(code: Code, cap: nat, s: State, k: nat)
    requires JumpFree(code, s.pc)
    ensures JumpCount(code, cap, s, k) == 0
    decreases k
  {
    hide Step, Act;
    if k > 0 && Step(code, cap, s).Running? {
      StepAdvances(code, cap, s);
      JumpFreeNext(code, s.pc);
      JumpFreeTakesNone(code, cap, Step(code, cap, s).state, k - 1);
    }
  }

  lemma JumpFreeNext(code: Code, pc: nat)
    requires JumpFree(code, pc) && pc < |code|
    ensures !IsJump(code[pc]) && JumpFree(code, pc + Length(code[pc]))
  {
    assert Decodes(code, pc, pc);
    forall q | pc + Length(code[pc]) <= q < |code| && Decodes(code, pc + Length(code[pc]), q)
      ensures !IsJump(code[q])
    {
      assert Decodes(code, pc, q);
    }
  }

  /** Code without jumps ends. */
  lemma JumpFreeEnds(code: Code, cap: nat, s: State)
    requires JumpFree(code, s.pc) && s.pc <= |code|
    ensures !Run(code, cap, s, |code| - s.pc + 1).Running?
  {
    hide Run, JumpCount;
    var k := |code| - s.pc + 1;
    if Run(code, cap, s, k).Running? {
      RunLength(code, cap, s, k);
      JumpFreeTakesNone(code, cap, s, k);
    }
  }
}
