/** How high a stack jump-free code needs and makes: a summary computed in one pass over the opcodes that
    decides, for every starting height and capacity, whether a run underflows or overflows. */
module VmHeights {
  import opened CTypes
  import opened Vm
  import opened VmRuns

  /** The height needed at the start, the most that is added on the way, and what is added in the end. */
  datatype Summary = Summary(need: nat, peak: nat, net: int)

  function Max(x: int, y: int): int
  {
    if x < y then y else x
  }

  predicate Admits(sum: Summary, height: int, cap: nat)
  {
    sum.need <= height && height + sum.peak <= cap
  }

  const NOTHING := Summary(0, 0, 0)

  const FINAL_POP := Summary(1, 0, -1)

  function OfOpcode(op: Byte): Summary
  {
    var net := Pushes(op) - Pops(op);
    Summary(Need(op), Max(0, net), net)
  }

  /** First `a`, then `b`. */
  function Then(a: Summary, b: Summary): Summary
  {
    Summary(Max(a.need, b.need - a.net), Max(a.peak, a.net + b.peak), a.net + b.net)
  }

  lemma ThenAdmits(a: Summary, b: Summary, height: int, cap: nat)
    ensures Admits(Then(a, b), height, cap) <==> Admits(a, height, cap) && Admits(b, height + a.net, cap)
  {
  }

  lemma ThenAssociative(a: Summary, b: Summary, c: Summary)
    ensures Then(Then(a, b), c) == Then(a, Then(b, c))
    ensures Then(NOTHING, a) == a
  {
  }

  /** The code from `pc` to its end, without the pop after it. */
  function Body(code: Code, pc: nat): Summary
    decreases |code| - pc
  {
    if pc >= |code| then NOTHING else Then(OfOpcode(code[pc]), Body(code, pc + Length(code[pc])))
  }

  /** The code from `pc` on, up to STOP or to the pop after the end. */
  function Summarize(code: Code, pc: nat): Summary
    decreases |code| - pc
  {
    if pc >= |code| then FINAL_POP
    else if code[pc] == STOP then NOTHING
    else Then(OfOpcode(code[pc]), Summarize(code, pc + Length(code[pc])))
  }

  ghost predicate StopFree(code: Code, pc: nat)
    decreases |code| - pc
  {
    pc < |code| ==> code[pc] != STOP && StopFree(code, pc + Length(code[pc]))
  }

  lemma {:induction false} SummarizeBehind(front: Code, code: Code, both: Code, pc: nat)
    requires both == front + code
    ensures Summarize(both, |front| + pc) == Summarize(code, pc)
    decreases |code| - pc
  {
    hide OfOpcode, Then, Length;
    if pc < |code| {
      assert both[|front| + pc] == code[pc];
      SummarizeBehind(front, code, both, pc + Length(code[pc]));
    }
  }

  /** The summary of two codes one after the other is made of their two summaries. */
  lemma {:induction false} SummarizeConcat(front: Code, code: Code, both: Code, pc: nat)
    requires both == front + code && pc <= |front|
    requires Decodes(front, pc, |front|) && StopFree(front, pc)
    ensures Summarize(both, pc) == Then(Body(front, pc), Summarize(code, 0))
    decreases |front| - pc
  {
    hide OfOpcode, Then, Length;
    if pc == |front| {
      ThenAssociative(Summarize(code, 0), NOTHING, NOTHING);
      SummarizeBehind(front, code, both, 0);
    } else {
      var next := pc + Length(front[pc]);
      DecodesNotBeyond(front, next, |front|);
      SummarizeConcat(front, code, both, next);
      ThenAssociative(OfOpcode(front[pc]), Body(front, next), Summarize(code, 0));
    }
  }

  lemma DecodesNotBeyond(code: Code, from: nat, pc: nat)
    requires Decodes(code, from, pc)
    ensures from <= pc
  {
  }

  // ---- What the summary says about runs

  predicate StackExit(o: Outcome)
  {
    o == Exited(Underflow) || o == Exited(Overflow)
  }

  predicate Completed(o: Outcome)
  {
    o.Returned? && o.ending != Early
  }

  /** A step goes on only if the opcode's summary admits the height, and then changes it by its net effect. */
  lemma StepHeight(code: Code, cap: nat, s: State)
    requires s.pc < |code| && Step(code, cap, s).Running? && !IsJump(code[s.pc]) && |s.stack| <= cap
    ensures code[s.pc] != STOP && Admits(OfOpcode(code[s.pc]), |s.stack|, cap)
    ensures var s' := Step(code, cap, s).state;
      |s'.stack| == |s.stack| + OfOpcode(code[s.pc]).net && s'.pc == s.pc + Length(code[s.pc])
  {
    StepRuns(code, cap, s);
    var args := Operands(s, code[s.pc]);
    if Act(code, s.pc, args, s.mem).Goto? {
      ActGoesToJumpdest(code, s.pc, args, s.mem);
    }
    ActStops(code, s.pc, args, s.mem);
    hide Act, Step, Operands, Need, Pushes, Pops, Length;
  }

  lemma AfterFailsOnStack(cap: nat, s: State, op: Byte, act: Action)
    requires |s.stack| >= Need(op) && StackExit(After(cap, s, op, act))
    requires act.Next? ==> |act.pushes| == Pushes(op)
    ensures !Admits(OfOpcode(op), |s.stack|, cap)
  {
    hide Need, Pushes, Pops, Length;
  }

  lemma PushFailsOnStack(code: Code, cap: nat, s: State)
    requires s.pc < |code| && PushOverflows(code, cap, s)
    ensures !Admits(OfOpcode(code[s.pc]), |s.stack|, cap)
  {
  }

  /** A step fails on the stack only if the opcode's summary does not admit the height. */
  lemma StepFailsOnStack(code: Code, cap: nat, s: State)
    requires s.pc < |code| && StackExit(Step(code, cap, s))
    ensures !Admits(OfOpcode(code[s.pc]), |s.stack|, cap)
  {
    var op := code[s.pc];
    if |s.stack| >= Need(op) {
      if PushOverflows(code, cap, s) {
        PushFailsOnStack(code, cap, s);
      } else {
        AfterFailsOnStack(cap, s, op, Act(code, s.pc, Operands(s, op), s.mem));
      }
    }
    hide Act, Operands, Need, Pushes, Pops, Length, After, PushOverflows;
  }

  /** Inside the code, only STOP completes a run, and it always does. */
  lemma StepCompletes(code: Code, cap: nat, s: State)
    requires s.pc < |code|
    ensures Completed(Step(code, cap, s)) <==> code[s.pc] == STOP
  {
    var op := code[s.pc];
    if Known(op) && |s.stack| >= Need(op) {
      ActStops(code, s.pc, Operands(s, op), s.mem);
      assert op == STOP ==> !IsPush(op);
    } else {
      assert op != STOP;
    }
    hide Act, Operands, Need, Pushes, Pops, Length;
  }

  /** A run of jump-free code leaves by underflow or overflow only from a height that the summary does not
      admit, and comes to its end only from one that it does. */
  lemma {:induction false} RunHeight(code: Code, cap: nat, s: State, k: nat)
    requires JumpFree(code, s.pc) && |s.stack| <= cap
    ensures StackExit(Run(code, cap, s, k)) ==> !Admits(Summarize(code, s.pc), |s.stack|, cap)
    ensures Completed(Run(code, cap, s, k)) ==> Admits(Summarize(code, s.pc), |s.stack|, cap)
    decreases k
  {
    hide Step, OfOpcode, Then, Length;
    if k > 0 {
      if s.pc >= |code| {
        FinalStep(code, cap, s);
      } else {
        var next := s.pc + Length(code[s.pc]);
        if StackExit(Step(code, cap, s)) { StepFailsOnStack(code, cap, s); }
        StepCompletes(code, cap, s);
        ThenAdmits(OfOpcode(code[s.pc]), Summarize(code, next), |s.stack|, cap);
        if Step(code, cap, s).Running? {
          JumpFreeNext(code, s.pc);
          StepHeight(code, cap, s);
          RunKeepsBound(code, cap, s, 1);
          RunHeight(code, cap, Step(code, cap, s).state, k - 1);
        }
      }
    }
  }

  lemma FinalStep(code: Code, cap: nat, s: State)
    requires s.pc >= |code| && |s.stack| <= cap
    ensures StackExit(Step(code, cap, s)) <==> !Admits(FINAL_POP, |s.stack|, cap)
    ensures Completed(Step(code, cap, s)) <==> Admits(FINAL_POP, |s.stack|, cap)
  {
  }

  /** Unless its data make it leave early, a run of jump-free code ends, and the summary decides how: it
      underflows or overflows exactly from the heights that the summary does not admit. */
  lemma SummaryDecides(code: Code, cap: nat, s: State)
    requires JumpFree(code, s.pc) && s.pc <= |code| && |s.stack| <= cap
    ensures var o := Run(code, cap, s, |code| - s.pc + 1);
      && !o.Running?
      && (StackExit(o) || Completed(o) ==> (StackExit(o) <==> !Admits(Summarize(code, s.pc), |s.stack|, cap)))
  {
    hide Run, Summarize;
    JumpFreeEnds(code, cap, s);
    RunHeight(code, cap, s, |code| - s.pc + 1);
  }

  /** Jump-free, well-formed code whose summary admits the starting height never underflows, never
      overflows and never reads beyond its end, and it ends. */
  lemma AdmittedCodeIsSafe(code: Code, cap: nat, s: State, k: nat)
    requires WellFormed(code) && JumpFree(code, 0) && s.pc == 0 && |s.stack| <= cap
    requires Admits(Summarize(code, 0), |s.stack|, cap)
    ensures var o := Run(code, cap, s, k);
      && !StackExit(o)
      && (o.Running? ==> k <= |code| && !ReadsBeyond(code, o.state.pc))
  {
    hide Run, Summarize, WellFormed;
    RunHeight(code, cap, s, k);
    RunStaysInCode(code, cap, s, k);
    if Run(code, cap, s, k).Running? {
      RunLength(code, cap, s, k);
      JumpFreeTakesNone(code, cap, s, k);
    }
  }
}
