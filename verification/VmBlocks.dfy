/** DUP and SWAP work on blocks: DUPx copies the top x elements and SWAPx reverses the top x + 1. */
module VmBlocks {
  import opened Words
  import opened Vm

  /** The stack after SWAPx. */
  function Swapped(stack: seq<Word>, x: nat): (r: seq<Word>)
    requires x < |stack|
    ensures |r| == |stack|
  {
    stack[..|stack| - x - 1] + Reverse(stack[|stack| - x - 1..])
  }

  /** The stack after DUPx. */
  function Duplicated(stack: seq<Word>, x: nat): seq<Word>
    requires x <= |stack|
  {
    stack + stack[|stack| - x..]
  }

  lemma {:induction false} ReverseAt(s: seq<Word>, i: nat)
    requires i < |s|
    ensures Reverse(s)[i] == s[|s| - 1 - i]
  {
    if i < |s| - 1 {
      ReverseAt(s[1..], i);
    }
  }

  lemma ReverseTwice(s: seq<Word>)
    ensures Reverse(Reverse(s)) == s
  {
    forall i | 0 <= i < |s| ensures Reverse(Reverse(s))[i] == s[i] {
      ReverseAt(Reverse(s), i);
      ReverseAt(s, |s| - 1 - i);
    }
  }

  lemma {:induction false} ReverseKeeps(s: seq<Word>)
    ensures multiset(Reverse(s)) == multiset(s)
  {
    if |s| > 0 {
      ReverseKeeps(s[1..]);
      assert s == [s[0]] + s[1..];
    }
  }

  /** SWAPx twice does nothing, and once it moves no element in or out or below the top x + 1. */
  lemma SwapTwice(stack: seq<Word>, x: nat)
    requires x < |stack|
    ensures Swapped(Swapped(stack, x), x) == stack
    ensures multiset(Swapped(stack, x)) == multiset(stack)
    ensures Swapped(stack, x)[..|stack| - x - 1] == stack[..|stack| - x - 1]
  {
    var n := |stack| - x - 1;
    var block := stack[n..];
    assert Swapped(stack, x)[n..] == Reverse(block);
    ReverseTwice(block);
    ReverseKeeps(block);
    assert stack == stack[..n] + block;
  }

  /** What SWAPx is said to do: exchange the first and the (x + 1)th element. */
  function Exchanged(stack: seq<Word>, x: nat): (r: seq<Word>)
    requires x < |stack|
    ensures |r| == |stack|
  {
    var top := |stack| - 1;
    stack[top := stack[top - x]][top - x := stack[top]]
  }

  /** The elements between the first and the (x + 1)th. */
  function Between(stack: seq<Word>, x: nat): seq<Word>
    requires 0 < x < |stack|
  {
    stack[|stack| - x..|stack| - 1]
  }

  lemma SwappedAt(stack: seq<Word>, x: nat, i: nat)
    requires x < |stack| && i < |stack|
    ensures Swapped(stack, x)[i] == if i < |stack| - x - 1 then stack[i] else stack[2 * |stack| - x - 2 - i]
  {
    var n := |stack| - x - 1;
    if i >= n {
      ReverseAt(stack[n..], i - n);
    }
  }

  /** SWAPx is the exchange exactly when the elements between read the same both ways; so always for x up to 2. */
  lemma SwapIsExchange(stack: seq<Word>, x: nat)
    requires 0 < x < |stack|
    ensures Swapped(stack, x) == Exchanged(stack, x) <==> Reverse(Between(stack, x)) == Between(stack, x)
    ensures x <= 2 ==> Swapped(stack, x) == Exchanged(stack, x)
  {
    var n, mid := |stack|, Between(stack, x);
    forall i | 0 <= i < n
      ensures Swapped(stack, x)[i] == if n - x <= i < n - 1 then Reverse(mid)[i - (n - x)] else Exchanged(stack, x)[i]
    {
      SwappedAt(stack, x, i);
      if n - x <= i < n - 1 {
        ReverseAt(mid, i - (n - x));
      }
    }
    assert forall i :: n - x <= i < n - 1 ==> Exchanged(stack, x)[i] == mid[i - (n - x)];
    if Swapped(stack, x) == Exchanged(stack, x) {
      forall j | 0 <= j < x - 1 ensures Reverse(mid)[j] == mid[j] {
        assert Swapped(stack, x)[n - x + j] == Exchanged(stack, x)[n - x + j];
      }
      assert Reverse(mid) == mid;
    }
    if x <= 2 {
      assert |mid| <= 1;
      forall j | 0 <= j < |mid| ensures Reverse(mid)[j] == mid[j] { ReverseAt(mid, j); }
      assert Reverse(mid) == mid;
    }
  }

  // ---- The steps

  /** The step of a SWAP instruction. */
  lemma SwapStep(code: Code, cap: nat, s: State)
    requires s.pc < |code| && IsSwap(code[s.pc]) && |s.stack| <= cap
    ensures var x := code[s.pc] - 0x8f;
      Step(code, cap, s) ==
        if |s.stack| <= x then Exited(Underflow) else Running(State(s.pc + 1, Swapped(s.stack, x), s.mem))
  {
    hide Act, Step, Reverse;
    StepOf(code, cap, s);
    if |s.stack| >= Need(code[s.pc]) {
      ActCases(code, s.pc, Operands(s, code[s.pc]), s.mem);
    }
  }

  /** The step of a DUP instruction. */
  lemma DupStep(code: Code, cap: nat, s: State)
    requires s.pc < |code| && IsDup(code[s.pc])
    ensures var x := code[s.pc] - 0x7f;
      Step(code, cap, s) ==
        if |s.stack| < x then Exited(Underflow)
        else if |s.stack| + x > cap then Exited(Overflow)
        else Running(State(s.pc + 1, Duplicated(s.stack, x), s.mem))
  {
    hide Act, Step;
    StepOf(code, cap, s);
    if |s.stack| >= Need(code[s.pc]) {
      ActCases(code, s.pc, Operands(s, code[s.pc]), s.mem);
    }
    assert s.stack[..|s.stack|] == s.stack;
  }

  lemma PopStep(code: Code, cap: nat, s: State)
    requires s.pc < |code| && code[s.pc] == 0x50 && 0 < |s.stack| <= cap
    ensures Step(code, cap, s) == Running(State(s.pc + 1, s.stack[..|s.stack| - 1], s.mem))
  {
    hide Act, Step;
    StepOf(code, cap, s);
    ActCases(code, s.pc, Operands(s, code[s.pc]), s.mem);
  }

  lemma {:induction false} PopSteps(code: Code, cap: nat, s: State, x: nat)
    requires s.pc + x <= |code| && forall i :: s.pc <= i < s.pc + x ==> code[i] == 0x50
    requires x <= |s.stack| <= cap
    ensures Run(code, cap, s, x) == Running(State(s.pc + x, s.stack[..|s.stack| - x], s.mem))
    decreases x
  {
    if x == 0 {
      assert s.stack[..|s.stack|] == s.stack;
    } else {
      PopStep(code, cap, s);
      hide Step;
      var s' := State(s.pc + 1, s.stack[..|s.stack| - 1], s.mem);
      PopSteps(code, cap, s', x - 1);
      assert s'.stack[..|s'.stack| - (x - 1)] == s.stack[..|s.stack| - x];
    }
  }

  /** DUPx followed by x POPs restores the stack. */
  lemma DupThenPops(code: Code, cap: nat, s: State)
    requires s.pc < |code| && IsDup(code[s.pc])
    requires var x := code[s.pc] - 0x7f;
      && x <= |s.stack| && |s.stack| + x <= cap && s.pc + 1 + x <= |code|
      && forall i :: s.pc < i <= s.pc + x ==> code[i] == 0x50
    ensures var x := code[s.pc] - 0x7f;
      Run(code, cap, s, 1 + x) == Running(State(s.pc + 1 + x, s.stack, s.mem))
  {
    var x := code[s.pc] - 0x7f;
    DupStep(code, cap, s);
    hide Step;
    var s' := State(s.pc + 1, Duplicated(s.stack, x), s.mem);
    PopSteps(code, cap, s', x);
    assert Duplicated(s.stack, x)[..|s.stack|] == s.stack;
  }
}
