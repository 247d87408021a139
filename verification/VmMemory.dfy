/** On every run the machine's memory is an array of 256 bits, changed by nothing but its stores. */
module VmMemory {
  import opened Words
  import opened Vm
  import opened Memory

  datatype Write = Nothing | Write(at: nat, value: nat)

  /** What the instruction at `s` writes, MSTORE and MSTORE8 alike: the low bits of its value from a bit
      offset to the end of the byte. */
  function WriteOf(code: Code, s: State): (w: Write)
    requires s.pc < |code| && |s.stack| >= Need(code[s.pc])
    ensures w.Write? ==> w.at < BITS
  {
    var op := code[s.pc];
    if op == 0x52 || op == 0x53 then
      var args := Operands(s, op);
      if InMemory(args[0]) then Write(args[0], Low32(args[1])) else Nothing
    else Nothing
  }

  ghost function Apply(bits: seq<bool>, w: Write): (r: seq<bool>)
    requires |bits| == BITS
    ensures |r| == BITS
  {
    if w.Write? then StoreBits(bits, w.at, w.value) else bits
  }

  ghost function ApplyAll(bits: seq<bool>, ws: seq<Write>): (r: seq<bool>)
    requires |bits| == BITS
    ensures |r| == BITS
  {
    if |ws| == 0 then bits else Apply(ApplyAll(bits, ws[..|ws| - 1]), ws[|ws| - 1])
  }

  /** The writes of the first `k` steps of a run, in order; a step that ends the run writes nothing. */
  function Writes(code: Code, cap: nat, s: State, k: nat): (ws: seq<Write>)
    decreases k
  {
    if k == 0 || !Step(code, cap, s).Running? then [] else
      StepRuns(code, cap, s);
      [WriteOf(code, s)] + Writes(code, cap, Step(code, cap, s).state, k - 1)
  }

  lemma StepMemory(code: Code, cap: nat, s: State)
    requires Step(code, cap, s).Running?
    ensures s.pc < |code| && |s.stack| >= Need(code[s.pc])
    ensures BitsOf(Step(code, cap, s).state.mem) == Apply(BitsOf(s.mem), WriteOf(code, s))
  {
    StepRuns(code, cap, s);
    ActMemory(code, s.pc, Operands(s, code[s.pc]), s.mem);
    hide Act, Step, Operands, BitsOf, StoreBits, Need;
  }

  lemma ActMemory(code: Code, pc: nat, args: seq<Word>, mem: Bytes)
    requires pc < |code| && Known(code[pc]) && |args| == Need(code[pc])
    ensures var op, act := code[pc], Act(code, pc, args, mem);
      act.Next? ==>
        if op == 0x52 || op == 0x53
        then InMemory(args[0]) && BitsOf(act.mem) == StoreBits(BitsOf(mem), args[0], Low32(args[1]))
        else act.mem == mem
  {
    hide BitsOf, StoreBits, Store;
    if code[pc] == 0x52 || code[pc] == 0x53 {
      if InMemory(args[0]) {
        Store8IsStore(mem, args[0], args[1]);
        StoreRefines(mem, args[0], Low32(args[1]));
      }
    }
  }

  lemma {:induction false} ApplyFirst(bits: seq<bool>, w: Write, ws: seq<Write>)
    requires |bits| == BITS
    ensures ApplyAll(bits, [w] + ws) == ApplyAll(Apply(bits, w), ws)
  {
    hide Apply;
    if |ws| == 0 {
      assert ([w] + ws)[..0] == [];
    } else {
      assert ([w] + ws)[..|ws|] == [w] + ws[..|ws| - 1];
      ApplyFirst(bits, w, ws[..|ws| - 1]);
    }
  }

  lemma ReturnKeepsMemory(code: Code, cap: nat, s: State)
    requires Step(code, cap, s).Returned?
    ensures Step(code, cap, s).mem == s.mem
  {
    hide Act;
  }

  /** The memory that an outcome leaves behind. */
  function MemoryOf(o: Outcome): Bytes
    requires o.Running? || o.Returned?
  {
    if o.Running? then o.state.mem else o.mem
  }

  /** After any run, going on or returned, the bits are the initial ones with the run's writes applied in order. */
  lemma {:induction false} RunMemory(code: Code, cap: nat, s: State, k: nat)
    requires Run(code, cap, s, k).Running? || Run(code, cap, s, k).Returned?
    ensures BitsOf(MemoryOf(Run(code, cap, s, k))) == ApplyAll(BitsOf(s.mem), Writes(code, cap, s, k))
    decreases k
  {
    hide Step, BitsOf, Apply, WriteOf;
    if k > 0 {
      if Step(code, cap, s).Running? {
        var s' := Step(code, cap, s).state;
        StepMemory(code, cap, s);
        RunMemory(code, cap, s', k - 1);
        ApplyFirst(BitsOf(s.mem), WriteOf(code, s), Writes(code, cap, s', k - 1));
      } else {
        ReturnKeepsMemory(code, cap, s);
      }
    }
  }

  predicate Covers(w: Write, i: nat)
  {
    w.Write? && w.at <= i < ByteEnd(w.at)
  }

  lemma ApplyBit(bits: seq<bool>, w: Write, i: nat)
    requires |bits| == BITS && i < BITS
    ensures Apply(bits, w)[i] == if Covers(w, i) then Bit(w.value, i - w.at) else bits[i]
  {
  }

  /** A bit that no write covers is the initial one. */
  lemma {:induction false} UncoveredBit(bits: seq<bool>, ws: seq<Write>, i: nat)
    requires |bits| == BITS && i < BITS
    requires forall j :: 0 <= j < |ws| ==> !Covers(ws[j], i)
    ensures ApplyAll(bits, ws)[i] == bits[i]
  {
    hide Apply, Covers;
    if |ws| > 0 {
      UncoveredBit(bits, ws[..|ws| - 1], i);
      ApplyBit(ApplyAll(bits, ws[..|ws| - 1]), ws[|ws| - 1], i);
    }
  }

  /** A bit that some write covers is that of the last one to do so. */
  lemma {:induction false} LastWriteWins(bits: seq<bool>, ws: seq<Write>, i: nat, j: nat)
    requires |bits| == BITS && i < BITS
    requires j < |ws| && Covers(ws[j], i) && forall l :: j < l < |ws| ==> !Covers(ws[l], i)
    ensures ApplyAll(bits, ws)[i] == Bit(ws[j].value, i - ws[j].at)
  {
    hide Apply, Bit;
    ApplyBit(ApplyAll(bits, ws[..|ws| - 1]), ws[|ws| - 1], i);
    if j < |ws| - 1 {
      LastWriteWins(bits, ws[..|ws| - 1], i, j);
    }
  }

  /** MLOAD puts on the stack the number that the bits from its offset to the end of the byte denote. */
  lemma LoadReadsBits(code: Code, cap: nat, s: State)
    requires Step(code, cap, s).Running? && s.pc < |code| && code[s.pc] == 0x51
    ensures |s.stack| > 0 && InMemory(s.stack[|s.stack| - 1])
    ensures var a, t := s.stack[|s.stack| - 1], Step(code, cap, s).state.stack;
      && |t| == |s.stack| && t[..|t| - 1] == s.stack[..|t| - 1]
      && t[|t| - 1] == NumberOf(BitsOf(s.mem)[a..ByteEnd(a)])
  {
    StepRuns(code, cap, s);
    var a := Operands(s, 0x51)[0];
    assert Operands(s, 0x51) == [a];
    ActLoad(code, s.pc, a, s.mem);
    hide Act, Step, BitsOf, NumberOf;
  }

  lemma ActLoad(code: Code, pc: nat, a: Word, mem: Bytes)
    requires pc < |code| && code[pc] == 0x51
    ensures var act := Act(code, pc, [a], mem);
      act.Next? ==> InMemory(a) && act.pushes == [NumberOf(BitsOf(mem)[a..ByteEnd(a)])]
  {
    hide BitsOf, NumberOf, Load;
    if InMemory(a) {
      LoadRefines(mem, a);
      LoadIsByte(mem, a);
    }
  }

  lemma LoadIsByte(mem: Bytes, a: int)
    requires InMemory(a)
    ensures Load(mem, a) < 256
  {
    DropAtMost(mem[a / 8], a % 8);
  }

  lemma {:induction false} DropAtMost(x: nat, n: nat)
    ensures Drop(x, n) <= x
    decreases n
  {
    if n > 0 {
      DropAtMost(x / 2, n - 1);
    }
  }
}
