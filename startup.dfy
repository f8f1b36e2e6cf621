/** From the assembled program to the first instruction: the emit loop's
    rejection of unsupported instructions (Instructions.cs lines 563-564),
    the just-in-time compiler's rejection of a local that does not exist,
    and the prologue that allocates memory and sets SP (Program.cs lines
    206-241). */
module Startup {
  import opened Wrappers
  import opened Words
  import opened Operands
  import opened Directives
  import opened Programs
  import opened Pipeline
  import opened Semantics

  const InvalidProgram := "Common Language Runtime detected an invalid program."
  const Overflow := "Arithmetic operation resulted in an overflow."

  /** Every instruction has a case in Emit's switch. */
  predicate AllAccepted(code: seq<Instruction>) {
    forall i :: 0 <= i < |code| ==> Accepts(code[i])
  }

  /** The code Emit generates for the instructions, one switch case each;
      each emitted instruction has the operand shape its case matches, and
      an HLT opcode string is emitted as the HLT case. */
  function EmitCode(code: seq<Instruction>): (r: seq<Emitted>)
    requires AllAccepted(code)
    ensures |r| == |code|
    ensures forall i :: 0 <= i < |r| ==> Decode(code[i].opCode) == Some(r[i].op)
    ensures forall i :: 0 <= i < |r| ==> r[i].operands == code[i].operands
    ensures forall i :: 0 <= i < |r| ==> Matches(ShapeOf(r[i].op), r[i].operands)
    ensures forall i :: 0 <= i < |r| && code[i].opCode == "HLT" ==> r[i].op == HLT
  {
    DecodeHalt();
    seq(|code|, i requires 0 <= i < |code| => EmitOne(code[i]))
  }

  /** Every general register names a local the method declares: the
      registers 1..R or the SP local R + 1. */
  predicate LocalsDeclared(code: seq<Instruction>, registers: nat) {
    forall i, j :: 0 <= i < |code| && 0 <= j < |code[i].operands| ==>
      (code[i].operands[j].GeneralRegister? ==> code[i].operands[j].index <= registers + 1)
  }

  /** The memory the prologue builds: each DW word stored through EmitLdc
      and stelem, then the heap and stack, zero. */
  function InitialMemory(w: nat, words: seq<nat>, heapMax: nat): (r: seq<nat>)
    requires Supported(w)
    ensures |r| == |words| + heapMax
    ensures forall i :: 0 <= i < |words| ==> r[i] == Trunc(w, words[i])
    ensures forall i :: |words| <= i < |r| ==> r[i] == 0
    ensures forall i :: 0 <= i < |r| ==> r[i] < Pow2(w)
  {
    seq(|words|, i requires 0 <= i < |words| => Trunc(w, StackImmediate(w, words[i]))) + seq(heapMax, i => 0)
  }

  /** The number of memory words: the DW count plus HeapMax. */
  function MemorySize(p: Program): (r: nat)
    ensures |p.defineWords| <= r < |p.defineWords| + Pow2(32)
    ensures (p.config.heapSize + p.config.stackSize) * 2 < Pow2(32) ==>
      r == |p.defineWords| + (p.config.heapSize + p.config.stackSize) * 2
  {
    |p.defineWords| + HeapMax(p.config.heapSize, p.config.stackSize)
  }

  /** The state the prologue leaves: SP at the memory size narrowed to W
      bits, the registers zero, the DW words followed by zeroes in memory,
      and nothing read or written yet. */
  function InitialState(p: Program): (s: State)
    requires Supported(p.config.wordLength)
    ensures |s.registers| == p.config.registers && forall k :: 0 <= k < |s.registers| ==> s.registers[k] == 0
    ensures |s.memory| == MemorySize(p)
    ensures forall i :: 0 <= i < |p.defineWords| ==> s.memory[i] == Trunc(p.config.wordLength, p.defineWords[i])
    ensures forall i :: |p.defineWords| <= i < |s.memory| ==> s.memory[i] == 0
    ensures s.sp == Trunc(p.config.wordLength, MemorySize(p))
    ensures s.index == 0 && s.trace == [] && s.readCount == 0
    ensures WellFormed(Env(p.config.wordLength, p.config.registers, [], (_, _) => 0), s)
  {
    var w := p.config.wordLength;
    var memory := InitialMemory(w, p.defineWords, HeapMax(p.config.heapSize, p.config.stackSize));
    State(seq(p.config.registers, k => 0), memory, Trunc(w, MemorySize(p)), 0, [], 0)
  }

  /** The machine the generated method starts as, or why it never runs an
      instruction: Emit throws on an instruction it has no case for, the
      just-in-time compiler rejects a local that was never declared, and
      newarr throws on a size that is negative as an int. */
  function Boot(p: Program, input: (string, nat) -> nat): (r: Result<(Env, State), string>)
    requires Assembled(p) && |p.instructions| < IntLimit
    ensures r.Ok? <==>
      AllAccepted(p.instructions) && LocalsDeclared(p.instructions, p.config.registers) &&
      MemorySize(p) < IntLimit
    ensures !AllAccepted(p.instructions) ==> r == Fail(Unsupported)
    ensures AllAccepted(p.instructions) && !LocalsDeclared(p.instructions, p.config.registers) ==> r == Fail(InvalidProgram)
    ensures r.Ok? ==>
      && r.value.0 == Env(p.config.wordLength, p.config.registers, EmitCode(p.instructions), input)
      && r.value.1 == InitialState(p)
      && Valid(r.value.0, r.value.1)
  {
    if !AllAccepted(p.instructions) then Fail(Unsupported)
    else if !LocalsDeclared(p.instructions, p.config.registers) then Fail(InvalidProgram)
    else if MemorySize(p) >= IntLimit then Fail(Overflow)
    else
      AssembledLoads(p, input);
      Ok((Env(p.config.wordLength, p.config.registers, EmitCode(p.instructions), input), InitialState(p)))
  }

  /** The code of an assembled program whose instructions are accepted and
      whose locals exist is code the machine can run. */
  lemma AssembledLoads(p: Program, input: (string, nat) -> nat)
    requires Assembled(p) && |p.instructions| < IntLimit
    requires AllAccepted(p.instructions) && LocalsDeclared(p.instructions, p.config.registers)
    ensures Loaded(Env(p.config.wordLength, p.config.registers, EmitCode(p.instructions), input))
  {
    var code := EmitCode(p.instructions);
    var e := Env(p.config.wordLength, p.config.registers, code, input);
    assert code[|code| - 1].op == HLT;
    forall i, j | 0 <= i < |code| && 0 <= j < |code[i].operands|
      ensures InRange(e, code[i].operands[j])
    {
      var op := p.instructions[i].operands[j];
      assert code[i].operands[j] == op;
      assert Emittable(p, op);
      assert op.GeneralRegister? ==> op.index <= p.config.registers + 1;
    }
  }
}
