/** The generated method while it runs: the registers and the SP local
    are locals it updates in place, the memory is the array the prologue
    allocated, and control moves through the dispatch table one
    instruction at a time (Instructions.cs lines 128-566, Program.cs lines
    206-250). Each step does in place what Semantics.Step says. */
module Machines {
  import opened Wrappers
  import opened Semantics

  class Machine {
    const env: Env
    /** Register k (1..R) is registers[k - 1]. */
    const registers: array<nat>
    const memory: array<nat>
    var sp: nat
    var index: nat
    var trace: seq<PortWrite>
    var readCount: nat

    /** The machine as a value. */
    function Snapshot(): State
      reads this, registers, memory
    {
      State(registers[..], memory[..], sp, index, trace, readCount)
    }

    predicate Valid()
      reads this, registers, memory
    {
      registers != memory && Semantics.Valid(env, Snapshot())
    }

    /** The machine the prologue leaves: fresh register and memory arrays
        holding the given state. */
    constructor (e: Env, s: State)
      requires Semantics.Valid(e, s)
      ensures env == e && Snapshot() == s && Valid()
      ensures fresh(registers) && fresh(memory)
    {
      env := e;
      registers := new nat[|s.registers|](k requires 0 <= k < |s.registers| => s.registers[k]);
      memory := new nat[|s.memory|](a requires 0 <= a < |s.memory| => s.memory[a]);
      sp := s.sp;
      index := s.index;
      trace := s.trace;
      readCount := s.readCount;
      new;
      assert registers[..] == s.registers;
      assert memory[..] == s.memory;
    }

    /** Runs the instruction at index: makes the change its case computes,
        then moves control. A fault leaves the machine as it was. */
    method Step() returns (status: Status)
      requires Valid()
      modifies this, registers, memory
      ensures status == Semantics.Step(env, old(Snapshot()))
      ensures !status.Faulted? ==> Snapshot() == status.state
      ensures status.Faulted? ==> Snapshot() == old(Snapshot())
      ensures status.Running? ==> Valid()
    {
      var s := Snapshot();
      StepValid(env, s);
      var r := Exec(env, s);
      assert Semantics.Step(env, s) == Outcome(env, s, r);
      if r.Fail? {
        return Faulted(r.error);
      }
      var c := r.value;
      if c.flow.Jump? && !(0 <= c.flow.target < |env.code|) {
        return Faulted(BadBranch);
      }
      Perform(c);
      match c.flow {
        case Stop =>
          status := Halted(Snapshot());
        case Next =>
          index := index + 1;
          status := Running(Snapshot());
        case Jump(target) =>
          index := target;
          status := Running(Snapshot());
      }
    }

    /** Makes the change c in place: writes the register and the memory
        cell it names, sets SP and the read count, and records its port
        write; control stays where it is. */
    method Perform(c: Change)
      requires registers != memory
      requires c.register.Some? ==> 1 <= c.register.value.at <= registers.Length
      requires c.cell.Some? ==> c.cell.value.at < memory.Length
      modifies this, registers, memory
      ensures Snapshot() == Apply(old(Snapshot()), c)
    {
      ghost var t := Apply(Snapshot(), c);
      if c.register.Some? {
        registers[c.register.value.at - 1] := c.register.value.word;
      }
      assert registers[..] == t.registers;
      if c.cell.Some? {
        memory[c.cell.value.at] := c.cell.value.word;
      }
      assert memory[..] == t.memory;
      sp := c.sp;
      if c.output.Some? {
        trace := trace + [c.output.value];
      }
      readCount := c.readCount;
    }
  }
}
