/** What single instructions do to the machine: the operand rules of
    Operands.cs and the effects Instruction.Emit's cases promise, stated
    on Semantics.Read, Semantics.Write and Semantics.Step. */
module Behaviour {
  import opened Wrappers
  import opened Words
  import opened Operands
  import opened Directives
  import opened Programs
  import opened Semantics
  import opened Alu

  // ---------------------------------------------------------------------
  // Operands (Operands.cs)

  /** Register 0 reads as the constant 0 and a write to it is discarded, so
      it reads 0 whatever was written before. */
  lemma RegisterZero(e: Env, s: State, v: nat, c: Change)
    requires Supported(e.wordLength) && |s.registers| == e.registerCount && Applies(e, s, c)
    ensures Read(e, s, GeneralRegister(0)) == 0
    ensures Write(e, s, GeneralRegister(0), v, c) == c
  {
    TruncSmall(StackBits(e.wordLength), 0);
  }

  /** A write to register k (1 <= k <= R) stores the low W bits of the
      value in that register only; reading it back gives the stored word. */
  lemma RegisterReadWrite(e: Env, s: State, k: nat, v: nat)
    requires Supported(e.wordLength) && WellFormed(e, s) && 1 <= k <= e.registerCount
    ensures var t := Apply(s, Write(e, s, GeneralRegister(k), v, Keep(s)));
      && Read(e, t, GeneralRegister(k)) == Trunc(e.wordLength, v)
      && (forall j :: 1 <= j <= e.registerCount && j != k ==>
            Read(e, t, GeneralRegister(j)) == Read(e, s, GeneralRegister(j)))
      && t.sp == s.sp && t.memory == s.memory && t.index == s.index
  {
  }

  /** The general register after the last register is the SP local: it
      reads and writes SP. */
  lemma RegisterAfterLastIsSp(e: Env, s: State, v: nat, c: Change)
    requires Supported(e.wordLength) && |s.registers| == e.registerCount && Applies(e, s, c)
    ensures Read(e, s, GeneralRegister(e.registerCount + 1)) == Read(e, s, StackPointer) == s.sp
    ensures Write(e, s, GeneralRegister(e.registerCount + 1), v, c) == Write(e, s, StackPointer, v, c)
    ensures Write(e, s, StackPointer, v, c) == c.(sp := Trunc(e.wordLength, v))
  {
  }

  /** A label reads as the immediate of its address. That is the address
      itself when it fits in a word (the fit check on the instruction count
      makes sure of that) unless W = 8 and the address is 128 or more,
      where the byte immediate sign-extends. */
  lemma LabelReadsAddress(e: Env, s: State, name: string, address: nat)
    requires Valid(e, s) && address < |e.code|
    ensures Read(e, s, Label(name, address)) == Read(e, s, Immediate(address))
    ensures address < Pow2(e.wordLength) && (e.wordLength > 8 || address < 128) ==>
      Read(e, s, Label(name, address)) == address
  {
    var w := e.wordLength;
    if w == 8 && address < 128 {
      assert Pow2(8) == 256 && Pow2(7) == 128;
      TruncSmall(8, address);
      TruncSmall(32, address);
    } else if w == 16 && address < Pow2(16) {
      TruncSmall(16, address);
    } else if w > 16 {
      Pow2Monotone(31, w);
      TruncSmall(w, address);
    }
  }

  /** PC reads as the index of the instruction, and a write to PC jumps
      to the value converted to int32. */
  lemma ProgramCounterReadWrite(e: Env, s: State, v: nat, c: Change)
    requires Valid(e, s) && Applies(e, s, c)
    ensures Read(e, s, ProgramCounter) == s.index
    ensures Write(e, s, ProgramCounter, v, c) == c.(flow := Jump(ToInt32(v)))
  {
    Pow2Monotone(31, StackBits(e.wordLength));
    TruncSmall(StackBits(e.wordLength), s.index);
  }

  /** Every read is a stack value; a register or SP read is a W-bit word. */
  lemma ReadBound(e: Env, s: State, op: Operand)
    requires Supported(e.wordLength) && WellFormed(e, s) && IsValue(op) && InRange(e, op)
    ensures Read(e, s, op) < Pow2(StackBits(e.wordLength))
    ensures (op.GeneralRegister? || op.StackPointer?) ==> Read(e, s, op) < Pow2(e.wordLength)
  {
    var w := e.wordLength;
    Pow2Monotone(w, StackBits(w));
    if op.ProgramCounter? || op == GeneralRegister(0) {
      assert Read(e, s, op) == StackInt(w, if op.ProgramCounter? then s.index else 0);
    }
  }

  /** EmitBr: a label target is the label's instruction; any other value
      below 2^31 is dispatched to the instruction of that number. Both land
      on the instruction whose number is the value. */
  lemma TargetIsValue(e: Env, s: State, op: Operand)
    requires Valid(e, s) && IsValue(op) && InRange(e, op)
    ensures op.Label? ==> Target(e, s, op) == op.address
    ensures !op.Label? && Read(e, s, op) < IntLimit ==> Target(e, s, op) == Read(e, s, op)
  {
    if !op.Label? && Read(e, s, op) < IntLimit {
      ToInt32Identity(Read(e, s, op));
    }
  }

  // ---------------------------------------------------------------------
  // Steps

  /** The instruction at s.index has opcode op. */
  predicate At(e: Env, s: State, op: Op) {
    Valid(e, s) && e.code[s.index].op == op
  }

  /** The operands of the instruction at s.index, which have the shape
      its opcode calls for and name existing locals and instructions. */
  function Args(e: Env, s: State): (r: seq<Operand>)
    requires Valid(e, s)
    ensures Matches(ShapeOf(e.code[s.index].op), r)
    ensures forall j :: 0 <= j < |r| ==> InRange(e, r[j])
  {
    e.code[s.index].operands
  }

  /** Exec runs the switch case of the decoded opcode. */
  lemma ExecAt(e: Env, s: State, op: Op)
    requires At(e, s, op)
    ensures Exec(e, s) == ExecShape(e, s, op, ShapeOf(op), Args(e, s))
  {
  }

  /** HLT leaves the method with the registers, the memory and SP as they
      are. */
  lemma HaltStep(e: Env, s: State)
    requires At(e, s, HLT)
    ensures Step(e, s) == Halted(s)
  {
    assert Exec(e, s) == ExecShape(e, s, HLT, NoOperands, Args(e, s));
    assert Apply(s, Keep(s)) == s;
  }

  /** NOP only moves to the next instruction. */
  lemma NopStep(e: Env, s: State)
    requires At(e, s, NOP)
    ensures s.index + 1 < |e.code| && Step(e, s) == Running(s.(index := s.index + 1))
  {
    NotLast(e, s);
    assert Exec(e, s) == ExecShape(e, s, NOP, NoOperands, Args(e, s));
    assert Exec(e, s) == Ok(Keep(s));
    assert Apply(s, Keep(s)) == s;
    assert Step(e, s) == Outcome(e, s, Ok(Keep(s)));
  }

  /** JMP goes to its target, or fails when the dispatch table has no
      entry for it; nothing else changes. */
  lemma JumpStep(e: Env, s: State)
    requires At(e, s, JMP)
    ensures var t := Target(e, s, Args(e, s)[0]);
      Step(e, s) == if 0 <= t < |e.code| then Running(s.(index := t)) else Faulted(BadBranch)
  {
    assert Exec(e, s) == ExecSource(e, s, JMP, Args(e, s)[0]);
    assert Apply(s, Keep(s)) == s;
  }

  // ---------------------------------------------------------------------
  // Memory indices and the stack

  /** A stack value used as a memory index: conv.i leaves it unchanged
      below 2^(StackBits(W) - 1) and makes it negative above, and the array
      is shorter than 2^31, so the access succeeds exactly when the value
      is below the memory size. */
  lemma CellOfValue(e: Env, s: State, x: nat)
    requires Supported(e.wordLength) && |s.memory| < IntLimit && x < Pow2(StackBits(e.wordLength))
    ensures Cell(e, s, x).Ok? <==> x < |s.memory|
    ensures Cell(e, s, x).Ok? ==> Cell(e, s, x).value == x
    ensures Cell(e, s, x).Fail? ==> Cell(e, s, x) == Fail(OutOfBounds)
  {
    var n := StackBits(e.wordLength);
    TruncSmall(n, x);
    Pow2Step(n - 1);
    Pow2Monotone(31, n - 1);
  }

  /** SP - 1 on the stack: the word below SP, or all ones when SP is 0. */
  lemma BelowValue(w: nat, sp: nat)
    requires Supported(w) && sp < Pow2(w)
    ensures sp >= 1 ==> Below(w, sp) == sp - 1 && Trunc(w, Below(w, sp)) == sp - 1
    ensures sp == 0 ==> Below(w, sp) == Pow2(StackBits(w)) - 1
  {
    var n := StackBits(w);
    Pow2Monotone(w, n);
    Pow2Monotone(0, n);
    TruncSmall(n, 1);
    if sp >= 1 {
      TruncSmall(n, sp - 1);
      TruncSmall(w, sp - 1);
    } else {
      TruncAddMultiple(n, Pow2(n) - 1, -1);
      TruncSmall(n, Pow2(n) - 1);
    }
  }

  /** SP + 1 on the stack, stored back into SP: SP + 1 modulo 2^W. */
  lemma AboveValue(w: nat, sp: nat)
    requires Supported(w) && sp < Pow2(w)
    ensures Trunc(w, Trunc(StackBits(w), sp + StackInt(w, 1))) == Trunc(w, sp + 1)
  {
    var n := StackBits(w);
    Pow2Monotone(0, n);
    TruncSmall(n, 1);
    TruncTrunc(w, n, sp + 1);
  }

  // ---------------------------------------------------------------------
  // The instructions of Emit's switch, one case at a time. Each lemma
  // states where the case's change leaves the machine (Outcome); by
  // ExecAt, that is Step when the instruction at s.index has the opcode.

  /** W-bit words and a memory array whose length is an int. */
  predicate Fits(e: Env, s: State) {
    Supported(e.wordLength) && WellFormed(e, s) && |s.memory| < IntLimit
  }

  /** PSH with SP between 1 and the memory size decrements SP and stores
      the low W bits of the source, read with the decremented SP, at the
      new SP; with any other SP the store is outside the array. */
  lemma PushStep(e: Env, s: State, src: Operand)
    requires Fits(e, s) && IsValue(src) && InRange(e, src)
    ensures var w := e.wordLength;
      if 1 <= s.sp <= |s.memory| then
        var t := s.(sp := s.sp - 1);
        Outcome(e, s, Push(e, s, src)) ==
          Running(t.(memory := s.memory[s.sp - 1 := Trunc(w, Read(e, t, src))], index := s.index + 1))
      else Outcome(e, s, Push(e, s, src)) == Faulted(OutOfBounds)
  {
    var w := e.wordLength;
    BelowValue(w, s.sp);
    CellOfValue(e, s, Below(w, s.sp));
  }

  /** POP with SP inside the memory loads the word at SP, increments SP
      modulo 2^W and stores the word, unchanged, in the destination
      register; with any other SP the load is outside the array. */
  lemma PopStep(e: Env, s: State, k: nat)
    requires Fits(e, s) && 1 <= k <= e.registerCount
    ensures var w := e.wordLength;
      if s.sp < |s.memory| then
        Outcome(e, s, Pop(e, s, Some(GeneralRegister(k)))) ==
          Running(s.(registers := s.registers[k - 1 := s.memory[s.sp]], sp := Trunc(w, s.sp + 1), index := s.index + 1))
      else Outcome(e, s, Pop(e, s, Some(GeneralRegister(k)))) == Faulted(OutOfBounds)
  {
    var w := e.wordLength;
    Pow2Monotone(w, StackBits(w));
    CellOfValue(e, s, s.sp);
    AboveValue(w, s.sp);
  }

  /** POP SP: the loaded word is written after the increment, so SP ends
      up holding the word that was on top of the stack. */
  lemma PopIntoSp(e: Env, s: State)
    requires Fits(e, s) && s.sp < |s.memory|
    ensures Outcome(e, s, Pop(e, s, Some(StackPointer))) ==
      Running(s.(sp := s.memory[s.sp], index := s.index + 1))
  {
    var w := e.wordLength;
    Pow2Monotone(w, StackBits(w));
    CellOfValue(e, s, s.sp);
  }

  /** RET with SP inside the memory loads the word at SP, increments SP
      modulo 2^W and jumps to the word converted to int32. */
  lemma ReturnLoads(e: Env, u: State)
    requires Fits(e, u) && u.sp < |u.memory|
    ensures Pop(e, u, None) ==
      Ok(Keep(u).(sp := Trunc(e.wordLength, u.sp + 1), flow := Jump(ToInt32(LoadElement(e.wordLength, u.memory[u.sp])))))
  {
    var w := e.wordLength;
    Pow2Monotone(w, StackBits(w));
    CellOfValue(e, u, u.sp);
    AboveValue(w, u.sp);
  }

  /** RET with SP at or past the end of the memory faults. */
  lemma ReturnOutside(e: Env, u: State)
    requires Fits(e, u) && u.sp >= |u.memory|
    ensures Outcome(e, u, Pop(e, u, None)) == Faulted(OutOfBounds)
  {
    var w := e.wordLength;
    Pow2Monotone(w, StackBits(w));
    CellOfValue(e, u, u.sp);
  }

  /** CAL with SP between 1 and the memory size decrements SP, stores the
      index of the next instruction at the new SP and goes to the target,
      read with the decremented SP. */
  lemma CallStep(e: Env, s: State, dest: Operand)
    requires Fits(e, s) && IsValue(dest) && InRange(e, dest)
    ensures var w := e.wordLength;
      if 1 <= s.sp <= |s.memory| then
        var t := s.(sp := s.sp - 1);
        var target := Target(e, t, dest);
        Outcome(e, s, Call(e, s, dest)) ==
          if 0 <= target < |e.code| then
            Running(t.(memory := s.memory[s.sp - 1 := Trunc(w, s.index + 1)], index := target))
          else Faulted(BadBranch)
      else Outcome(e, s, Call(e, s, dest)) == Faulted(OutOfBounds)
  {
    if 1 <= s.sp <= |s.memory| {
      CallInside(e, s, dest);
    } else {
      var w := e.wordLength;
      BelowValue(w, s.sp);
      CellOfValue(e, s, Below(w, s.sp));
    }
  }

  /** The change CAL makes when SP is between 1 and the memory size. */
  lemma CallInside(e: Env, s: State, dest: Operand)
    requires Fits(e, s) && IsValue(dest) && InRange(e, dest) && 1 <= s.sp <= |s.memory|
    ensures var t := s.(sp := s.sp - 1);
      Call(e, s, dest) == Ok(Keep(t).(cell := Some(Put(s.sp - 1, Trunc(e.wordLength, s.index + 1))), flow := Jump(Target(e, t, dest))))
  {
    CallSlot(e, s);
  }

  /** The cell below an SP between 1 and the memory size, and the return
      address as CAL truncates it. */
  lemma CallSlot(e: Env, s: State)
    requires Fits(e, s) && 1 <= s.sp <= |s.memory|
    ensures var w := e.wordLength;
      && Below(w, s.sp) == s.sp - 1 && Trunc(w, Below(w, s.sp)) == s.sp - 1
      && Cell(e, s, s.sp - 1) == Ok(s.sp - 1)
      && Trunc(w, StackInt(w, s.index + 1)) == Trunc(w, s.index + 1)
  {
    var w := e.wordLength;
    BelowValue(w, s.sp);
    CellOfValue(e, s, s.sp - 1);
    TruncTrunc(w, StackBits(w), s.index + 1);
  }

  /** What CAL stores and where SP ends up, when the store succeeds. */
  lemma CallStores(e: Env, s: State, dest: Operand)
    requires Fits(e, s) && IsValue(dest) && InRange(e, dest) && Call(e, s, dest).Ok?
    ensures var c := Call(e, s, dest).value;
      && 1 <= s.sp <= |s.memory| && c.sp == s.sp - 1
      && c.cell == Some(Put(s.sp - 1, Trunc(e.wordLength, s.index + 1)))
  {
    if 1 <= s.sp <= |s.memory| {
      CallInside(e, s, dest);
    } else {
      var w := e.wordLength;
      BelowValue(w, s.sp);
      CellOfValue(e, s, Below(w, s.sp));
    }
  }

  /** What a later state u holds when SP is where CAL left it and CAL's
      cell is intact: the return address on top of the stack. */
  lemma CallLeaves(e: Env, s: State, dest: Operand, u: State)
    requires Fits(e, s) && IsValue(dest) && InRange(e, dest) && Call(e, s, dest).Ok?
    requires Fits(e, u) && u.sp == Call(e, s, dest).value.sp
    requires var put := Call(e, s, dest).value.cell.value; put.at < |u.memory| && u.memory[put.at] == put.word
    ensures 1 <= s.sp <= |s.memory| && u.sp + 1 == s.sp && u.sp < |u.memory|
    ensures u.memory[u.sp] == Trunc(e.wordLength, s.index + 1)
  {
    CallStores(e, s, dest);
  }

  /** RET undoes CAL: when RET runs with SP where CAL left it and the cell
      CAL wrote still holding the return address, whatever ran in between,
      it restores SP and goes to the instruction after the CAL. At W = 8
      and 16 the return address must be below 2^(W - 1), because ldelem
      sign-extends the word it loads. */
  lemma CallThenReturn(e: Env, s: State, dest: Operand, u: State)
    requires Fits(e, s) && IsValue(dest) && InRange(e, dest) && Call(e, s, dest).Ok?
    requires Fits(e, u) && u.sp == Call(e, s, dest).value.sp
    requires var put := Call(e, s, dest).value.cell.value; put.at < |u.memory| && u.memory[put.at] == put.word
    requires s.index + 1 < |e.code| && |e.code| <= IntLimit
    requires e.wordLength >= 32 || s.index + 1 < Pow2(e.wordLength - 1)
    ensures Outcome(e, u, Pop(e, u, None)) == Running(u.(sp := s.sp, index := s.index + 1))
  {
    CallLeaves(e, s, dest, u);
    ReturnBelow(e, u, s.index + 1, s.sp);
  }

  /** RET from the slot just below sp goes to a and leaves SP at sp. */
  lemma ReturnBelow(e: Env, u: State, a: nat, sp: nat)
    requires Fits(e, u) && u.sp < |u.memory| && u.memory[u.sp] == Trunc(e.wordLength, a)
    requires a < |e.code| && |e.code| <= IntLimit
    requires e.wordLength >= 32 || a < Pow2(e.wordLength - 1)
    requires u.sp + 1 == sp < Pow2(e.wordLength)
    ensures Outcome(e, u, Pop(e, u, None)) == Running(u.(sp := sp, index := a))
  {
    TruncSmall(e.wordLength, sp);
    ReturnTo(e, u, a);
  }

  /** RET with the return address a on top of the stack pops it and goes
      to instruction a. */
  lemma ReturnTo(e: Env, u: State, a: nat)
    requires Fits(e, u) && u.sp < |u.memory| && u.memory[u.sp] == Trunc(e.wordLength, a)
    requires a < |e.code| && |e.code| <= IntLimit
    requires e.wordLength >= 32 || a < Pow2(e.wordLength - 1)
    ensures Outcome(e, u, Pop(e, u, None)) == Running(u.(sp := Trunc(e.wordLength, u.sp + 1), index := a))
  {
    ReturnLoads(e, u);
    ReturnAddress(e.wordLength, a);
  }

  /** The other side of the bound: at W = 8 and 16 a return address of
      2^(W - 1) or more comes back negative, so RET's jump has no entry in
      the dispatch table and the step faults. */
  lemma ReturnAddressSignExtends(e: Env, s: State, dest: Operand, u: State)
    requires Fits(e, s) && IsValue(dest) && InRange(e, dest) && Call(e, s, dest).Ok?
    requires Fits(e, u) && u.sp == Call(e, s, dest).value.sp
    requires var put := Call(e, s, dest).value.cell.value; put.at < |u.memory| && u.memory[put.at] == put.word
    requires e.wordLength <= 16 && Pow2(e.wordLength - 1) <= s.index + 1 < Pow2(e.wordLength)
    ensures Outcome(e, u, Pop(e, u, None)) == Faulted(BadBranch)
  {
    CallLeaves(e, s, dest, u);
    NegativeAddress(e.wordLength, s.index + 1);
    NegativeReturnFaults(e, u);
  }

  /** RET whose popped address reads back negative faults. */
  lemma NegativeReturnFaults(e: Env, u: State)
    requires Fits(e, u) && u.sp < |u.memory|
    requires ToInt32(LoadElement(e.wordLength, u.memory[u.sp])) < 0
    ensures Outcome(e, u, Pop(e, u, None)) == Faulted(BadBranch)
  {
    ReturnLoads(e, u);
  }

  /** The return address CAL stores comes back from ldelem and conv.i4
      unchanged. */
  lemma ReturnAddress(w: nat, a: nat)
    requires Supported(w) && a < IntLimit && (w >= 32 || a < Pow2(w - 1))
    ensures ToInt32(LoadElement(w, Trunc(w, a))) == a
  {
    IntLimitIsPow2();
    if w >= 32 {
      Pow2Monotone(31, w - 1);
      Pow2Monotone(w - 1, w);
    } else {
      Pow2Monotone(w - 1, w);
    }
    TruncSmall(w, a);
    ToInt32Identity(a);
  }

  /** ldelem.i1 / ldelem.i2 of a word with its top bit set, converted to
      int32, is negative. */
  lemma NegativeAddress(w: nat, a: nat)
    requires w == 8 || w == 16
    requires Pow2(w - 1) <= a < Pow2(w)
    ensures ToInt32(LoadElement(w, Trunc(w, a))) < 0
  {
    TruncSmall(w, a);
    Pow2Monotone(w, 32);
    Pow2Step(31);
    assert LoadElement(w, a) == Trunc(32, a - Pow2(w) as int);
    TruncAddMultiple(32, a - Pow2(w) as int, 1);
    TruncSmall(32, a - Pow2(w) as int + Pow2(32));
  }

  // ---------------------------------------------------------------------
  // Register results, branches, ports and memory

  /** An arithmetic or logic instruction into register k stores the
      modular or bitwise result of its two source words there and goes on
      to the next instruction. */
  lemma ModularStep(e: Env, s: State, op: Op, k: nat, a: nat, b: nat)
    requires Fits(e, s) && Modular(op) && 1 <= k <= e.registerCount
    ensures var w := e.wordLength;
      Outcome(e, s, Operate(e, s, GeneralRegister(k), BinaryValue(e, s, op, a, b))) ==
        Running(s.(registers := s.registers[k - 1 := WordResult(op, w, Trunc(w, a), Trunc(w, b))], index := s.index + 1))
  {
    var w := e.wordLength;
    BinaryStoresWord(op, w, a, b);
    var v := BinaryResult(op, w, a, b).value;
    assert BinaryValue(e, s, op, a, b) == Ok(v);
    var c := Keep(s).(register := Some(Put(k, Trunc(w, v))));
    assert Write(e, s, GeneralRegister(k), v, Keep(s)) == c;
    assert Outcome(e, s, Ok(c)) == Running(Apply(s, c).(index := s.index + 1));
  }

  /** DIV and MOD with a zero divisor throw; otherwise register k gets the
      low W bits of the unsigned quotient or remainder. */
  lemma DivisionStep(e: Env, s: State, op: Op, k: nat, a: nat, b: nat)
    requires Fits(e, s) && op in {DIV, MOD} && 1 <= k <= e.registerCount
    ensures var w := e.wordLength;
      Outcome(e, s, Operate(e, s, GeneralRegister(k), BinaryValue(e, s, op, a, b))) ==
        if b == 0 then Faulted(DivideByZero)
        else Running(s.(registers := s.registers[k - 1 := Trunc(w, if op == DIV then a / b else a % b)], index := s.index + 1))
  {
  }

  /** A branch that is taken goes to its target, or faults when the
      dispatch table has no entry for it; one that is not taken goes on to
      the next instruction. Nothing else changes. */
  lemma BranchStep(e: Env, s: State, taken: bool, dest: Operand)
    requires Fits(e, s) && IsValue(dest) && InRange(e, dest)
    ensures var target := Target(e, s, dest);
      Outcome(e, s, Ok(Branch(e, s, taken, dest))) ==
        if !taken then Running(s.(index := s.index + 1))
        else if 0 <= target < |e.code| then Running(s.(index := target))
        else Faulted(BadBranch)
  {
    assert Apply(s, Keep(s)) == s;
  }

  /** IN into register k stores the low W bits of the next value the port
      reads, and counts the read. */
  lemma InStep(e: Env, s: State, k: nat, port: string)
    requires Fits(e, s) && 1 <= k <= e.registerCount
    ensures Outcome(e, s, ExecIn(e, s, GeneralRegister(k), port)) ==
      Running(s.(registers := s.registers[k - 1 := Trunc(e.wordLength, e.input(port, s.readCount))],
                 readCount := s.readCount + 1, index := s.index + 1))
  {
    TruncTrunc(e.wordLength, e.wordLength, e.input(port, s.readCount));
  }

  /** OUT appends the low W bits of the source to the port writes and
      changes nothing else. */
  lemma OutStep(e: Env, s: State, port: string, src: Operand)
    requires Fits(e, s) && IsValue(src) && InRange(e, src)
    ensures Outcome(e, s, ExecOut(e, s, port, src)) ==
      Running(s.(trace := s.trace + [PortWrite(port, Trunc(e.wordLength, Read(e, s, src)))], index := s.index + 1))
  {
  }

  /** STR stores the low W bits of the value at the address when the
      address is inside the memory, and faults otherwise. */
  lemma StoreStep(e: Env, s: State, address: nat, v: nat)
    requires Fits(e, s) && address < Pow2(StackBits(e.wordLength))
    ensures Outcome(e, s, Store(e, s, address, v)) ==
      if address < |s.memory| then Running(s.(memory := s.memory[address := Trunc(e.wordLength, v)], index := s.index + 1))
      else Faulted(OutOfBounds)
  {
    CellOfValue(e, s, address);
  }

  /** LOD into register k gets the word at the address, unchanged, when
      the address is inside the memory, and faults otherwise. */
  lemma LoadStep(e: Env, s: State, k: nat, address: nat)
    requires Fits(e, s) && 1 <= k <= e.registerCount && address < Pow2(StackBits(e.wordLength))
    ensures Outcome(e, s, Operate(e, s, GeneralRegister(k), Fetch(e, s, address))) ==
      if address < |s.memory| then Running(s.(registers := s.registers[k - 1 := s.memory[address]], index := s.index + 1))
      else Faulted(OutOfBounds)
  {
    CellOfValue(e, s, address);
  }

  /** A load from the address a store just wrote gives back the stored
      word: the low W bits of the value. */
  lemma StoreThenLoad(e: Env, s: State, address: nat, v: nat, k: nat)
    requires Fits(e, s) && 1 <= k <= e.registerCount && address < |s.memory|
    ensures var t := s.(memory := s.memory[address := Trunc(e.wordLength, v)], index := s.index + 1);
      Outcome(e, s, Store(e, s, address, v)) == Running(t) &&
      Outcome(e, t, Operate(e, t, GeneralRegister(k), Fetch(e, t, address))) ==
        Running(t.(registers := t.registers[k - 1 := Trunc(e.wordLength, v)], index := t.index + 1))
  {
    var w := e.wordLength;
    var t := s.(memory := s.memory[address := Trunc(w, v)], index := s.index + 1);
    IntLimitIsPow2();
    Pow2Monotone(31, StackBits(w));
    StoreStep(e, s, address, v);
    LoadStep(e, t, k, address);
  }

  /** CPY copies the word at src to dst when both are inside the memory,
      and faults otherwise. */
  lemma CopyStep(e: Env, s: State, dst: nat, src: nat)
    requires Fits(e, s) && dst < Pow2(StackBits(e.wordLength)) && src < Pow2(StackBits(e.wordLength))
    ensures Outcome(e, s, Copy(e, s, dst, src)) ==
      if dst < |s.memory| && src < |s.memory| then Running(s.(memory := s.memory[dst := s.memory[src]], index := s.index + 1))
      else Faulted(OutOfBounds)
  {
    CellOfValue(e, s, dst);
    CellOfValue(e, s, src);
  }
}
