/** The run-time meaning of the code Instruction.Emit generates
    (Instructions.cs lines 7-104 and 128-566, Operands.cs lines 12-72), and
    the start-up state the method prologue builds (Program.cs lines
    217-250).

    A State is the machine between two instructions. While an instruction
    computes, its values are stack values: the unsigned bit patterns of
    Words, StackBits(W) bits wide. Registers, the SP local and memory cells
    hold W-bit words; a store narrows to W bits. */
module Semantics {
  import opened Wrappers
  import opened Words
  import opened Operands
  import opened Directives
  import opened Programs

  // ---------------------------------------------------------------------
  // Opcodes and the operand shapes Emit accepts

  /** The opcodes of Emit's switch. */
  datatype Op =
    | NOP | HLT | IN | OUT | MOV | IMM
    | PSH | POP | RET
    | LOD | LLOD | STR | LSTR | CPY
    | ADD | SUB | INC | DEC | NEG | MLT | DIV | MOD
    | NOT | OR | NOR | AND | NAND | XOR | XNOR
    | RSH | SRS | LSH | BSR | BSS | BSL
    | JMP | CAL
    | BRE | BNE | BRG | BGE | BRL | BLE | BRC | BNC
    | BEV | BOD | BRZ | BNZ | BRP | BRN
    | SETE | SETNE | SETLT | SETLE | SETGT | SETGE | SETC | SETNC

  const Opcodes: map<string, Op> := map[
    "NOP" := NOP, "IN" := IN, "OUT" := OUT, "MOV" := MOV, "IMM" := IMM,
    "PSH" := PSH, "POP" := POP, "RET" := RET,
    "LOD" := LOD, "LLOD" := LLOD, "STR" := STR, "LSTR" := LSTR, "CPY" := CPY,
    "ADD" := ADD, "SUB" := SUB, "INC" := INC, "DEC" := DEC, "NEG" := NEG, "MLT" := MLT,
    "DIV" := DIV, "MOD" := MOD,
    "NOT" := NOT, "OR" := OR, "NOR" := NOR, "AND" := AND, "NAND" := NAND, "XOR" := XOR, "XNOR" := XNOR,
    "RSH" := RSH, "SRS" := SRS, "LSH" := LSH, "BSR" := BSR, "BSS" := BSS, "BSL" := BSL,
    "JMP" := JMP, "CAL" := CAL,
    "BRE" := BRE, "BNE" := BNE, "BRG" := BRG, "BGE" := BGE, "BRL" := BRL, "BLE" := BLE,
    "BRC" := BRC, "BNC" := BNC,
    "BEV" := BEV, "BOD" := BOD, "BRZ" := BRZ, "BNZ" := BNZ, "BRP" := BRP, "BRN" := BRN,
    "SETE" := SETE, "SETNE" := SETNE, "SETLT" := SETLT, "SETLE" := SETLE,
    "SETGT" := SETGT, "SETGE" := SETGE, "SETC" := SETC, "SETNC" := SETNC,
    "HLT" := HLT]

  function Decode(name: string): Option<Op> {
    if name in Opcodes then Some(Opcodes[name]) else None
  }

  /** The halt instruction the assembler appends decodes as HLT. */
  lemma DecodeHalt()
    ensures Decode("HLT") == Some(HLT)
  {
  }

  /** The operand patterns of the switch cases. */
  datatype Shape =
    | NoOperands                // NOP, HLT, RET
    | OneValue                  // PSH, JMP, CAL
    | OneRegister               // POP
    | RegisterPort              // IN
    | PortValue                 // OUT
    | RegisterValue             // MOV, LOD and the one-source operations
    | RegisterImmediate         // IMM
    | TwoValues                 // STR, CPY and the one-source branches
    | RegisterTwoValues         // LLOD, the two-source operations and SETxx
    | ThreeValues               // LSTR and the two-source branches

  function ShapeOf(op: Op): Shape {
    if op.NOP? || op.HLT? || op.RET? then NoOperands
    else if op.PSH? || op.JMP? || op.CAL? then OneValue
    else if op.POP? then OneRegister
    else if op.IN? then RegisterPort
    else if op.OUT? then PortValue
    else if op.IMM? then RegisterImmediate
    else if op in {MOV, LOD, INC, DEC, NEG, NOT, RSH, SRS, LSH} then RegisterValue
    else if op in {STR, CPY, BEV, BOD, BRZ, BNZ, BRP, BRN} then TwoValues
    else if op in {LSTR, BRE, BNE, BRG, BGE, BRL, BLE, BRC, BNC} then ThreeValues
    else RegisterTwoValues
  }

  predicate Matches(shape: Shape, ops: seq<Operand>) {
    match shape
    case NoOperands => ops == []
    case OneValue => |ops| == 1 && IsValue(ops[0])
    case OneRegister => |ops| == 1 && IsRegister(ops[0])
    case RegisterPort => |ops| == 2 && IsRegister(ops[0]) && ops[1].Port?
    case PortValue => |ops| == 2 && ops[0].Port? && IsValue(ops[1])
    case RegisterValue => |ops| == 2 && IsRegister(ops[0]) && IsValue(ops[1])
    case RegisterImmediate => |ops| == 2 && IsRegister(ops[0]) && IsImmediate(ops[1])
    case TwoValues => |ops| == 2 && IsValue(ops[0]) && IsValue(ops[1])
    case RegisterTwoValues => |ops| == 3 && IsRegister(ops[0]) && IsValue(ops[1]) && IsValue(ops[2])
    case ThreeValues => |ops| == 3 && IsValue(ops[0]) && IsValue(ops[1]) && IsValue(ops[2])
  }

  /** An (opcode, operands) pair the switch has a case for. */
  predicate Accepts(ins: Instruction) {
    Decode(ins.opCode).Some? && Matches(ShapeOf(Decode(ins.opCode).value), ins.operands)
  }

  /** An instruction as Emit leaves it in the generated method: the
      opcode string has been matched against the switch once, at emit
      time, and the code runs the case it selected. */
  datatype Emitted = Emitted(op: Op, operands: seq<Operand>)

  /** The emitted form of an instruction the switch accepts. */
  function EmitOne(ins: Instruction): (c: Emitted)
    requires Accepts(ins)
    ensures Decode(ins.opCode) == Some(c.op) && c.operands == ins.operands
    ensures Matches(ShapeOf(c.op), c.operands)
  {
    Emitted(Decode(ins.opCode).value, ins.operands)
  }

  /** The message of the switch's default case. It formats base.ToString(),
      which for a record is object.ToString(): the type name. */
  const Unsupported := "Unsupported instruction: Instruction"

  // ---------------------------------------------------------------------
  // Machine state

  /** A value handed to the port's Write method. */
  datatype PortWrite = PortWrite(port: string, value: nat)

  /** The registers 1..R (register k at position k - 1), the memory words,
      the SP local, the index of the instruction to run next, the port
      writes so far and the number of port reads so far. */
  datatype State = State(
    registers: seq<nat>, memory: seq<nat>, sp: nat, index: nat,
    trace: seq<PortWrite>, readCount: nat)

  /** What the code runs against: the word length, the register count, the
      instructions and the port. The k-th read of the run (from 0), on port
      `name`, returns input(name, k). */
  datatype Env = Env(wordLength: nat, registerCount: nat, code: seq<Emitted>, input: (string, nat) -> nat)

  /** A general register names a local the method declares: 1..R are the
      registers and R + 1 is the SP local declared after them. A label
      addresses an instruction. */
  predicate InRange(e: Env, op: Operand) {
    (op.GeneralRegister? ==> op.index <= e.registerCount + 1) &&
    (op.Label? ==> op.address < |e.code|)
  }

  /** Code the emitter accepted, that ends in HLT, whose locals and labels
      exist, and whose instruction count fits the int index. */
  predicate Loaded(e: Env) {
    && Supported(e.wordLength)
    && 0 < |e.code| < IntLimit
    && e.code[|e.code| - 1].op == HLT
    && (forall i :: 0 <= i < |e.code| ==> Matches(ShapeOf(e.code[i].op), e.code[i].operands))
    && (forall i, j {:trigger InRange(e, e.code[i].operands[j])} :: 0 <= i < |e.code| && 0 <= j < |e.code[i].operands| ==> InRange(e, e.code[i].operands[j]))
  }

  /** Every register, every memory cell and SP hold W-bit words. */
  predicate WellFormed(e: Env, s: State) {
    && |s.registers| == e.registerCount
    && (forall k :: 0 <= k < |s.registers| ==> s.registers[k] < Pow2(e.wordLength))
    && (forall a :: 0 <= a < |s.memory| ==> s.memory[a] < Pow2(e.wordLength))
    && s.sp < Pow2(e.wordLength)
  }

  /** Loaded code, W-bit words, an instruction to run next, and a memory
      array whose length is an int. */
  predicate Valid(e: Env, s: State) {
    Loaded(e) && WellFormed(e, s) && s.index < |e.code| && |s.memory| < IntLimit
  }

  // ---------------------------------------------------------------------
  // Operand reads and writes (Operands.cs)

  /** The stack value an operand reads as: register 0 is the constant 0,
      other registers and SP load their word zero-extended, an immediate
      (and a label, whose value is its address) loads through
      EmitLdc(ulong), and PC is the constant index of the instruction. */
  function Read(e: Env, s: State, op: Operand): (r: nat)
    requires Supported(e.wordLength) && |s.registers| == e.registerCount && IsValue(op) && InRange(e, op)
    ensures op == GeneralRegister(0) ==> r == 0
    ensures op.GeneralRegister? && 1 <= op.index <= e.registerCount ==> r == s.registers[op.index - 1]
    ensures op == StackPointer || op == GeneralRegister(e.registerCount + 1) ==> r == s.sp
    ensures op.Immediate? ==> Trunc(e.wordLength, r) == Trunc(e.wordLength, op.value)
    ensures op.Label? ==> Trunc(e.wordLength, r) == Trunc(e.wordLength, op.address)
    ensures op == ProgramCounter && s.index < IntLimit ==> r == s.index
  {
    IntLimitIsPow2();
    Pow2Monotone(31, StackBits(e.wordLength));
    var w := e.wordLength;
    match op
    case GeneralRegister(k) =>
      if k == 0 then StackInt(w, 0)
      else if k <= e.registerCount then s.registers[k - 1]
      else s.sp
    case Immediate(v) => StackImmediate(w, v)
    case Label(_, a) => StackImmediate(w, a)
    case StackPointer => s.sp
    case ProgramCounter => StackInt(w, s.index)
  }

  /** One word put at a register number or a memory index. */
  datatype Put = Put(at: nat, word: nat)

  /** Where control goes after an instruction. */
  datatype Flow = Next | Jump(target: int) | Stop

  /** What one instruction does: at most one register and one memory cell
      written, the new SP, at most one port write, the new read count and
      where control goes. */
  datatype Change = Change(
    register: Option<Put>, cell: Option<Put>, sp: nat,
    output: Option<PortWrite>, readCount: nat, flow: Flow)

  /** Nothing changed yet. */
  function Keep(s: State): Change {
    Change(None, None, s.sp, None, s.readCount, Next)
  }

  /** A change that applies to s: the register and the cell exist, and
      every word written has W bits. */
  predicate Applies(e: Env, s: State, c: Change) {
    && (c.register.Some? ==> 1 <= c.register.value.at <= |s.registers| && c.register.value.word < Pow2(e.wordLength))
    && (c.cell.Some? ==> c.cell.value.at < |s.memory| && c.cell.value.word < Pow2(e.wordLength))
    && c.sp < Pow2(e.wordLength)
  }

  /** A store into a destination register: register 0 discards the value,
      a register or SP keeps its low W bits, and PC converts it to an int32
      and jumps through the dispatch table. */
  function Write(e: Env, s: State, op: Operand, v: nat, c: Change): (r: Change)
    requires IsRegister(op) && InRange(e, op) && |s.registers| == e.registerCount && Applies(e, s, c)
    ensures Applies(e, s, r)
    ensures r.cell == c.cell && r.output == c.output && r.readCount == c.readCount
    ensures r.register == c.register || (op.GeneralRegister? && r.register == Some(Put(op.index, Trunc(e.wordLength, v))))
    ensures r.sp == c.sp || op == StackPointer || op == GeneralRegister(e.registerCount + 1)
    ensures r.flow == c.flow || op == ProgramCounter
  {
    var w := e.wordLength;
    match op
    case GeneralRegister(k) =>
      if k == 0 then c
      else if k <= e.registerCount then c.(register := Some(Put(k, Trunc(w, v))))
      else c.(sp := Trunc(w, v))
    case StackPointer => c.(sp := Trunc(w, v))
    case ProgramCounter => c.(flow := Jump(ToInt32(v)))
  }

  /** EmitBr's target: a label is branched to directly, any other value is
      read and converted to an int32 for the dispatch table. */
  function Target(e: Env, s: State, op: Operand): (r: int)
    requires Supported(e.wordLength) && |s.registers| == e.registerCount && IsValue(op) && InRange(e, op)
    ensures op.Label? ==> r == op.address
    ensures !op.Label? ==> -(Pow2(31) as int) <= r < Pow2(31) && Trunc(32, r) == Trunc(32, Read(e, s, op))
  {
    if op.Label? then op.address else ToInt32(Read(e, s, op))
  }

  /** conv.i of a stack value used as a memory index; an index outside the
      array throws. */
  function Cell(e: Env, s: State, x: nat): (r: Result<nat, string>)
    ensures r.Ok? ==> r.value < |s.memory|
    ensures r.Ok? <==> 0 <= ToNative(e.wordLength, x) < |s.memory|
    ensures r.Ok? ==> r.value == ToNative(e.wordLength, x)
    ensures r.Fail? ==> r.error == OutOfBounds
  {
    var i := ToNative(e.wordLength, x);
    if 0 <= i < |s.memory| then Ok(i) else Fail(OutOfBounds)
  }

  const OutOfBounds := "Index was outside the bounds of the array."

  // ---------------------------------------------------------------------
  // Computations on stack values

  /** The one-source operations, on a stack value a: add and sub of the
      constant 1, neg and not, shift right unsigned and signed by one, and
      shift left by one. */
  function UnaryResult(op: Op, w: nat, a: nat): (r: nat)
    requires op in {INC, DEC, NEG, NOT, RSH, SRS, LSH}
    ensures op != RSH ==> r < Pow2(StackBits(w))
    ensures a < Pow2(StackBits(w)) ==> r < Pow2(StackBits(w))
  {
    var n := StackBits(w);
    match op
    case INC => Trunc(n, a + StackInt(w, 1))
    case DEC => Trunc(n, a - StackInt(w, 1))
    case NEG => Trunc(n, -(a as int))
    case NOT => Complement(a, n)
    case RSH => a / 2
    case SRS => Trunc(n, Signed(n, a) / 2)
    case LSH => Trunc(n, a * 2)
  }

  /** The two-source operations. Division and remainder are unsigned and
      throw on a zero divisor; the shift count is conv.i of the second
      value, and a count outside 0 .. StackBits(W) - 1, whose result the
      runtime leaves unspecified, is a failure. */
  function BinaryResult(op: Op, w: nat, a: nat, b: nat): (r: Result<nat, string>)
    requires op in {ADD, SUB, MLT, DIV, MOD, OR, NOR, AND, NAND, XOR, XNOR, BSR, BSS, BSL}
    ensures r.Fail? <==> (op in {DIV, MOD} && b == 0) || (op in {BSR, BSS, BSL} && !(0 <= ToNative(w, b) < StackBits(w)))
    ensures r.Fail? ==> r.error == if op in {DIV, MOD} then DivideByZero else BadShift
    ensures r.Ok? && a < Pow2(StackBits(w)) ==> r.value < Pow2(StackBits(w))
  {
    var n := StackBits(w);
    match op
    case ADD => Ok(Trunc(n, a + b))
    case SUB => Ok(Trunc(n, a - b))
    case MLT => Ok(Trunc(n, a * b))
    case DIV => if b == 0 then Fail(DivideByZero) else QuotientBound(a, b); Ok(a / b)
    case MOD => if b == 0 then Fail(DivideByZero) else QuotientBound(a, b); Ok(a % b)
    case OR => Ok(Bitwise(OrOp, a, b, n))
    case NOR => Ok(Complement(Bitwise(OrOp, a, b, n), n))
    case AND => Ok(Bitwise(AndOp, a, b, n))
    case NAND => Ok(Complement(Bitwise(AndOp, a, b, n), n))
    case XOR => Ok(Bitwise(XorOp, a, b, n))
    case XNOR => Ok(Complement(Bitwise(XorOp, a, b, n), n))
    case BSR | BSS | BSL => ShiftResult(op, w, a, b)
  }

  /** BSR, BSS and BSL: shr.un, shr and shl by conv.i of the count. */
  function ShiftResult(op: Op, w: nat, a: nat, b: nat): (r: Result<nat, string>)
    requires op in {BSR, BSS, BSL}
    ensures r.Ok? <==> 0 <= ToNative(w, b) < StackBits(w)
    ensures r.Fail? ==> r.error == BadShift
    ensures r.Ok? && a < Pow2(StackBits(w)) ==> r.value < Pow2(StackBits(w))
  {
    var n := StackBits(w);
    var count := ToNative(w, b);
    if count < 0 || count >= n then Fail(BadShift)
    else Ok(Shifted(op, n, a, count))
  }

  /** shr.un, shr or shl of an n-bit stack value by count bits. */
  function Shifted(op: Op, n: nat, a: nat, count: nat): (r: nat)
    requires n >= 1
    ensures op != BSR || a < Pow2(n) ==> r < Pow2(n)
  {
    var p := Pow2(count);
    var signed := Signed(n, a);
    if op == BSR then DivNonNegative(a, p); QuotientBound(a, p); a / p
    else if op == BSS then Trunc(n, signed / p)
    else Trunc(n, a * p)
  }

  const DivideByZero := "Attempted to divide by zero."
  const BadShift := "Shift count outside the width of the value"

  /** The two-source conditions: the unsigned comparisons of the branches
      and SETxx, and whether add.ovf.un of the two stack values overflows
      (BRC, SETC) or not (BNC, SETNC). */
  predicate Compare(op: Op, w: nat, a: nat, b: nat): (r: bool)
    requires op in {BRE, BNE, BRG, BGE, BRL, BLE, BRC, BNC, SETE, SETNE, SETLT, SETLE, SETGT, SETGE, SETC, SETNC}
    ensures var n := StackBits(w); a < Pow2(n) && b < Pow2(n) && op in {BRC, SETC} ==> (r <==> Trunc(n, a + b) < a)
    ensures var n := StackBits(w); a < Pow2(n) && b < Pow2(n) && op in {BNC, SETNC} ==> (r <==> Trunc(n, a + b) >= a)
  {
    var n := StackBits(w);
    if a < Pow2(n) && b < Pow2(n) then CarryWraps(n, a, b); Condition(op, n, a, b)
    else Condition(op, n, a, b)
  }

  /** The conditions, with SETNE, SETLE and SETGE computed as the negation
      of ceq, cgt.un and clt.un. */
  predicate Condition(op: Op, n: nat, a: nat, b: nat)
    requires op in {BRE, BNE, BRG, BGE, BRL, BLE, BRC, BNC, SETE, SETNE, SETLT, SETLE, SETGT, SETGE, SETC, SETNC}
  {
    match op
    case BRE | SETE => a == b
    case BNE => a != b
    case SETNE => !(a == b)
    case BRG | SETGT => a > b
    case BGE => a >= b
    case SETGE => !(a < b)
    case BRL | SETLT => a < b
    case BLE => a <= b
    case SETLE => !(a > b)
    case BRC | SETC => a + b >= Pow2(n)
    case BNC | SETNC => a + b < Pow2(n)
  }

  /** The sign mask of BRP and BRN: EmitLdc(1uL << W >> 1). */
  function SignMask(w: nat): (r: nat)
    requires Supported(w)
    ensures w < 64 ==> r == StackImmediate(w, Pow2(w - 1))
    ensures w == 64 ==> r == 0
  {
    if w < 64 then
      SignBitValues(w);
      StackImmediate(w, Msb(w))
    else
      Table64();
      TruncSmall(64, 0);
      StackImmediate(w, Msb(w))
  }

  /** The low W bits of the mask are the sign bit of a word, 2^(W-1). */
  lemma SignMaskBit(w: nat)
    requires Supported(w) && w < 64
    ensures Trunc(w, SignMask(w)) == Pow2(w - 1)
  {
    Pow2Step(w - 1);
    TruncSmall(w, Pow2(w - 1));
  }

  /** The branches that test one value. */
  predicate TestOp(op: Op) {
    op == BEV || op == BOD || op == BRZ || op == BNZ || op == BRP || op == BRN
  }

  /** The one-source branch conditions: brfalse / brtrue of the value, of
      the value AND 1, or of the value AND the sign mask. */
  predicate Test(op: Op, w: nat, a: nat): (r: bool)
    requires Supported(w) && TestOp(op)
    ensures op == BEV ==> (r <==> a % 2 == 0)
    ensures op == BOD ==> (r <==> a % 2 == 1)
    ensures op == BRP && w < 64 && a < Pow2(w) ==> (r <==> a < Pow2(w - 1))
    ensures op == BRN && w < 64 && a < Pow2(w) ==> (r <==> a >= Pow2(w - 1))
    ensures (op == BRP || op == BRN) && w == 64 ==> (r <==> op == BRP)
  {
    CheckParity(op, w, a);
    CheckSign(op, w, a);
    Check(op, w, a)
  }

  lemma CheckParity(op: Op, w: nat, a: nat)
    requires Supported(w) && TestOp(op)
    ensures op == BEV ==> (Check(op, w, a) <==> a % 2 == 0)
    ensures op == BOD ==> (Check(op, w, a) <==> a % 2 == 1)
  {
    if op == BEV || op == BOD {
      var n := StackBits(w);
      Pow2Step(n - 1);
      assert StackInt(w, 1) == 1;
      AndOne(a, n);
      assert Bitwise(AndOp, a, StackInt(w, 1), n) == a % 2;
    }
  }

  lemma CheckSign(op: Op, w: nat, a: nat)
    requires Supported(w) && TestOp(op)
    ensures (op == BRP || op == BRN) && w < 64 && a < Pow2(w) ==> (Check(op, w, a) <==> (op == BRP) == (a < Pow2(w - 1)))
    ensures (op == BRP || op == BRN) && w == 64 ==> (Check(op, w, a) <==> op == BRP)
  {
    var n := StackBits(w);
    if op != BRP && op != BRN {
    } else if w < 64 {
      if a < Pow2(w) {
        SignMaskBit(w);
        AndTopBit(a, SignMask(w), w - 1, n);
      }
    } else {
      AndZero(a, n);
    }
  }

  /** brfalse / brtrue of the value, of the value AND 1, or of the value
      AND the sign mask. */
  predicate Check(op: Op, w: nat, a: nat)
    requires Supported(w) && TestOp(op)
  {
    var n := StackBits(w);
    if op == BEV then Bitwise(AndOp, a, StackInt(w, 1), n) == 0
    else if op == BOD then Bitwise(AndOp, a, StackInt(w, 1), n) != 0
    else if op == BRZ then a == 0
    else if op == BNZ then a != 0
    else if op == BRP then Bitwise(AndOp, a, SignMask(w), n) == 0
    else Bitwise(AndOp, a, SignMask(w), n) != 0
  }

  /** The stack value SETxx leaves for a condition: the all-ones immediate
      times 1 or 0. */
  function SetValue(w: nat, holds: bool): (r: nat)
    requires Supported(w)
    ensures r < Pow2(StackBits(w))
    ensures Trunc(w, r) == if holds then MaxWord(w) else 0
  {
    AllOnesWord(w);
    TruncSmall(w, 0);
    if holds then StackImmediate(w, Pow2(64) - 1) else StackInt(w, 0)
  }

  // ---------------------------------------------------------------------
  // Memory and stack instructions

  /** LOD and LLOD: the word in the cell at the address, loaded with
      ldelem. */
  function Fetch(e: Env, s: State, address: nat): (r: Result<nat, string>)
    requires Supported(e.wordLength) && WellFormed(e, s)
    ensures r.Ok? <==> 0 <= ToNative(e.wordLength, address) < |s.memory|
    ensures r.Fail? ==> r.error == OutOfBounds
    ensures r.Ok? ==> r.value < Pow2(StackBits(e.wordLength))
    ensures r.Ok? ==> Trunc(e.wordLength, r.value) == s.memory[ToNative(e.wordLength, address)]
  {
    match Cell(e, s, address)
    case Fail(m) => Fail(m)
    case Ok(i) => Ok(LoadElement(e.wordLength, s.memory[i]))
  }

  /** A computed value, or the exception computing it threw, stored into
      the destination register. */
  function Operate(e: Env, s: State, dest: Operand, r: Result<nat, string>): (c: Result<Change, string>)
    requires IsRegister(dest) && InRange(e, dest) && WellFormed(e, s)
    ensures c.Ok? ==> Applies(e, s, c.value)
  {
    match r
    case Fail(m) => Fail(m)
    case Ok(v) => Ok(Write(e, s, dest, v, Keep(s)))
  }

  /** STR and LSTR: one cell written with the low W bits of v. */
  function Store(e: Env, s: State, address: nat, v: nat): (r: Result<Change, string>)
    requires WellFormed(e, s)
    ensures r.Ok? ==> Applies(e, s, r.value)
  {
    match Cell(e, s, address)
    case Fail(m) => Fail(m)
    case Ok(i) => Ok(Keep(s).(cell := Some(Put(i, Trunc(e.wordLength, v)))))
  }

  /** CPY: the cell at src, loaded with ldelem, stored at dst. */
  function Copy(e: Env, s: State, dst: nat, src: nat): (r: Result<Change, string>)
    requires Supported(e.wordLength) && WellFormed(e, s)
    ensures r.Ok? ==> Applies(e, s, r.value)
  {
    match Cell(e, s, dst)
    case Fail(m) => Fail(m)
    case Ok(i) =>
      match Cell(e, s, src)
      case Fail(m) => Fail(m)
      case Ok(j) => Ok(Keep(s).(cell := Some(Put(i, Trunc(e.wordLength, LoadElement(e.wordLength, s.memory[j]))))))
  }

  /** SP - 1 on the stack: where PSH and CAL store, and (narrowed to W
      bits) the new SP. */
  function Below(w: nat, sp: nat): nat {
    Trunc(StackBits(w), sp - StackInt(w, 1))
  }

  /** PSH: SP is decremented and then the source, read with the new SP, is
      stored at the decremented SP. */
  function Push(e: Env, s: State, src: Operand): (r: Result<Change, string>)
    requires IsValue(src) && InRange(e, src) && Supported(e.wordLength) && WellFormed(e, s)
    ensures r.Ok? ==> Applies(e, s, r.value)
  {
    var w := e.wordLength;
    var top := Below(w, s.sp);
    var t := s.(sp := Trunc(w, top));
    match Cell(e, s, top)
    case Fail(m) => Fail(m)
    case Ok(i) => Ok(Keep(t).(cell := Some(Put(i, Trunc(w, Read(e, t, src))))))
  }

  /** POP and RET: the cell at SP is loaded and SP incremented; POP stores
      the word (after the increment, so POP SP keeps the loaded word), RET
      jumps to it through the dispatch table. */
  function Pop(e: Env, s: State, dest: Option<Operand>): (r: Result<Change, string>)
    requires dest.Some? ==> IsRegister(dest.value) && InRange(e, dest.value)
    requires Supported(e.wordLength) && WellFormed(e, s)
    ensures r.Ok? ==> Applies(e, s, r.value)
  {
    var w := e.wordLength;
    match Cell(e, s, s.sp)
    case Fail(m) => Fail(m)
    case Ok(i) =>
      var v := LoadElement(w, s.memory[i]);
      var c := Keep(s).(sp := Trunc(w, Trunc(StackBits(w), s.sp + StackInt(w, 1))));
      if dest.Some? then Ok(Write(e, s, dest.value, v, c))
      else Ok(c.(flow := Jump(ToInt32(v))))
  }

  /** CAL: SP is decremented, the index of the next instruction is stored
      there, and control goes to the destination, read with the new SP. */
  function Call(e: Env, s: State, dest: Operand): (r: Result<Change, string>)
    requires IsValue(dest) && InRange(e, dest) && Supported(e.wordLength) && WellFormed(e, s)
    ensures r.Ok? ==> Applies(e, s, r.value)
  {
    var w := e.wordLength;
    var top := Below(w, s.sp);
    var t := s.(sp := Trunc(w, top));
    match Cell(e, s, top)
    case Fail(m) => Fail(m)
    case Ok(i) =>
      Ok(Keep(t).(cell := Some(Put(i, Trunc(w, StackInt(w, s.index + 1)))), flow := Jump(Target(e, t, dest))))
  }

  /** A conditional branch: taken or not. */
  function Branch(e: Env, s: State, taken: bool, dest: Operand): (r: Change)
    requires IsValue(dest) && InRange(e, dest) && Supported(e.wordLength) && WellFormed(e, s)
    ensures Applies(e, s, r)
  {
    if taken then Keep(s).(flow := Jump(Target(e, s, dest))) else Keep(s)
  }

  // ---------------------------------------------------------------------
  // One instruction, by operand shape

  /** The opcodes of each shape. */
  lemma ShapeOpcodes(op: Op)
    ensures ShapeOf(op) == NoOperands ==> op in {NOP, HLT, RET}
    ensures ShapeOf(op) == OneValue ==> op in {PSH, JMP, CAL}
    ensures ShapeOf(op) == OneRegister ==> op == POP
    ensures ShapeOf(op) == RegisterPort ==> op == IN
    ensures ShapeOf(op) == PortValue ==> op == OUT
    ensures ShapeOf(op) == RegisterImmediate ==> op == IMM
    ensures ShapeOf(op) == RegisterValue ==> op in {MOV, LOD, INC, DEC, NEG, NOT, RSH, SRS, LSH}
    ensures ShapeOf(op) == TwoValues ==> op in {STR, CPY, BEV, BOD, BRZ, BNZ, BRP, BRN}
    ensures ShapeOf(op) == ThreeValues ==> op in {LSTR, BRE, BNE, BRG, BGE, BRL, BLE, BRC, BNC}
    ensures ShapeOf(op) == RegisterTwoValues ==>
      op in {LLOD, ADD, SUB, MLT, DIV, MOD, OR, NOR, AND, NAND, XOR, XNOR, BSR, BSS, BSL, SETE, SETNE, SETLT, SETLE, SETGT, SETGE, SETC, SETNC}
  {
  }

  /** What an instruction's change may touch: only STR, LSTR, CPY, PSH
      and CAL write a memory cell; a register is written only as the
      instruction's first operand; SP changes only by PSH, POP, RET and
      CAL or as the destination; only OUT writes to a port, only IN reads
      one (and counts the read), and only HLT leaves the method. */
  predicate Confined(e: Env, s: State, op: Op, first: Option<Operand>, c: Change) {
    && (c.cell.Some? ==> op in {STR, LSTR, CPY, PSH, CAL})
    && (c.register.Some? ==> first == Some(GeneralRegister(c.register.value.at)))
    && (c.sp != s.sp ==> op in {PSH, POP, RET, CAL} || first in {Some(StackPointer), Some(GeneralRegister(e.registerCount + 1))})
    && (c.output.Some? <==> op == OUT)
    && (c.readCount == if op == IN then s.readCount + 1 else s.readCount)
    && (c.flow == Stop <==> op == HLT)
  }

  /** NOP, HLT and RET. */
  function ExecBare(e: Env, s: State, op: Op): (r: Result<Change, string>)
    requires ShapeOf(op) == NoOperands && Supported(e.wordLength) && WellFormed(e, s)
    ensures r.Ok? ==> Applies(e, s, r.value)
    ensures r.Ok? ==> Confined(e, s, op, None, r.value)
  {
    ShapeOpcodes(op);
    if op == NOP then Ok(Keep(s))
    else if op == HLT then Ok(Keep(s).(flow := Stop))
    else Pop(e, s, None)
  }

  /** PSH, JMP and CAL. */
  function ExecSource(e: Env, s: State, op: Op, src: Operand): (r: Result<Change, string>)
    requires ShapeOf(op) == OneValue && IsValue(src) && InRange(e, src)
    requires Supported(e.wordLength) && WellFormed(e, s)
    ensures r.Ok? ==> Applies(e, s, r.value)
    ensures r.Ok? ==> Confined(e, s, op, Some(src), r.value)
  {
    ShapeOpcodes(op);
    if op == PSH then Push(e, s, src)
    else if op == JMP then Ok(Branch(e, s, true, src))
    else Call(e, s, src)
  }

  /** IN: the port's Read result, a word, into the destination. */
  function ExecIn(e: Env, s: State, dest: Operand, port: string): (r: Result<Change, string>)
    requires IsRegister(dest) && InRange(e, dest) && Supported(e.wordLength) && WellFormed(e, s)
    ensures r.Ok? ==> Applies(e, s, r.value)
    ensures r.Ok? ==> Confined(e, s, IN, Some(dest), r.value)
  {
    var v := Trunc(e.wordLength, e.input(port, s.readCount));
    Ok(Write(e, s, dest, v, Keep(s).(readCount := s.readCount + 1)))
  }

  /** OUT: the port's Write method gets the low W bits of the source. */
  function ExecOut(e: Env, s: State, port: string, src: Operand): (r: Result<Change, string>)
    requires IsValue(src) && InRange(e, src) && Supported(e.wordLength) && WellFormed(e, s)
    ensures r.Ok? ==> Applies(e, s, r.value)
    ensures r.Ok? ==> Confined(e, s, OUT, Some(Port(port)), r.value)
  {
    Ok(Keep(s).(output := Some(PortWrite(port, Trunc(e.wordLength, Read(e, s, src))))))
  }

  /** The (Register, Value) and (Register, Immediate) shapes: MOV, IMM, LOD
      and the one-source operations, each storing one value into the
      destination. */
  function ExecSingle(e: Env, s: State, op: Op, dest: Operand, src: Operand): (r: Result<Change, string>)
    requires ShapeOf(op) == RegisterValue || ShapeOf(op) == RegisterImmediate
    requires IsRegister(dest) && InRange(e, dest) && IsValue(src) && InRange(e, src)
    requires Supported(e.wordLength) && WellFormed(e, s)
    ensures r.Ok? ==> Applies(e, s, r.value)
    ensures r.Ok? ==> Confined(e, s, op, Some(dest), r.value)
  {
    ShapeOpcodes(op);
    Operate(e, s, dest, SingleValue(e, s, op, Read(e, s, src)))
  }

  /** The value MOV, IMM, LOD or a one-source operation computes from the
      stack value a. */
  function SingleValue(e: Env, s: State, op: Op, a: nat): Result<nat, string>
    requires op in {MOV, IMM, LOD, INC, DEC, NEG, NOT, RSH, SRS, LSH}
    requires Supported(e.wordLength) && WellFormed(e, s)
  {
    if op == MOV || op == IMM then Ok(a)
    else if op == LOD then Fetch(e, s, a)
    else Ok(UnaryResult(op, e.wordLength, a))
  }

  /** The (Value, Value) shape: STR, CPY and the one-source branches. */
  function ExecPair(e: Env, s: State, op: Op, x: Operand, y: Operand): (r: Result<Change, string>)
    requires ShapeOf(op) == TwoValues
    requires IsValue(x) && InRange(e, x) && IsValue(y) && InRange(e, y)
    requires Supported(e.wordLength) && WellFormed(e, s)
    ensures r.Ok? ==> Applies(e, s, r.value)
    ensures r.Ok? ==> Confined(e, s, op, Some(x), r.value)
  {
    ShapeOpcodes(op);
    var a := Read(e, s, x);
    var b := Read(e, s, y);
    if op == STR then Store(e, s, a, b)
    else if op == CPY then Copy(e, s, a, b)
    else Ok(Branch(e, s, Test(op, e.wordLength, b), x))
  }

  /** The (Value, Value, Value) shape: LSTR and the two-source branches. */
  function ExecTriple(e: Env, s: State, op: Op, x: Operand, y: Operand, z: Operand): (r: Result<Change, string>)
    requires ShapeOf(op) == ThreeValues
    requires IsValue(x) && InRange(e, x) && IsValue(y) && InRange(e, y) && IsValue(z) && InRange(e, z)
    requires Supported(e.wordLength) && WellFormed(e, s)
    ensures r.Ok? ==> Applies(e, s, r.value)
    ensures r.Ok? ==> Confined(e, s, op, Some(x), r.value)
  {
    ShapeOpcodes(op);
    var w := e.wordLength;
    var b := Read(e, s, y);
    var c := Read(e, s, z);
    if op == LSTR then Store(e, s, Trunc(StackBits(w), Read(e, s, x) + b), c)
    else Ok(Branch(e, s, Compare(op, w, b, c), x))
  }

  /** The (Register, Value, Value) shape: LLOD, the two-source operations
      and SETxx, each storing one value into the destination. */
  function ExecBinary(e: Env, s: State, op: Op, dest: Operand, y: Operand, z: Operand): (r: Result<Change, string>)
    requires ShapeOf(op) == RegisterTwoValues
    requires IsRegister(dest) && InRange(e, dest) && IsValue(y) && InRange(e, y) && IsValue(z) && InRange(e, z)
    requires Supported(e.wordLength) && WellFormed(e, s)
    ensures r.Ok? ==> Applies(e, s, r.value)
    ensures r.Ok? ==> Confined(e, s, op, Some(dest), r.value)
  {
    ShapeOpcodes(op);
    Operate(e, s, dest, BinaryValue(e, s, op, Read(e, s, y), Read(e, s, z)))
  }

  /** The value LLOD, a two-source operation or SETxx computes from the
      stack values a and b: LLOD loads the cell at a + b. */
  function BinaryValue(e: Env, s: State, op: Op, a: nat, b: nat): Result<nat, string>
    requires op in {LLOD, ADD, SUB, MLT, DIV, MOD, OR, NOR, AND, NAND, XOR, XNOR, BSR, BSS, BSL, SETE, SETNE, SETLT, SETLE, SETGT, SETGE, SETC, SETNC}
    requires Supported(e.wordLength) && WellFormed(e, s)
  {
    var w := e.wordLength;
    if op == LLOD then Fetch(e, s, Trunc(StackBits(w), a + b))
    else if op in {SETE, SETNE, SETLT, SETLE, SETGT, SETGE, SETC, SETNC} then Ok(SetValue(w, Compare(op, w, a, b)))
    else BinaryResult(op, w, a, b)
  }

  /** The first operand of an instruction, if it has one. */
  function First(o: seq<Operand>): Option<Operand> {
    if |o| == 0 then None else Some(o[0])
  }

  /** The instruction op with operands o, of shape `shape`. */
  function ExecShape(e: Env, s: State, op: Op, shape: Shape, o: seq<Operand>): (r: Result<Change, string>)
    requires shape == ShapeOf(op) && Matches(shape, o) && forall j :: 0 <= j < |o| ==> InRange(e, o[j])
    requires Supported(e.wordLength) && WellFormed(e, s)
    ensures r.Ok? ==> Applies(e, s, r.value)
    ensures r.Ok? ==> Confined(e, s, op, First(o), r.value)
  {
    match shape
    case NoOperands => ExecBare(e, s, op)
    case OneValue => ExecSource(e, s, op, o[0])
    case OneRegister => Pop(e, s, Some(o[0]))
    case RegisterPort => ExecIn(e, s, o[0], o[1].name)
    case PortValue => ExecOut(e, s, o[0].name, o[1])
    case _ => ExecData(e, s, op, shape, o)
  }

  /** The shapes whose operands after the first are all values. */
  function ExecData(e: Env, s: State, op: Op, shape: Shape, o: seq<Operand>): (r: Result<Change, string>)
    requires shape == ShapeOf(op) && Matches(shape, o) && forall j :: 0 <= j < |o| ==> InRange(e, o[j])
    requires Supported(e.wordLength) && WellFormed(e, s)
    requires shape in {RegisterValue, RegisterImmediate, TwoValues, ThreeValues, RegisterTwoValues}
    ensures r.Ok? ==> Applies(e, s, r.value)
    ensures r.Ok? ==> Confined(e, s, op, First(o), r.value)
  {
    match shape
    case RegisterValue => ExecSingle(e, s, op, o[0], o[1])
    case RegisterImmediate => ExecSingle(e, s, op, o[0], o[1])
    case TwoValues => ExecPair(e, s, op, o[0], o[1])
    case ThreeValues => ExecTriple(e, s, op, o[0], o[1], o[2])
    case RegisterTwoValues => ExecBinary(e, s, op, o[0], o[1], o[2])
  }

  /** The opcode of the instruction at s.index. */
  function OpAt(e: Env, s: State): Op
    requires Valid(e, s)
  {
    e.code[s.index].op
  }

  /** The change the instruction at s.index makes, or the message of the
      exception it throws. */
  function Exec(e: Env, s: State): (r: Result<Change, string>)
    requires Valid(e, s)
    ensures r.Ok? ==> Applies(e, s, r.value)
    ensures r.Ok? ==> Confined(e, s, OpAt(e, s), First(e.code[s.index].operands), r.value)
  {
    var ins := e.code[s.index];
    assert Matches(ShapeOf(ins.op), ins.operands);
    assert forall j :: 0 <= j < |ins.operands| ==> InRange(e, ins.operands[j]);
    var op := OpAt(e, s);
    ExecShape(e, s, op, ShapeOf(op), ins.operands)
  }

  /** The state after a change, before control moves. */
  function Apply(s: State, c: Change): State
    requires c.register.Some? ==> 1 <= c.register.value.at <= |s.registers|
    requires c.cell.Some? ==> c.cell.value.at < |s.memory|
  {
    State(
      if c.register.Some? then s.registers[c.register.value.at - 1 := c.register.value.word] else s.registers,
      if c.cell.Some? then s.memory[c.cell.value.at := c.cell.value.word] else s.memory,
      c.sp, s.index,
      if c.output.Some? then s.trace + [c.output.value] else s.trace,
      c.readCount)
  }

  /** Where a run stands after a step. */
  datatype Status = Running(state: State) | Halted(state: State) | Faulted(message: string)

  const BadBranch := "Invalid branch address"

  /** Where an instruction's change leaves the machine: the change
      applied, then control moves to the next instruction, to the jump
      target when the dispatch table has an entry for it, or out of the
      method at HLT; an exception ends the run. */
  function Outcome(e: Env, s: State, r: Result<Change, string>): (st: Status)
    requires r.Ok? ==> Applies(e, s, r.value)
    ensures r.Fail? ==> st == Faulted(r.error)
    ensures st.Faulted? <==> r.Fail? || (r.value.flow.Jump? && !(0 <= r.value.flow.target < |e.code|))
    ensures st.Halted? <==> r.Ok? && r.value.flow == Stop
    ensures st.Running? && r.value.flow == Next ==> st.state.index == s.index + 1
    ensures st.Running? && r.value.flow.Jump? ==> st.state.index == r.value.flow.target
    ensures !st.Faulted? ==> st.state.memory == Apply(s, r.value).memory && st.state.registers == Apply(s, r.value).registers
  {
    match r
    case Fail(m) => Faulted(m)
    case Ok(c) =>
      var t := Apply(s, c);
      match c.flow
      case Stop => Halted(t)
      case Next => Running(t.(index := s.index + 1))
      case Jump(target) =>
        if 0 <= target < |e.code| then Running(t.(index := target)) else Faulted(BadBranch)
  }

  /** One instruction. */
  function Step(e: Env, s: State): (r: Status)
    requires Valid(e, s)
    ensures r.Halted? <==> OpAt(e, s) == HLT
    ensures r.Running? ==> r.state.index < |e.code|
  {
    if OpAt(e, s) == HLT then
      HaltStops(e, s);
      Outcome(e, s, Exec(e, s))
    else
      NotLast(e, s);
      Outcome(e, s, Exec(e, s))
  }

  /** A change that applies keeps every word W bits wide. */
  lemma ApplyWellFormed(e: Env, s: State, c: Change)
    requires WellFormed(e, s) && Applies(e, s, c)
    ensures WellFormed(e, Apply(s, c))
    ensures |Apply(s, c).memory| == |s.memory|
  {
  }

  /** HLT is the last instruction, so running off the end is impossible:
      the last instruction stops. */
  lemma LastStops(e: Env, s: State)
    requires Valid(e, s) && s.index == |e.code| - 1
    ensures Exec(e, s) == Ok(Keep(s).(flow := Stop))
  {
    HaltStops(e, s);
  }

  /** HLT leaves the method without changing anything. */
  lemma HaltStops(e: Env, s: State)
    requires Valid(e, s) && OpAt(e, s) == HLT
    ensures Exec(e, s) == Ok(Keep(s).(flow := Stop))
  {
    var ins := e.code[s.index];
    assert ShapeOf(HLT) == NoOperands;
    assert ExecBare(e, s, HLT) == Ok(Keep(s).(flow := Stop));
    assert ExecShape(e, s, HLT, NoOperands, ins.operands) == ExecBare(e, s, HLT);
  }

  /** Only the last instruction is HLT, so any other opcode has a next
      instruction. */
  lemma NotLast(e: Env, s: State)
    requires Valid(e, s) && e.code[s.index].op != HLT
    ensures s.index + 1 < |e.code|
  {
  }

  /** A step keeps the machine valid: a running machine is at an existing
      instruction with W-bit words, a halted one still holds W-bit words,
      and the memory never changes size. */
  lemma StepValid(e: Env, s: State)
    requires Valid(e, s)
    ensures Step(e, s).Running? ==> Valid(e, Step(e, s).state) && |Step(e, s).state.memory| == |s.memory|
    ensures Step(e, s).Halted? ==> WellFormed(e, Step(e, s).state) && |Step(e, s).state.memory| == |s.memory|
  {
    var r := Exec(e, s);
    assert Step(e, s) == Outcome(e, s, r);
    if r.Ok? {
      ApplyWellFormed(e, s, r.value);
      if s.index == |e.code| - 1 {
        LastStops(e, s);
      }
    }
  }

  /** At most `fuel` steps from a valid state. */
  function Run(e: Env, s: State, fuel: nat): (r: Status)
    requires Valid(e, s)
    ensures r.Running? ==> Valid(e, r.state) && |r.state.memory| == |s.memory|
    ensures r.Halted? ==> WellFormed(e, r.state) && |r.state.memory| == |s.memory|
    decreases fuel
  {
    if fuel == 0 then Running(s)
    else
      StepValid(e, s);
      match Step(e, s)
      case Running(t) => Run(e, t, fuel - 1)
      case other => other
  }
}
