/** The header loop (Program.cs lines 26-117): every logical line is a label
    (".name"), a header directive or an instruction. A label waits until
    the next DW or instruction takes it; header directives leave it waiting.

    The case mapping of the opcode (string.ToUpperInvariant) is a parameter
    of the model. */
module HeaderLoop {
  import opened Wrappers
  import opened Text
  import opened Numbers
  import opened Operands
  import opened Directives
  import opened Programs

  /** The loop's state: the tables read so far and the label, if any, that
      waits for its DW or instruction. */
  datatype Reading = Reading(program: Program, pending: Option<string>)

  /** The opcode of a line: the text before the first space, upper-cased.
      (line + " ").IndexOf(" ") in the source is NextWhitespace(line). */
  function OpCodeOf(line: string, upper: string -> string): string {
    upper(line[..NextWhitespace(line)])
  }

  /** The operand text of a line: what follows the opcode, left-trimmed. */
  function RestOf(line: string): string {
    TrimStart(line[NextWhitespace(line)..])
  }

  /** The header directives that leave a waiting label waiting. */
  predicate IsSetting(op: string) {
    op == "@ASSEMBLY" || op == "@TYPE" || op == "@METHOD" || op == "BITS" ||
    op == "RUN" || op == "MINREG" || op == "MINHEAP" || op == "MINSTACK"
  }

  /** The tables only grow: the instructions and the defined words read so
      far stay a prefix, and at most one instruction is added per line. */
  predicate Grows(p: Program, q: Program, added: nat) {
    && p.instructions <= q.instructions
    && p.defineWords <= q.defineWords
    && |q.instructions| <= |p.instructions| + added
  }

  /** What one line does to the state, or the fatal message. */
  function ReadLine(s: Reading, line: string, upper: string -> string): Result<Reading, string> {
    if StartsWith(line, ".") then
      if s.pending.Some? then Fail("Label ." + s.pending.value + " points to another label")
      else Ok(Reading(s.program, Some(line[1..])))
    else
      var op := OpCodeOf(line, upper);
      var rest := RestOf(line);
      if IsSetting(op) then
        match Setting(s.program.config, op, rest)
        case Fail(e) => Fail(e)
        case Ok(c) => Ok(s.(program := s.program.(config := c)))
      else if op == "DW" then
        DefineData(s, rest)
      else
        AddInstruction(s, op, rest)
  }

  /** The header settings after a setting directive. RUN changes nothing. */
  function Setting(c: Config, op: string, rest: string): (r: Result<Config, string>)
    requires IsSetting(op)
    ensures r.Fail? <==>
      (op == "BITS" && Bits(rest).Fail?) || ((op == "MINREG" || op == "MINHEAP" || op == "MINSTACK") && ParseInt(rest).None?)
    ensures r.Ok? ==> (r.value.wordLength == c.wordLength || op == "BITS")
    ensures r.Ok? ==> (r.value.registers == c.registers || op == "MINREG")
    ensures r.Ok? ==> (r.value.heapSize == c.heapSize || op == "MINHEAP")
    ensures r.Ok? ==> (r.value.stackSize == c.stackSize || op == "MINSTACK")
    ensures r.Ok? ==> (r.value.assemblyName == c.assemblyName || op == "@ASSEMBLY")
    ensures r.Ok? ==> (r.value.typeName == c.typeName || op == "@TYPE")
    ensures r.Ok? ==> (r.value.methodName == c.methodName || op == "@METHOD")
    ensures op == "RUN" ==> r == Ok(c)
  {
    if op == "@ASSEMBLY" then Ok(c.(assemblyName := rest))
    else if op == "@TYPE" then Ok(c.(typeName := rest))
    else if op == "@METHOD" then Ok(c.(methodName := rest))
    else if op == "BITS" then
      match Bits(rest)
      case Fail(e) => Fail(e)
      case Ok(w) => Ok(c.(wordLength := w))
    else if op == "RUN" then Ok(c)
    else
      match ParseInt(rest)
      case None => Fail("Invalid number " + rest)
      case Some(n) =>
        if op == "MINREG" then Ok(c.(registers := n))
        else if op == "MINHEAP" then Ok(c.(heapSize := n))
        else Ok(c.(stackSize := n))
  }

  /** DW: the waiting label, if any, names the offset of the first new word;
      then the words are appended. */
  function DefineData(s: Reading, rest: string): (r: Result<Reading, string>)
    ensures r.Ok? <==> DataWords(rest).Ok?
    ensures r.Ok? ==> r.value.pending.None? && Grows(s.program, r.value.program, 0)
    ensures r.Ok? ==> r.value.program.instructions == s.program.instructions && r.value.program.config == s.program.config
    ensures r.Ok? && s.pending.Some? ==>
      s.pending.value in r.value.program.dataLabels && r.value.program.dataLabels[s.pending.value] == |s.program.defineWords|
  {
    var p := s.program;
    var labels := if s.pending.Some? then p.dataLabels[s.pending.value := |p.defineWords|] else p.dataLabels;
    match DataWords(rest)
    case Fail(e) => Fail(e)
    case Ok(words) => Ok(Reading(p.(dataLabels := labels, defineWords := p.defineWords + words), None))
  }

  /** Any other opcode: the waiting label, if any, names the new
      instruction's address, the number of instructions so far. */
  function AddInstruction(s: Reading, op: string, rest: string): (r: Result<Reading, string>)
    ensures r.Ok? <==> ParseOperandList(rest).Ok?
    ensures r.Ok? ==> r.value.pending.None? && Grows(s.program, r.value.program, 1)
    ensures r.Ok? ==> var q := r.value.program;
      && |q.instructions| == |s.program.instructions| + 1
      && q.instructions[|s.program.instructions|].opCode == op
      && q.instructions[|s.program.instructions|].labelName == s.pending
      && q.defineWords == s.program.defineWords && q.config == s.program.config
  {
    var p := s.program;
    match ParseOperandList(rest)
    case Fail(e) => Fail(e)
    case Ok(ops) =>
      var labels := if s.pending.Some? then p.instructionLabels[s.pending.value := |p.instructions|]
                    else p.instructionLabels;
      Ok(Reading(p.(instructionLabels := labels,
                    instructions := p.instructions + [Instruction(s.pending, op, ops)]), None))
  }

  /** The loop over all lines, stopping at the first fatal line. */
  function ReadLines(s: Reading, lines: seq<string>, upper: string -> string): (r: Result<Reading, string>)
    ensures r.Ok? ==> Grows(s.program, r.value.program, |lines|)
    decreases |lines|
  {
    if lines == [] then Ok(s)
    else
      match ReadLine(s, lines[0], upper)
      case Fail(e) => Fail(e)
      case Ok(t) => ReadLineGrows(s, lines[0], upper); ReadLines(t, lines[1..], upper)
  }

  /** One line adds at most one instruction, and only appends to the
      instruction and DW lists. */
  lemma ReadLineGrows(s: Reading, line: string, upper: string -> string)
    requires ReadLine(s, line, upper).Ok?
    ensures Grows(s.program, ReadLine(s, line, upper).value.program, 1)
  {
    var op := OpCodeOf(line, upper);
    if !StartsWith(line, ".") && !IsSetting(op) && op == "DW" {
      assert Grows(s.program, DefineData(s, RestOf(line)).value.program, 0);
    }
  }

  /** The whole header stage from the default settings and empty tables. A
      label still waiting after the last line is fatal. */
  function ReadHeader(lines: seq<string>, upper: string -> string): (r: Result<Program, string>)
    ensures r.Ok? ==> LabelsAgree(r.value) && AllParsed(r.value)
  {
    match ReadLines(Reading(EmptyProgram, None), lines, upper)
    case Fail(e) => Fail(e)
    case Ok(s) =>
      ReadLinesKeep(Reading(EmptyProgram, None), lines, upper);
      if s.pending.Some? then Fail("Label ." + s.pending.value + " points to EOF")
      else Ok(s.program)
  }

  // ---------------------------------------------------------------------
  // Properties

  /** A label line while another label waits is fatal; otherwise the label
      waits and nothing else changes. */
  lemma LabelLine(s: Reading, line: string, upper: string -> string)
    requires StartsWith(line, ".")
    ensures ReadLine(s, line, upper).Ok? <==> s.pending.None?
    ensures ReadLine(s, line, upper).Ok? ==>
      ReadLine(s, line, upper).value == Reading(s.program, Some(line[1..]))
  {
  }

  /** A label still waiting at the end of the lines is fatal. */
  lemma PendingAtEnd(lines: seq<string>, upper: string -> string)
    requires ReadLines(Reading(EmptyProgram, None), lines, upper).Ok?
    requires ReadLines(Reading(EmptyProgram, None), lines, upper).value.pending.Some?
    ensures ReadHeader(lines, upper).Fail?
  {
  }

  /** A setting directive keeps the waiting label waiting and leaves the
      tables as they are. */
  lemma SettingKeepsPending(s: Reading, line: string, upper: string -> string)
    requires !StartsWith(line, ".") && IsSetting(OpCodeOf(line, upper))
    requires ReadLine(s, line, upper).Ok?
    ensures var t := ReadLine(s, line, upper).value;
      && t.pending == s.pending
      && t.program == s.program.(config := t.program.config)
  {
  }

  /** DW gives the waiting label the offset the DW list had before the new
      words, appends exactly the words of its operand text and consumes the
      label. */
  lemma DataTakesPending(s: Reading, line: string, upper: string -> string)
    requires !StartsWith(line, ".") && OpCodeOf(line, upper) == "DW"
    requires ReadLine(s, line, upper).Ok?
    ensures var t := ReadLine(s, line, upper).value;
      && t.pending.None?
      && DataWords(RestOf(line)).Ok?
      && t.program.defineWords == s.program.defineWords + DataWords(RestOf(line)).value
      && (s.pending.Some? ==>
            t.program.dataLabels == s.program.dataLabels[s.pending.value := |s.program.defineWords|])
      && (s.pending.None? ==> t.program.dataLabels == s.program.dataLabels)
      && t.program.instructions == s.program.instructions
      && t.program.instructionLabels == s.program.instructionLabels
  {
  }

  /** Any other opcode appends one instruction carrying the waiting label,
      enters that label with the new instruction's address and consumes it. */
  lemma InstructionTakesPending(s: Reading, line: string, upper: string -> string)
    requires !StartsWith(line, ".")
    requires var op := OpCodeOf(line, upper); !IsSetting(op) && op != "DW"
    requires ReadLine(s, line, upper).Ok?
    ensures var t := ReadLine(s, line, upper).value;
      var k := |s.program.instructions|;
      && t.pending.None?
      && ParseOperandList(RestOf(line)).Ok?
      && t.program.instructions ==
           s.program.instructions + [Instruction(s.pending, OpCodeOf(line, upper), ParseOperandList(RestOf(line)).value)]
      && (s.pending.Some? ==>
            t.program.instructionLabels == s.program.instructionLabels[s.pending.value := k])
      && (s.pending.None? ==> t.program.instructionLabels == s.program.instructionLabels)
      && t.program.defineWords == s.program.defineWords
  {
  }

  /** One line keeps the label tables in agreement with the instructions
      and every operand of a parsed kind. A label written twice moves the
      table entry to the later instruction; the earlier one still carries
      the name. */
  lemma ReadLineKeeps(s: Reading, line: string, upper: string -> string)
    requires LabelsAgree(s.program) && AllParsed(s.program)
    requires ReadLine(s, line, upper).Ok?
    ensures LabelsAgree(ReadLine(s, line, upper).value.program)
    ensures AllParsed(ReadLine(s, line, upper).value.program)
  {
    var op := OpCodeOf(line, upper);
    if !StartsWith(line, ".") && !IsSetting(op) && op != "DW" {
      AddInstructionKeeps(s, op, RestOf(line));
    }
  }

  /** An added instruction keeps the label tables in agreement and holds
      only parsed operands. */
  lemma AddInstructionKeeps(s: Reading, op: string, rest: string)
    requires LabelsAgree(s.program) && AllParsed(s.program)
    requires AddInstruction(s, op, rest).Ok?
    ensures LabelsAgree(AddInstruction(s, op, rest).value.program)
    ensures AllParsed(AddInstruction(s, op, rest).value.program)
  {
    var p := s.program;
    var q := AddInstruction(s, op, rest).value.program;
    var ops := ParseOperandList(rest).value;
    var k := |p.instructions|;
    assert q.instructions == p.instructions + [Instruction(s.pending, op, ops)];
    forall i, j | 0 <= i < |q.instructions| && 0 <= j < |q.instructions[i].operands|
      ensures Parsed(q.instructions[i].operands[j])
    {
      if i == k {
        assert q.instructions[i].operands[j] in ops;
      }
    }
    forall n | n in q.instructionLabels
      ensures q.instructionLabels[n] < |q.instructions| && q.instructions[q.instructionLabels[n]].labelName == Some(n)
    {
      if s.pending != Some(n) {
        assert n in p.instructionLabels;
      }
    }
  }

  lemma {:induction false} ReadLinesKeep(s: Reading, lines: seq<string>, upper: string -> string)
    requires LabelsAgree(s.program) && AllParsed(s.program)
    requires ReadLines(s, lines, upper).Ok?
    ensures LabelsAgree(ReadLines(s, lines, upper).value.program)
    ensures AllParsed(ReadLines(s, lines, upper).value.program)
    decreases |lines|
  {
    if lines != [] {
      ReadLineKeeps(s, lines[0], upper);
      ReadLinesKeep(ReadLine(s, lines[0], upper).value, lines[1..], upper);
    }
  }
}
