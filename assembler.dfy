/** The assembler as the source runs it (Program.cs lines 11-177, 188-195,
    222 and 258-267): a set of variables and collections that a loop over
    the lines fills and that later loops rewrite in place. Each stage is a
    method of the class below, proved to leave the state that the
    functional stages of HeaderLoop, Resolution and Pipeline describe. */
module Assembly {
  import opened Wrappers
  import opened Text
  import opened Words
  import opened Numbers
  import opened Operands
  import opened Directives
  import opened Programs
  import HeaderLoop
  import Resolution
  import Pipeline

  class Assembler {
    var wordLength: nat
    var registers: nat
    var heapSize: nat
    var stackSize: nat
    var assemblyName: string
    var typeName: string
    var methodName: string
    var instructionLabels: map<string, nat>
    var dataLabels: map<string, nat>
    var defineWords: seq<nat>
    var instructions: seq<Instruction>

    /** The header settings. */
    function Settings(): Config
      reads this
    {
      Config(wordLength, registers, heapSize, stackSize, assemblyName, typeName, methodName)
    }

    /** The whole state as a value. */
    function State(): Program
      reads this
    {
      Program(Settings(), instructionLabels, dataLabels, defineWords, instructions)
    }

    /** The variables as Program.cs lines 11-24 declare them. */
    constructor ()
      ensures State() == EmptyProgram
    {
      wordLength, registers, heapSize, stackSize := 8, 8, 16, 32;
      assemblyName, typeName, methodName := "URCL", "URCL", "Execute";
      instructionLabels, dataLabels := map[], map[];
      defineWords, instructions := [], [];
    }

    /** One turn of the header loop. The waiting label is the loop's local
        labelName, passed in and handed back. */
    method ReadLine(line: string, upper: string -> string, pending: Option<string>)
      returns (r: Result<Option<string>, string>)
      modifies this
      ensures var spec := HeaderLoop.ReadLine(HeaderLoop.Reading(old(State()), pending), line, upper);
        && (r.Ok? <==> spec.Ok?)
        && (r.Ok? ==> State() == spec.value.program && r.value == spec.value.pending)
        && (r.Fail? ==> r.error == spec.error)
    {
      if StartsWith(line, ".") {
        if pending.Some? {
          return Fail("Label ." + pending.value + " points to another label");
        }
        return Ok(Some(line[1..]));
      }
      var whitespace := NextWhitespace(line);
      var op := upper(line[..whitespace]);
      var rest := TrimStart(line[whitespace..]);
      assert op == HeaderLoop.OpCodeOf(line, upper) && rest == HeaderLoop.RestOf(line);
      if HeaderLoop.IsSetting(op) {
        var err := Setting(op, rest);
        if err.Some? {
          return Fail(err.value);
        }
        return Ok(pending);
      } else if op == "DW" {
        r := DefineData(rest, pending);
      } else {
        r := AddInstruction(op, rest, pending);
      }
    }

    /** The header directives that change a setting (Program.cs lines
        44-89). */
    method Setting(op: string, rest: string) returns (err: Option<string>)
      requires HeaderLoop.IsSetting(op)
      modifies this
      ensures var spec := HeaderLoop.Setting(old(Settings()), op, rest);
        && (err.None? <==> spec.Ok?)
        && (err.None? ==> State() == old(State()).(config := spec.value))
        && (spec.Fail? ==> err == Some(spec.error))
    {
      if op == "@ASSEMBLY" {
        assemblyName := rest;
      } else if op == "@TYPE" {
        typeName := rest;
      } else if op == "@METHOD" {
        methodName := rest;
      } else if op == "BITS" {
        match Bits(rest)
        case Fail(e) => return Some(e);
        case Ok(w) => wordLength := w;
      } else if op == "RUN" {
      } else {
        match ParseInt(rest)
        case None => return Some("Invalid number " + rest);
        case Some(n) =>
          if op == "MINREG" {
            registers := n;
          } else if op == "MINHEAP" {
            heapSize := n;
          } else {
            stackSize := n;
          }
      }
      return None;
    }

    /** DW: the waiting label names the current DW offset, then the literals
        of the operand text are appended. */
    method DefineData(rest: string, pending: Option<string>) returns (r: Result<Option<string>, string>)
      modifies this
      ensures var spec := HeaderLoop.DefineData(HeaderLoop.Reading(old(State()), pending), rest);
        && (r.Ok? <==> spec.Ok?)
        && (r.Ok? ==> State() == spec.value.program && r.value == spec.value.pending)
        && (r.Fail? ==> r.error == spec.error)
    {
      if pending.Some? {
        dataLabels := dataLabels[pending.value := |defineWords|];
      }
      var err := AppendWords(DataText(rest));
      if err.Some? {
        return Fail(err.value);
      }
      return Ok(None);
    }

    /** The loop of Program.cs lines 97-100: literals are read off the
        front of the text until no literal is left, and appended to the DW
        list. */
    method AppendWords(text: string) returns (err: Option<string>)
      modifies this
      ensures err.None? <==> ScanWords(text).Ok?
      ensures err.Some? ==> err.value == ScanWords(text).error
      ensures err.None? ==> State() == old(State()).(defineWords := old(defineWords) + ScanWords(text).value)
    {
      var input := text;
      var words: seq<nat> := [];
      PrependedNothing(ScanWords(text));
      while true
        invariant unchanged(this)
        invariant ScanWords(text) == Prepended(words, ScanWords(input))
        decreases |input|
      {
        ScanStep(input);
        match TryParseImmediate(input)
        case NoLiteral =>
          assert words + [] == words;
          assert ScanWords(text) == Ok(words);
          break;
        case BadLiteral(t) =>
          return Some("Invalid number " + t);
        case Literal(v, next) =>
          PrependedTwice(words, [v], ScanWords(next));
          words := words + [v];
          input := next;
      }
      assert ScanWords(text).value == words;
      defineWords := defineWords + words;
      return None;
    }

    /** Any other opcode: the waiting label names the new instruction, which
        is appended with its parsed operands. */
    method AddInstruction(op: string, rest: string, pending: Option<string>) returns (r: Result<Option<string>, string>)
      modifies this
      ensures var spec := HeaderLoop.AddInstruction(HeaderLoop.Reading(old(State()), pending), op, rest);
        && (r.Ok? <==> spec.Ok?)
        && (r.Ok? ==> State() == spec.value.program && r.value == spec.value.pending)
        && (r.Fail? ==> r.error == spec.error)
    {
      var ops := ParseOperands(rest);
      if ops.Fail? {
        return Fail(ops.error);
      }
      if pending.Some? {
        instructionLabels := instructionLabels[pending.value := |instructions|];
      }
      instructions := instructions + [Instruction(pending, op, ops.value)];
      return Ok(None);
    }

    /** The header loop over all lines; a label still waiting at the end is
        fatal. */
    method ReadHeader(lines: seq<string>, upper: string -> string) returns (err: Option<string>)
      modifies this
      ensures var spec := HeaderLoop.ReadLines(HeaderLoop.Reading(old(State()), None), lines, upper);
        && (err.None? <==> spec.Ok? && spec.value.pending.None?)
        && (err.None? ==> State() == spec.value.program)
        && (spec.Fail? ==> err == Some(spec.error))
        && (spec.Ok? && spec.value.pending.Some? ==> err == Some("Label ." + spec.value.pending.value + " points to EOF"))
    {
      var pending: Option<string> := None;
      var i := 0;
      while i < |lines|
        invariant 0 <= i <= |lines|
        invariant HeaderLoop.ReadLines(HeaderLoop.Reading(old(State()), None), lines, upper) ==
                  HeaderLoop.ReadLines(HeaderLoop.Reading(State(), pending), lines[i..], upper)
      {
        assert lines[i..][0] == lines[i] && lines[i..][1..] == lines[i + 1..];
        var r := ReadLine(lines[i], upper, pending);
        if r.Fail? {
          return Some(r.error);
        }
        pending := r.value;
        i := i + 1;
      }
      if pending.Some? {
        return Some("Label ." + pending.value + " points to EOF");
      }
      return None;
    }

    /** The word-fit checks of Program.cs lines 120-123. */
    method CheckFits() returns (err: Option<string>)
      ensures err.None? <==> Resolution.CheckFits(State()).Ok?
      ensures err.Some? ==> err.value == Resolution.CheckFits(State()).error
    {
      if !Fits(wordLength, registers) {
        return Some("MINREG doesn't fit in word size");
      }
      if !Fits(wordLength, heapSize) {
        return Some("MINHEAP doesn't fit in word size");
      }
      if !Fits(wordLength, stackSize) {
        return Some("MINSTACK doesn't fit in word size");
      }
      if !Fits(wordLength, |instructions|) {
        return Some("Instructions don't fit in word size");
      }
      return None;
    }

    /** GenerateLabel: the label of instruction k, made up from the first
        free generated name when it has none. */
    method GenerateLabel(k: nat) returns (name: string)
      requires k < |instructions|
      modifies this
      ensures (State(), name) == AttachLabel(old(State()), k)
    {
      if instructions[k].labelName.Some? {
        return instructions[k].labelName.value;
      }
      var i := 0;
      name := Generated(0);
      while name in instructionLabels
        invariant unchanged(this)
        invariant name == Generated(i)
        invariant GeneratedBelow(i) <= instructionLabels.Keys
        decreases |instructionLabels.Keys| - i
      {
        assert GeneratedBelow(i + 1) == GeneratedBelow(i) + {name};
        GeneratedCount(i + 1);
        SubsetSize(GeneratedBelow(i + 1), instructionLabels.Keys);
        i := i + 1;
        name := Generated(i);
      }
      assert FirstFree(instructionLabels.Keys, i) by {
        forall j | 0 <= j < i ensures Generated(j) in instructionLabels.Keys {
          assert Generated(j) in GeneratedBelow(i);
        }
      }
      FirstFreeUnique(instructionLabels.Keys, i, FreshIndex(instructionLabels.Keys, 0));
      instructionLabels := instructionLabels[name := k];
      instructions := instructions[k := instructions[k].(labelName := Some(name))];
    }

    /** Pass one (Program.cs lines 128-159): every operand, in order, is
        replaced in place. */
    method ResolveOperands() returns (err: Option<string>)
      modifies this
      ensures var spec := Resolution.ResolveFrom(old(State()), 0, 0);
        && (err.None? <==> spec.Ok?)
        && (err.None? ==> State() == spec.value)
        && (spec.Fail? ==> err == Some(spec.error))
    {
      var i := 0;
      while i < |instructions|
        invariant 0 <= i <= |instructions| == |old(instructions)|
        invariant Resolution.ResolveFrom(State(), i, 0) == Resolution.ResolveFrom(old(State()), 0, 0)
        decreases |instructions| - i
      {
        var j := 0;
        var count := |instructions[i].operands|;
        while j < count
          invariant |instructions| == |old(instructions)| && |instructions[i].operands| == count
          invariant 0 <= j <= count
          invariant Resolution.ResolveFrom(State(), i, j) == Resolution.ResolveFrom(old(State()), 0, 0)
          decreases count - j
        {
          var done := ResolveAt(i, j);
          if done.Some? {
            return done;
          }
          j := j + 1;
        }
        i := i + 1;
      }
      return None;
    }

    /** The switch of Program.cs lines 133-157 on operand j of instruction i. */
    method ResolveAt(i: nat, j: nat) returns (err: Option<string>)
      requires i < |instructions| && j < |instructions[i].operands|
      modifies this
      ensures |instructions| == old(|instructions|) && |instructions[i].operands| == old(|instructions[i].operands|)
      ensures var spec := Resolution.ResolveOperand(old(State()), i, old(instructions[i].operands[j]));
        && (err.None? <==> spec.Ok?)
        && (err.None? ==> State() == Resolution.SetOperand(spec.value.0, i, j, spec.value.1))
        && (spec.Fail? ==> err == Some(spec.error))
    {
      var op := instructions[i].operands[j];
      var replacement: Operand;
      match op {
        case ImmediateDef(name) =>
          match PseudoValue(HeaderOf(Settings()), name) {
            case None => return Some("Undefined immediate value &" + name);
            case Some(v) => replacement := Immediate(v);
          }
        case LabelPtr(name) =>
          if name in instructionLabels {
            replacement := op;
          } else if name in dataLabels {
            replacement := Immediate(dataLabels[name]);
          } else {
            return Some("Unknown label ." + name);
          }
        case RelativeNum(offset) =>
          if !(0 <= i + offset < |instructions|) {
            return Some("Index was out of range");
          }
          var name := GenerateLabel(i + offset);
          replacement := LabelPtr(name);
        case MemoryLocation(address) =>
          replacement := Immediate(|defineWords| + address);
        case _ =>
          replacement := op;
      }
      var ins := instructions[i];
      instructions := instructions[i := ins.(operands := ins.operands[j := replacement])];
      return None;
    }

    /** Program.cs lines 161-164: HLT closes the program; an empty program
        makes Last() throw. */
    method AppendHalt() returns (err: Option<string>)
      modifies this
      ensures var spec := Resolution.AppendHalt(old(State()));
        && (err.None? <==> spec.Ok?)
        && (err.None? ==> State() == spec.value)
        && (spec.Fail? ==> err == Some(spec.error))
    {
      if instructions == [] {
        return Some("Sequence contains no elements");
      }
      if instructions[|instructions| - 1].opCode != "HLT" {
        instructions := instructions + [Instruction(None, "HLT", [])];
      }
      return None;
    }

    /** Pass two (Program.cs lines 166-177): every instruction gets a label
        and its label pointers become labels, in place. */
    method LabelInstructions() returns (err: Option<string>)
      modifies this
      ensures var spec := Resolution.LabelFrom(old(State()), 0);
        && (err.None? <==> spec.Ok?)
        && (err.None? ==> State() == spec.value)
        && (spec.Fail? ==> err == Some(spec.error))
    {
      var i := 0;
      while i < |instructions|
        invariant 0 <= i <= |instructions|
        invariant Resolution.LabelFrom(State(), i) == Resolution.LabelFrom(old(State()), 0)
      {
        err := LabelAt(i);
        if err.Some? {
          return;
        }
        i := i + 1;
      }
      return None;
    }

    /** One turn of pass two. */
    method LabelAt(i: nat) returns (err: Option<string>)
      requires i < |instructions|
      modifies this
      ensures var spec := Resolution.LabelOne(old(State()), i);
        && (err.None? <==> spec.Ok?)
        && (err.None? ==> State() == spec.value)
        && (spec.Fail? ==> err == Some(spec.error))
    {
      if instructions[i].labelName.None? {
        var _ := GenerateLabel(i);
      }
      ghost var q := State();
      assert q == AttachLabel(old(State()), i).0;
      var j := 0;
      while j < |instructions[i].operands|
        invariant |instructions| == |q.instructions|
        invariant 0 <= j <= |instructions[i].operands| == |q.instructions[i].operands|
        invariant State() == q.(instructions := q.instructions[i := q.instructions[i].(operands := instructions[i].operands)])
        invariant Resolution.UpgradeFrom(q.instructionLabels, instructions[i].operands, j) ==
                  Resolution.UpgradeFrom(q.instructionLabels, q.instructions[i].operands, 0)
      {
        var ins := instructions[i];
        if ins.operands[j].LabelPtr? {
          var name := ins.operands[j].name;
          if name !in instructionLabels {
            return Some("The given key '" + name + "' was not present in the dictionary.");
          }
          instructions := instructions[i := ins.(operands := ins.operands[j := Label(name, instructionLabels[name])])];
        } else {
          assert ins.operands[j := ins.operands[j]] == ins.operands;
        }
        j := j + 1;
      }
      return None;
    }

    /** Code generation's two checks before it emits (Program.cs lines
        188-195 and 222): a supported word length, then an IL label for
        every instruction, which exists only for the instruction the table
        maps its name to. */
    method CheckCode() returns (err: Option<string>)
      ensures err.None? <==> Pipeline.CheckCode(State()).Ok?
      ensures err.Some? ==> err.value == Pipeline.CheckCode(State()).error
    {
      if !Supported(wordLength) {
        return Some("Invalid Word Length, this shouldn't be possible");
      }
      var i := 0;
      while i < |instructions|
        invariant 0 <= i <= |instructions|
        invariant forall k :: 0 <= k < i && instructions[k].labelName.Some? ==>
          instructions[k].labelName.value in instructionLabels &&
          instructionLabels[instructions[k].labelName.value] == k
      {
        var name := instructions[i].labelName;
        if name.Some? && !(name.value in instructionLabels && instructionLabels[name.value] == i) {
          return Some("Nullable object must have a value.");
        }
        i := i + 1;
      }
      return None;
    }
  }

  /** A result with words put in front of its value. */
  function Prepended(words: seq<nat>, r: Result<seq<nat>, string>): Result<seq<nat>, string> {
    match r
    case Fail(e) => Fail(e)
    case Ok(vs) => Ok(words + vs)
  }

  /** One literal read by ScanWords. */
  lemma ScanStep(input: string)
    ensures match TryParseImmediate(input)
      case NoLiteral => ScanWords(input) == Ok([])
      case BadLiteral(t) => ScanWords(input) == Fail("Invalid number " + t)
      case Literal(v, next) => ScanWords(input) == Prepended([v], ScanWords(next))
  {
  }

  lemma PrependedNothing(r: Result<seq<nat>, string>)
    ensures Prepended([], r) == r
  {
    if r.Ok? {
      assert [] + r.value == r.value;
    }
  }

  lemma PrependedTwice(a: seq<nat>, b: seq<nat>, r: Result<seq<nat>, string>)
    ensures Prepended(a, Prepended(b, r)) == Prepended(a + b, r)
  {
    if r.Ok? {
      assert a + (b + r.value) == (a + b) + r.value;
    }
  }

  /** The assembler from the logical lines to the instruction list code
      generation walks, stopping at the first fatal error. */
  method Assemble(lines: seq<string>, upper: string -> string) returns (r: Result<Program, string>)
    ensures r == Pipeline.Assemble(lines, upper)
  {
    var a := new Assembler();
    var err := a.ReadHeader(lines, upper);
    if err.Some? {
      return Fail(err.value);
    }
    err := a.CheckFits();
    if err.Some? {
      return Fail(err.value);
    }
    err := a.ResolveOperands();
    if err.Some? {
      return Fail(err.value);
    }
    err := a.AppendHalt();
    if err.Some? {
      return Fail(err.value);
    }
    err := a.LabelInstructions();
    if err.Some? {
      return Fail(err.value);
    }
    err := a.CheckCode();
    if err.Some? {
      return Fail(err.value);
    }
    return Ok(a.State());
  }
}
