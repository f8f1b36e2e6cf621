/** The assembler from logical lines to the instruction list code
    generation walks (Program.cs lines 26-177, 188-195 and 211-222), and
    what code generation may rely on afterwards. */
module Pipeline {
  import opened Wrappers
  import opened Words
  import opened Operands
  import opened Directives
  import opened Programs
  import opened HeaderLoop
  import opened Resolution

  /** Code generation first rejects a word length other than 8, 16, 32 or
      64. This is reachable: a BITS header whose text is neither a number
      nor a comparison sets the word length 0, and 0 passes the fit checks.
      Then it builds the dispatch table from each instruction's Label
      record. Only the records in the table were given an IL label, so an
      instruction whose name the table maps to another instruction (a label
      written twice) fails there. */
  function CheckCode(p: Program): (r: Result<Program, string>)
    ensures r.Ok? <==> Supported(p.config.wordLength) && UniqueLabels(p)
    ensures r.Ok? ==> r.value == p
  {
    if !Supported(p.config.wordLength) then Fail("Invalid Word Length, this shouldn't be possible")
    else if !UniqueLabels(p) then Fail("Nullable object must have a value.")
    else Ok(p)
  }

  /** The stages after the header loop, each stopping at its first failure. */
  function Passes(h: Program): Result<Program, string> {
    var fits := CheckFits(h);
    if fits.Fail? then fits
    else
      var one := ResolveFrom(h, 0, 0);
      if one.Fail? then one
      else
        var halted := AppendHalt(one.value);
        if halted.Fail? then halted
        else
          var two := LabelFrom(halted.value, 0);
          if two.Fail? then two
          else CheckCode(two.value)
  }

  /** The assembler on the logical lines of a source file. */
  function Assemble(lines: seq<string>, upper: string -> string): (r: Result<Program, string>)
    ensures ReadHeader(lines, upper).Fail? ==> r == Fail(ReadHeader(lines, upper).error)
    ensures r.Ok? ==> ReadHeader(lines, upper).Ok? && Assembled(r.value)
    ensures r.Ok? ==> r.value.config == ReadHeader(lines, upper).value.config
    ensures r.Ok? ==> r.value.defineWords == ReadHeader(lines, upper).value.defineWords
  {
    match ReadHeader(lines, upper)
    case Fail(e) => Fail(e)
    case Ok(h) =>
      if Passes(h).Ok? then PassesSpec(h); Passes(h) else Passes(h)
  }

  /** What code generation relies on: a supported word length, a final
      HLT, every instruction labelled with a name the table maps to it, and
      only operands that can be emitted, each label naming its own
      instruction. */
  ghost predicate Assembled(r: Program) {
    && Supported(r.config.wordLength)
    && r.instructions != [] && r.instructions[|r.instructions| - 1].opCode == "HLT"
    && (forall i :: 0 <= i < |r.instructions| ==>
          r.instructions[i].labelName.Some? &&
          r.instructions[i].labelName.value in r.instructionLabels &&
          r.instructionLabels[r.instructions[i].labelName.value] == i)
    && (forall i, j :: 0 <= i < |r.instructions| && 0 <= j < |r.instructions[i].operands| ==>
          Emittable(r, r.instructions[i].operands[j]))
  }

  /** An operand kind the emitter handles; a label's address is the
      instruction that carries its name. */
  ghost predicate Emittable(r: Program, op: Operand) {
    Resolved(op) &&
    (op.Label? ==> op.address < |r.instructions| && r.instructions[op.address].labelName == Some(op.name))
  }

  /** The operand `after` that the assembler makes of operand `before` of
      instruction i, where h holds the tables the header loop built. */
  ghost predicate Translated(h: Program, i: nat, before: Operand, after: Operand) {
    match before
    case ImmediateDef(n) =>
      PseudoValue(HeaderOf(h.config), n).Some? && after == Immediate(PseudoValue(HeaderOf(h.config), n).value)
    case LabelPtr(n) =>
      && (n in h.instructionLabels ==> after == Label(n, h.instructionLabels[n]))
      && ((after.Label? && after.name == n) || (n in h.dataLabels && after == Immediate(h.dataLabels[n])))
    case RelativeNum(v) => after.Label? && after.address == i + v
    case MemoryLocation(a) => after == Immediate(|h.defineWords| + a)
    case _ => after == before
  }

  /** The stages after the header loop: they succeed only when the fit
      checks pass, and then deliver what code generation relies on. The
      original instructions keep their opcodes and labels, in order, with
      at most an HLT after them, and every operand is translated: a
      relative offset becomes the label of the instruction that many
      places away, a label pointer the label or the data offset it names,
      a memory location an address past the DW words. */
  lemma PassesSpec(h: Program)
    requires LabelsAgree(h) && AllParsed(h)
    requires Passes(h).Ok?
    ensures var r := Passes(h).value;
      && Assembled(r)
      && CheckFits(h).Ok?
      && r.config == h.config && r.defineWords == h.defineWords && r.dataLabels == h.dataLabels
      && |h.instructions| <= |r.instructions| <= |h.instructions| + 1
      && (forall i :: 0 <= i < |h.instructions| ==>
            |r.instructions[i].operands| == |h.instructions[i].operands| &&
            r.instructions[i].opCode == h.instructions[i].opCode &&
            (h.instructions[i].labelName.Some? ==> r.instructions[i].labelName == h.instructions[i].labelName))
      && (forall i, j :: 0 <= i < |h.instructions| && 0 <= j < |h.instructions[i].operands| ==>
            Translated(h, i, h.instructions[i].operands[j], r.instructions[i].operands[j]))
  {
    var p1, p2, r := PassesParts(h);
    forall i, j | 0 <= i < |r.instructions| && 0 <= j < |r.instructions[i].operands|
      ensures Emittable(r, r.instructions[i].operands[j])
    {
      assert PassOneForm(p2, p2.instructions[i].operands[j]);
      UpgradedEmittable(p2, r, p2.instructions[i].operands[j]);
    }
    forall i | 0 <= i < |h.instructions|
      ensures |r.instructions[i].operands| == |h.instructions[i].operands|
      ensures r.instructions[i].opCode == h.instructions[i].opCode
      ensures h.instructions[i].labelName.Some? ==> r.instructions[i].labelName == h.instructions[i].labelName
    {
      assert p2.instructions[i] == p1.instructions[i];
    }
    forall i, j | 0 <= i < |h.instructions| && 0 <= j < |h.instructions[i].operands|
      ensures Translated(h, i, h.instructions[i].operands[j], r.instructions[i].operands[j])
    {
      TranslatedOperand(h, p1, p2, r, i, j);
    }
  }

  /** The intermediate states of a successful run of the passes and what
      each pass guarantees about them. */
  lemma PassesParts(h: Program) returns (p1: Program, p2: Program, r: Program)
    requires LabelsAgree(h) && AllParsed(h)
    requires Passes(h).Ok?
    ensures CheckFits(h).Ok? && ResolveFrom(h, 0, 0) == Ok(p1)
    ensures AppendHalt(p1) == Ok(p2) && LabelFrom(p2, 0) == Ok(r) && Passes(h) == Ok(r)
    ensures Extends(h, p1) && LabelsAgree(p1) && PassOneDone(p1)
    ensures forall i, j :: 0 <= i < |h.instructions| && 0 <= j < |h.instructions[i].operands| ==>
      Rewritten(h, p1, i, h.instructions[i].operands[j], p1.instructions[i].operands[j])
    ensures p2 == p1.(instructions := p2.instructions)
    ensures |p1.instructions| <= |p2.instructions| <= |p1.instructions| + 1
    ensures p2.instructions[..|p1.instructions|] == p1.instructions
    ensures p2.instructions[|p2.instructions| - 1].opCode == "HLT"
    ensures LabelsAgree(p2) && PassOneDone(p2)
    ensures Extends(p2, r) && UniqueLabels(r) && Supported(r.config.wordLength)
    ensures forall k :: 0 <= k < |p2.instructions| ==>
      r.instructions[k].labelName.Some? &&
      r.instructions[k].operands == UpgradedAll(p2.instructionLabels, p2.instructions[k].operands)
  {
    PassOne(h);
    p1 := ResolveFrom(h, 0, 0).value;
    p2 := AppendHalt(p1).value;
    LabelFromShape(p2, 0);
    r := LabelFrom(p2, 0).value;
  }

  /** An operand pass one is done with becomes one the emitter handles. */
  lemma UpgradedEmittable(p2: Program, r: Program, op: Operand)
    requires PassOneForm(p2, op) && LabelsAgree(p2) && Extends(p2, r)
    ensures Emittable(r, Upgraded(p2.instructionLabels, op))
  {
  }

  /** One operand through both passes. */
  lemma TranslatedOperand(h: Program, p1: Program, p2: Program, r: Program, i: nat, j: nat)
    requires i < |h.instructions| && j < |h.instructions[i].operands|
    requires Extends(h, p1) && LabelsAgree(p1)
    requires Rewritten(h, p1, i, h.instructions[i].operands[j], p1.instructions[i].operands[j])
    requires p2 == p1.(instructions := p2.instructions)
    requires |p1.instructions| <= |p2.instructions| && p2.instructions[..|p1.instructions|] == p1.instructions
    requires Extends(p2, r) && UniqueLabels(r)
    requires r.instructions[i].operands == UpgradedAll(p2.instructionLabels, p2.instructions[i].operands)
    ensures Translated(h, i, h.instructions[i].operands[j], r.instructions[i].operands[j])
  {
    var before := h.instructions[i].operands[j];
    assert p2.instructions[i] == p1.instructions[i];
    var mid := p1.instructions[i].operands[j];
    assert r.instructions[i].operands[j] == Upgraded(p1.instructionLabels, mid);
    if before.RelativeNum? {
      var t := i + before.offset;
      assert p2.instructions[t] == p1.instructions[t];
      assert r.instructions[t].labelName == Some(mid.name);
    }
  }

  /** A pseudo-immediate the assembler does not define is fatal. */
  lemma UndefinedImmediateFatal(h: Program, i: nat, j: nat)
    requires LabelsAgree(h) && AllParsed(h)
    requires i < |h.instructions| && j < |h.instructions[i].operands|
    requires h.instructions[i].operands[j].ImmediateDef?
    requires !IsPseudo(h.instructions[i].operands[j].name)
    ensures Passes(h).Fail?
  {
    if Passes(h).Ok? {
      PassesDefine(h, i, j);
    }
  }

  /** When the passes succeed, every pseudo-immediate they met was defined. */
  lemma PassesDefine(h: Program, i: nat, j: nat)
    requires LabelsAgree(h) && AllParsed(h)
    requires i < |h.instructions| && j < |h.instructions[i].operands|
    requires h.instructions[i].operands[j].ImmediateDef?
    requires Passes(h).Ok?
    ensures IsPseudo(h.instructions[i].operands[j].name)
  {
    PassesSpec(h);
    var r := Passes(h).value;
    assert Translated(h, i, h.instructions[i].operands[j], r.instructions[i].operands[j]);
  }

  /** A relative offset that leaves the instruction list is fatal. */
  lemma RelativeOutOfRangeFatal(h: Program, i: nat, j: nat)
    requires LabelsAgree(h) && AllParsed(h)
    requires i < |h.instructions| && j < |h.instructions[i].operands|
    requires h.instructions[i].operands[j].RelativeNum?
    requires var t := i + h.instructions[i].operands[j].offset; t < 0 || t >= |h.instructions|
    ensures Passes(h).Fail?
  {
    if Passes(h).Ok? {
      PassOne(h);
    }
  }

  /** An empty program is fatal. */
  lemma EmptyFatal(h: Program)
    requires LabelsAgree(h) && AllParsed(h)
    requires h.instructions == []
    ensures Passes(h).Fail?
  {
  }

  /** A label written twice on instructions is fatal. */
  lemma DuplicateLabelFatal(h: Program, a: nat, b: nat)
    requires LabelsAgree(h) && AllParsed(h)
    requires a < b < |h.instructions|
    requires h.instructions[a].labelName.Some? && h.instructions[a].labelName == h.instructions[b].labelName
    ensures Passes(h).Fail?
  {
    if Passes(h).Ok? {
      PassesSpec(h);
    }
  }
}
