/** The stages between the header loop and code generation (Program.cs
    lines 118-177 and 188-195, 211, 222): the word-fit checks, the first
    pass that replaces pseudo-immediates, label pointers, relative offsets
    and memory locations, the HLT appended at the end, the second pass that
    labels every instruction and turns label pointers into labels, and the
    two failures code generation meets before it emits anything. */
module Resolution {
  import opened Wrappers
  import opened Text
  import opened Words
  import opened Operands
  import opened Directives
  import opened Programs

  // ---------------------------------------------------------------------
  // Word-fit checks

  /** MINREG, MINHEAP, MINSTACK and the instruction count must not exceed
      the fit bound of the word length, checked in that order. */
  function CheckFits(p: Program): (r: Result<Program, string>)
    ensures r.Ok? <==>
      Fits(p.config.wordLength, p.config.registers) && Fits(p.config.wordLength, p.config.heapSize) &&
      Fits(p.config.wordLength, p.config.stackSize) && Fits(p.config.wordLength, |p.instructions|)
    ensures r.Ok? ==> r.value == p
  {
    var w := p.config.wordLength;
    if !Fits(w, p.config.registers) then Fail("MINREG doesn't fit in word size")
    else if !Fits(w, p.config.heapSize) then Fail("MINHEAP doesn't fit in word size")
    else if !Fits(w, p.config.stackSize) then Fail("MINSTACK doesn't fit in word size")
    else if !Fits(w, |p.instructions|) then Fail("Instructions don't fit in word size")
    else Ok(p)
  }

  // ---------------------------------------------------------------------
  // Pass one

  function OperandCount(p: Program, i: nat): nat {
    if i < |p.instructions| then |p.instructions[i].operands| else 0
  }

  /** The replacement for one operand of instruction i. A relative offset
      labels its target instruction, which may change the tables. */
  function ResolveOperand(p: Program, i: nat, op: Operand): (r: Result<(Program, Operand), string>)
    ensures r.Ok? ==> Extends(p, r.value.0) && SameOperands(p, r.value.0)
    ensures r.Ok? && LabelsAgree(p) ==> LabelsAgree(r.value.0)
  {
    match op
    case ImmediateDef(name) =>
      (match PseudoValue(HeaderOf(p.config), name)
       case None => Fail("Undefined immediate value &" + name)
       case Some(v) => Ok((p, Immediate(v))))
    case LabelPtr(name) =>
      if name in p.instructionLabels then Ok((p, op))
      else if name in p.dataLabels then Ok((p, Immediate(p.dataLabels[name])))
      else Fail("Unknown label ." + name)
    case RelativeNum(offset) =>
      if 0 <= i + offset < |p.instructions| then
        var (q, name) := AttachLabel(p, i + offset);
        Ok((q, LabelPtr(name)))
      else Fail("Index was out of range")
    case MemoryLocation(address) => Ok((p, Immediate(|p.defineWords| + address)))
    case _ => Ok((p, op))
  }

  /** p with operand j of instruction i replaced. */
  function SetOperand(p: Program, i: nat, j: nat, op: Operand): (q: Program)
    requires i < |p.instructions| && j < |p.instructions[i].operands|
    ensures Extends(p, q) && LabelsAgree(p) == LabelsAgree(q)
  {
    var ins := p.instructions[i];
    p.(instructions := p.instructions[i := ins.(operands := ins.operands[j := op])])
  }

  /** Pass one from operand j of instruction i on, in source order. */
  function ResolveFrom(p: Program, i: nat, j: nat): Result<Program, string>
    requires j <= OperandCount(p, i)
    decreases |p.instructions| - i, OperandCount(p, i) - j
  {
    if i >= |p.instructions| then Ok(p)
    else if j == |p.instructions[i].operands| then ResolveFrom(p, i + 1, 0)
    else
      match ResolveOperand(p, i, p.instructions[i].operands[j])
      case Fail(e) => Fail(e)
      case Ok((q, op)) => ResolveFrom(SetOperand(q, i, j, op), i, j + 1)
  }

  /** How pass one rewrites operand `before` of instruction i into `after`,
      where p is the state before the pass and r the state after it:
      a pseudo-immediate becomes its value; a label pointer naming an
      instruction label stays, one naming only a data label becomes the
      data offset (a generated name can be either, depending on whether it
      was generated before the pointer was reached); a relative offset
      becomes a pointer to the label of instruction i + offset; a memory
      location becomes an address past the DW words; nothing else changes. */
  ghost predicate Rewritten(p: Program, r: Program, i: nat, before: Operand, after: Operand) {
    match before
    case ImmediateDef(n) =>
      PseudoValue(HeaderOf(p.config), n).Some? && after == Immediate(PseudoValue(HeaderOf(p.config), n).value)
    case LabelPtr(n) =>
      && (n in p.instructionLabels ==> after == before)
      && ((after == before && n in r.instructionLabels) ||
          (n in p.dataLabels && after == Immediate(p.dataLabels[n])))
    case RelativeNum(v) =>
      0 <= i + v < |r.instructions| && after.LabelPtr? && r.instructions[i + v].labelName == Some(after.name)
    case MemoryLocation(a) => after == Immediate(|p.defineWords| + a)
    case _ => after == before
  }

  /** The rewrite one step performs, read against any later state. */
  lemma ResolveOperandRewrites(p: Program, r: Program, i: nat, op: Operand)
    requires ResolveOperand(p, i, op).Ok?
    requires Extends(ResolveOperand(p, i, op).value.0, r)
    ensures Rewritten(p, r, i, op, ResolveOperand(p, i, op).value.1)
  {
  }

  /** A rewrite read against an intermediate state s holds against the
      state p before it. */
  lemma RewrittenEarlier(p: Program, s: Program, r: Program, i: nat, before: Operand, after: Operand)
    requires Extends(p, s) && Rewritten(s, r, i, before, after)
    ensures Rewritten(p, r, i, before, after)
  {
  }

  /** Operands before (i, j) are as they were. */
  ghost predicate KeptBefore(p: Program, r: Program, i: nat, j: nat)
    requires Extends(p, r)
  {
    forall k, m :: 0 <= k < |p.instructions| && (k < i || (k == i && m < j)) && 0 <= m < |p.instructions[k].operands| ==>
      r.instructions[k].operands[m] == p.instructions[k].operands[m]
  }

  /** Operands from (i, j) on are rewritten. */
  ghost predicate RewrittenFrom(p: Program, r: Program, i: nat, j: nat)
    requires Extends(p, r)
  {
    forall k, m :: i <= k < |p.instructions| && (k == i ==> j <= m) && 0 <= m < |p.instructions[k].operands| ==>
      Rewritten(p, r, k, p.instructions[k].operands[m], r.instructions[k].operands[m])
  }

  /** Pass one extends the tables, keeps the labels in agreement with
      them, and leaves the operands it has passed alone. */
  lemma {:induction false} ResolveFromKeeps(p: Program, i: nat, j: nat)
    requires j <= OperandCount(p, i)
    requires ResolveFrom(p, i, j).Ok?
    ensures Extends(p, ResolveFrom(p, i, j).value)
    ensures KeptBefore(p, ResolveFrom(p, i, j).value, i, j)
    ensures LabelsAgree(p) ==> LabelsAgree(ResolveFrom(p, i, j).value)
    decreases |p.instructions| - i, OperandCount(p, i) - j
  {
    if i >= |p.instructions| {
    } else if j == |p.instructions[i].operands| {
      ResolveFromKeeps(p, i + 1, 0);
      var r := ResolveFrom(p, i + 1, 0).value;
      assert KeptBefore(p, r, i + 1, 0);
    } else {
      var before := p.instructions[i].operands[j];
      var (q, after) := ResolveOperand(p, i, before).value;
      var s := SetOperand(q, i, j, after);
      ResolveFromKeeps(s, i, j + 1);
      var r := ResolveFrom(s, i, j + 1).value;
      assert ResolveFrom(p, i, j) == Ok(r);
      ExtendsTrans(p, s, r);
      forall k, m | 0 <= k < |p.instructions| && (k < i || (k == i && m < j)) && 0 <= m < |p.instructions[k].operands|
        ensures r.instructions[k].operands[m] == p.instructions[k].operands[m]
      {
        assert s.instructions[k].operands[m] == p.instructions[k].operands[m];
      }
    }
  }

  lemma {:induction false} ResolveFromRewrites(p: Program, i: nat, j: nat)
    requires j <= OperandCount(p, i)
    requires ResolveFrom(p, i, j).Ok?
    ensures Extends(p, ResolveFrom(p, i, j).value)
    ensures RewrittenFrom(p, ResolveFrom(p, i, j).value, i, j)
    decreases |p.instructions| - i, OperandCount(p, i) - j
  {
    if i >= |p.instructions| {
    } else if j == |p.instructions[i].operands| {
      ResolveFromRewrites(p, i + 1, 0);
    } else {
      RewritesStep(p, i, j);
    }
  }

  /** One operand of pass one, then the rest. */
  lemma {:induction false} RewritesStep(p: Program, i: nat, j: nat)
    requires i < |p.instructions| && j < |p.instructions[i].operands|
    requires ResolveFrom(p, i, j).Ok?
    ensures Extends(p, ResolveFrom(p, i, j).value)
    ensures RewrittenFrom(p, ResolveFrom(p, i, j).value, i, j)
    decreases |p.instructions| - i, OperandCount(p, i) - j, 0
  {
    var before := p.instructions[i].operands[j];
    var (q, after) := ResolveOperand(p, i, before).value;
    var s := SetOperand(q, i, j, after);
    var r := ResolveFrom(s, i, j + 1).value;
    assert ResolveFrom(p, i, j) == Ok(r);
    assert Extends(s, r) && RewrittenFrom(s, r, i, j + 1) by {
      ResolveFromRewrites(s, i, j + 1);
    }
    assert r.instructions[i].operands[j] == after by {
      ResolveFromKeeps(s, i, j + 1);
      assert KeptBefore(s, r, i, j + 1);
    }
    ExtendsTrans(q, s, r);
    ExtendsTrans(p, q, s);
    ResolveOperandRewrites(p, r, i, before);
    OthersKeptBySet(p, q, i, j, after);
    RewrittenAfterOne(p, s, r, i, j);
  }

  /** Every operand other than operand j of instruction i is as in p. */
  ghost predicate OthersKept(p: Program, s: Program, i: nat, j: nat)
    requires |s.instructions| == |p.instructions|
  {
    forall k, m :: 0 <= k < |p.instructions| && 0 <= m < |p.instructions[k].operands| && (k != i || m != j) ==>
      m < |s.instructions[k].operands| && s.instructions[k].operands[m] == p.instructions[k].operands[m]
  }

  lemma OthersKeptBySet(p: Program, q: Program, i: nat, j: nat, op: Operand)
    requires i < |p.instructions| && j < |p.instructions[i].operands|
    requires SameOperands(p, q)
    ensures OthersKept(p, SetOperand(q, i, j, op), i, j)
  {
  }

  /** The rewrite of one operand joined to the rewrites of those after it. */
  lemma RewrittenAfterOne(p: Program, s: Program, r: Program, i: nat, j: nat)
    requires i < |p.instructions| && j < |p.instructions[i].operands|
    requires Extends(p, s) && Extends(s, r) && OthersKept(p, s, i, j)
    requires RewrittenFrom(s, r, i, j + 1)
    requires Rewritten(p, r, i, p.instructions[i].operands[j], r.instructions[i].operands[j])
    ensures Extends(p, r) && RewrittenFrom(p, r, i, j)
  {
    ExtendsTrans(p, s, r);
    forall k, m | i <= k < |p.instructions| && (k == i ==> j <= m) && 0 <= m < |p.instructions[k].operands|
      ensures Rewritten(p, r, k, p.instructions[k].operands[m], r.instructions[k].operands[m])
    {
      if k != i || m != j {
        RewrittenEarlier(p, s, r, k, p.instructions[k].operands[m], r.instructions[k].operands[m]);
      }
    }
  }

  /** An operand no later pass has to replace, other than a label pointer
      naming an entry of the instruction-label table. */
  predicate PassOneForm(p: Program, op: Operand) {
    !op.ImmediateDef? && !op.RelativeNum? && !op.MemoryLocation? && !op.Label? &&
    (op.LabelPtr? ==> op.name in p.instructionLabels)
  }

  predicate PassOneDone(p: Program) {
    forall i, j :: 0 <= i < |p.instructions| && 0 <= j < |p.instructions[i].operands| ==>
      PassOneForm(p, p.instructions[i].operands[j])
  }

  /** After pass one every operand of the original program is rewritten as
      Rewritten says, no pseudo-immediate, relative offset or memory
      location is left, every label pointer names an instruction label, and
      the label tables still agree with the instructions. */
  lemma PassOne(p: Program)
    requires LabelsAgree(p) && AllParsed(p)
    requires ResolveFrom(p, 0, 0).Ok?
    ensures var r := ResolveFrom(p, 0, 0).value;
      && Extends(p, r) && LabelsAgree(r) && PassOneDone(r)
      && forall i, j :: 0 <= i < |p.instructions| && 0 <= j < |p.instructions[i].operands| ==>
           Rewritten(p, r, i, p.instructions[i].operands[j], r.instructions[i].operands[j])
  {
    ResolveFromRewrites(p, 0, 0);
    ResolveFromKeeps(p, 0, 0);
    var r := ResolveFrom(p, 0, 0).value;
    forall i, j | 0 <= i < |r.instructions| && 0 <= j < |r.instructions[i].operands|
      ensures PassOneForm(r, r.instructions[i].operands[j])
    {
      RewrittenForm(p, r, i, p.instructions[i].operands[j], r.instructions[i].operands[j]);
    }
  }

  /** A parsed operand, once rewritten, needs nothing more from pass one. */
  lemma RewrittenForm(p: Program, r: Program, i: nat, before: Operand, after: Operand)
    requires Parsed(before) && Extends(p, r) && LabelsAgree(r)
    requires Rewritten(p, r, i, before, after)
    ensures PassOneForm(r, after)
  {
    if before.RelativeNum? {
      assert r.instructions[i + before.offset].labelName.Some?;
    }
  }

  /** A pseudo-immediate the assembler does not define is fatal. */
  lemma UndefinedImmediateFails(p: Program, i: nat, j: nat)
    requires LabelsAgree(p) && AllParsed(p)
    requires i < |p.instructions| && j < |p.instructions[i].operands|
    requires p.instructions[i].operands[j].ImmediateDef?
    requires !IsPseudo(p.instructions[i].operands[j].name)
    ensures ResolveFrom(p, 0, 0).Fail?
  {
    if ResolveFrom(p, 0, 0).Ok? {
      PassOneDefines(p, i, j);
    }
  }

  /** When pass one succeeds, every pseudo-immediate it met was defined. */
  lemma PassOneDefines(p: Program, i: nat, j: nat)
    requires LabelsAgree(p) && AllParsed(p)
    requires i < |p.instructions| && j < |p.instructions[i].operands|
    requires p.instructions[i].operands[j].ImmediateDef?
    requires ResolveFrom(p, 0, 0).Ok?
    ensures IsPseudo(p.instructions[i].operands[j].name)
  {
    PassOne(p);
    var r := ResolveFrom(p, 0, 0).value;
    assert Rewritten(p, r, i, p.instructions[i].operands[j], r.instructions[i].operands[j]);
  }

  /** Pass one adds generated names to the instruction-label table and no
      others. */
  lemma {:induction false} ResolveFromNames(p: Program, i: nat, j: nat)
    requires j <= OperandCount(p, i)
    requires ResolveFrom(p, i, j).Ok?
    ensures forall n :: n in ResolveFrom(p, i, j).value.instructionLabels ==>
      n in p.instructionLabels || IsGeneratedName(n)
    decreases |p.instructions| - i, OperandCount(p, i) - j
  {
    if i >= |p.instructions| {
    } else if j == |p.instructions[i].operands| {
      ResolveFromNames(p, i + 1, 0);
    } else {
      var before := p.instructions[i].operands[j];
      var (q, after) := ResolveOperand(p, i, before).value;
      ResolveFromNames(SetOperand(q, i, j, after), i, j + 1);
      ResolveOperandNames(p, i, before);
    }
  }

  lemma ResolveOperandNames(p: Program, i: nat, op: Operand)
    requires ResolveOperand(p, i, op).Ok?
    ensures forall n :: n in ResolveOperand(p, i, op).value.0.instructionLabels ==>
      n in p.instructionLabels || IsGeneratedName(n)
  {
    if op.RelativeNum? {
      var t := i + op.offset;
      var (q, name) := AttachLabel(p, t);
      if p.instructions[t].labelName.None? {
        assert q.instructionLabels.Keys == p.instructionLabels.Keys + {name};
      }
    }
  }

  /** A label pointer naming neither a data label, nor an instruction
      label, nor a name GenerateLabel could produce is fatal. */
  lemma UnknownLabelFails(p: Program, i: nat, j: nat)
    requires LabelsAgree(p) && AllParsed(p)
    requires i < |p.instructions| && j < |p.instructions[i].operands|
    requires p.instructions[i].operands[j].LabelPtr?
    requires var n := p.instructions[i].operands[j].name;
      n !in p.instructionLabels && n !in p.dataLabels && !IsGeneratedName(n)
    ensures ResolveFrom(p, 0, 0).Fail?
  {
    if ResolveFrom(p, 0, 0).Ok? {
      PassOne(p);
      ResolveFromNames(p, 0, 0);
    }
  }

  // ---------------------------------------------------------------------
  // The closing HLT

  /** An empty instruction list makes Instructions.Last() throw. Otherwise
      an unlabelled HLT without operands is appended unless the last
      instruction already is HLT. */
  function AppendHalt(p: Program): (r: Result<Program, string>)
    ensures r.Ok? <==> p.instructions != []
    ensures r.Ok? ==>
      var q := r.value;
      && |q.instructions| == |p.instructions| + (if p.instructions[|p.instructions| - 1].opCode == "HLT" then 0 else 1)
      && q.instructions[|q.instructions| - 1].opCode == "HLT"
      && q.instructions[..|p.instructions|] == p.instructions
      && q == p.(instructions := q.instructions)
    ensures r.Ok? ==> (LabelsAgree(p) ==> LabelsAgree(r.value)) && (PassOneDone(p) ==> PassOneDone(r.value))
  {
    if p.instructions == [] then Fail("Sequence contains no elements")
    else if p.instructions[|p.instructions| - 1].opCode == "HLT" then Ok(p)
    else
      var q := p.(instructions := p.instructions + [Instruction(None, "HLT", [])]);
      assert q.instructions[..|p.instructions|] == p.instructions;
      Ok(q)
  }

  // ---------------------------------------------------------------------
  // Pass two

  /** A label pointer becomes the Label record the table holds for its name;
      a name missing from the table throws. Other operands stay. */
  function Upgrade(labels: map<string, nat>, op: Operand): (r: Result<Operand, string>)
    ensures r.Ok? <==> (op.LabelPtr? ==> op.name in labels)
    ensures r.Ok? && op.LabelPtr? ==> r.value == Label(op.name, labels[op.name])
    ensures r.Ok? && !op.LabelPtr? ==> r.value == op
  {
    if op.LabelPtr? then
      if op.name in labels then Ok(Label(op.name, labels[op.name]))
      else Fail("The given key '" + op.name + "' was not present in the dictionary.")
    else Ok(op)
  }

  /** The operands of one instruction from j on, upgraded in order. */
  function UpgradeFrom(labels: map<string, nat>, ops: seq<Operand>, j: nat): (r: Result<seq<Operand>, string>)
    requires j <= |ops|
    ensures r.Ok? <==> forall m :: j <= m < |ops| ==> Upgrade(labels, ops[m]).Ok?
    ensures r.Ok? ==>
      && |r.value| == |ops|
      && (forall m :: 0 <= m < j ==> r.value[m] == ops[m])
      && (forall m :: j <= m < |ops| ==> r.value[m] == Upgrade(labels, ops[m]).value)
    decreases |ops| - j
  {
    if j == |ops| then Ok(ops)
    else
      match Upgrade(labels, ops[j])
      case Fail(e) => Fail(e)
      case Ok(op) =>
        assert forall m :: j < m < |ops| ==> ops[j := op][m] == ops[m];
        UpgradeFrom(labels, ops[j := op], j + 1)
  }

  /** Pass two on instruction i: when it has no label it gets a generated
      one, then its label pointers become labels. */
  function LabelOne(p: Program, i: nat): (r: Result<Program, string>)
    requires i < |p.instructions|
    ensures r.Ok? ==> |r.value.instructions| == |p.instructions|
  {
    var q := AttachLabel(p, i).0;
    var ins := q.instructions[i];
    match UpgradeFrom(q.instructionLabels, ins.operands, 0)
    case Fail(e) => Fail(e)
    case Ok(ops) => Ok(q.(instructions := q.instructions[i := ins.(operands := ops)]))
  }

  /** Pass two from instruction i on. */
  function LabelFrom(p: Program, i: nat): (r: Result<Program, string>)
    ensures r.Ok? ==> |r.value.instructions| == |p.instructions|
    ensures r.Ok? ==> r.value.config == p.config && r.value.defineWords == p.defineWords && r.value.dataLabels == p.dataLabels
    decreases |p.instructions| - i
  {
    if i >= |p.instructions| then Ok(p)
    else
      match LabelOne(p, i)
      case Fail(e) => Fail(e)
      case Ok(s) => LabelFrom(s, i + 1)
  }

  /** What pass two makes of an operand that pass one left, given the table
      after pass one. */
  function Upgraded(labels: map<string, nat>, op: Operand): Operand {
    if op.LabelPtr? && op.name in labels then Label(op.name, labels[op.name]) else op
  }

  function UpgradedAll(labels: map<string, nat>, ops: seq<Operand>): (r: seq<Operand>)
    ensures |r| == |ops| && forall m :: 0 <= m < |ops| ==> r[m] == Upgraded(labels, ops[m])
  {
    seq(|ops|, m requires 0 <= m < |ops| => Upgraded(labels, ops[m]))
  }

  /** The operands of the instructions from i on no longer need pass one. */
  ghost predicate ReadyFrom(p: Program, i: nat) {
    forall k, m :: i <= k < |p.instructions| && 0 <= m < |p.instructions[k].operands| ==>
      PassOneForm(p, p.instructions[k].operands[m])
  }

  /** One step of pass two on a ready instruction succeeds, labels it,
      upgrades its operands and changes no other instruction. */
  lemma LabelOneShape(p: Program, i: nat)
    requires i < |p.instructions| && ReadyFrom(p, i)
    ensures LabelOne(p, i).Ok?
    ensures var s := LabelOne(p, i).value;
      && Extends(p, s)
      && s.instructions[..i] == p.instructions[..i]
      && s.instructions[i + 1..] == p.instructions[i + 1..]
      && s.instructions[i].labelName.Some?
      && s.instructions[i].operands == UpgradedAll(p.instructionLabels, p.instructions[i].operands)
  {
    var q := AttachLabel(p, i).0;
    var ins := q.instructions[i];
    forall m | 0 <= m < |ins.operands| ensures Upgrade(q.instructionLabels, ins.operands[m]).Ok? {
      assert PassOneForm(p, p.instructions[i].operands[m]);
    }
    var ops := UpgradeFrom(q.instructionLabels, ins.operands, 0).value;
    forall m | 0 <= m < |ops| ensures ops[m] == Upgraded(p.instructionLabels, p.instructions[i].operands[m]) {
      assert PassOneForm(p, p.instructions[i].operands[m]);
    }
  }

  /** One step of pass two keeps the tables in agreement with the labels,
      and keeps labels unique. */
  lemma LabelOneAgree(p: Program, i: nat)
    requires i < |p.instructions| && LabelOne(p, i).Ok?
    ensures LabelsAgree(p) ==> LabelsAgree(LabelOne(p, i).value)
    ensures UniqueLabels(p) ==> UniqueLabels(LabelOne(p, i).value)
  {
  }

  /** Pass two keeps the tables in agreement with the labels, and keeps
      labels unique. */
  lemma {:induction false} LabelFromAgree(p: Program, i: nat)
    requires LabelFrom(p, i).Ok?
    ensures LabelsAgree(p) ==> LabelsAgree(LabelFrom(p, i).value)
    ensures UniqueLabels(p) ==> UniqueLabels(LabelFrom(p, i).value)
    decreases |p.instructions| - i
  {
    if i < |p.instructions| {
      LabelOneAgree(p, i);
      LabelFromAgree(LabelOne(p, i).value, i + 1);
    }
  }

  /** Pass two on ready instructions succeeds, labels each of them and
      upgrades its operands against the table it started from. */
  lemma {:induction false} LabelFromShape(p: Program, i: nat)
    requires i <= |p.instructions| && ReadyFrom(p, i)
    ensures LabelFrom(p, i).Ok?
    ensures var r := LabelFrom(p, i).value;
      && Extends(p, r)
      && r.instructions[..i] == p.instructions[..i]
      && (forall k :: i <= k < |p.instructions| ==>
            r.instructions[k].labelName.Some? &&
            r.instructions[k].operands == UpgradedAll(p.instructionLabels, p.instructions[k].operands))
    decreases |p.instructions| - i
  {
    if i < |p.instructions| {
      LabelOneShape(p, i);
      var s := LabelOne(p, i).value;
      ReadyLater(p, s, i);
      LabelFromShape(s, i + 1);
      ShapeAfterOne(p, s, LabelFrom(s, i + 1).value, i);
    }
  }

  /** Instruction i labelled first, then the ones after it: the shape of
      pass two from i. */
  lemma ShapeAfterOne(p: Program, s: Program, r: Program, i: nat)
    requires i < |p.instructions| && ReadyFrom(p, i)
    requires Extends(p, s) && s.instructions[..i] == p.instructions[..i]
    requires s.instructions[i + 1..] == p.instructions[i + 1..]
    requires s.instructions[i].labelName.Some?
    requires s.instructions[i].operands == UpgradedAll(p.instructionLabels, p.instructions[i].operands)
    requires Extends(s, r) && r.instructions[..i + 1] == s.instructions[..i + 1]
    requires forall k :: i + 1 <= k < |s.instructions| ==>
      r.instructions[k].labelName.Some? &&
      r.instructions[k].operands == UpgradedAll(s.instructionLabels, s.instructions[k].operands)
    ensures Extends(p, r) && r.instructions[..i] == p.instructions[..i]
    ensures forall k :: i <= k < |p.instructions| ==>
      r.instructions[k].labelName.Some? &&
      r.instructions[k].operands == UpgradedAll(p.instructionLabels, p.instructions[k].operands)
  {
    ExtendsTrans(p, s, r);
    assert r.instructions[..i] == p.instructions[..i] by {
      assert r.instructions[..i] == r.instructions[..i + 1][..i];
      assert s.instructions[..i] == s.instructions[..i + 1][..i];
    }
    forall k | i <= k < |p.instructions|
      ensures r.instructions[k].labelName.Some?
      ensures r.instructions[k].operands == UpgradedAll(p.instructionLabels, p.instructions[k].operands)
    {
      if k == i {
        assert r.instructions[i] == r.instructions[..i + 1][i] == s.instructions[i];
      } else {
        assert s.instructions[k] == s.instructions[i + 1..][k - i - 1];
        UpgradedAllStable(p, s, k);
      }
    }
  }

  /** The instructions after i stay ready when instruction i is labelled. */
  lemma ReadyLater(p: Program, s: Program, i: nat)
    requires i < |p.instructions| && ReadyFrom(p, i) && Extends(p, s)
    requires s.instructions[i + 1..] == p.instructions[i + 1..]
    ensures ReadyFrom(s, i + 1)
  {
    forall k, m | i + 1 <= k < |s.instructions| && 0 <= m < |s.instructions[k].operands|
      ensures PassOneForm(s, s.instructions[k].operands[m])
    {
      assert s.instructions[k] == s.instructions[i + 1..][k - i - 1];
      assert PassOneForm(p, p.instructions[k].operands[m]);
    }
  }

  /** Upgrading a ready instruction gives the same operands against any
      table that extends the one it was ready for. */
  lemma UpgradedAllStable(p: Program, s: Program, k: nat)
    requires k < |p.instructions| && Extends(p, s) && ReadyFrom(p, k)
    requires s.instructions[k] == p.instructions[k]
    ensures UpgradedAll(s.instructionLabels, s.instructions[k].operands) ==
            UpgradedAll(p.instructionLabels, p.instructions[k].operands)
  {
    var ops := p.instructions[k].operands;
    forall m | 0 <= m < |ops|
      ensures Upgraded(s.instructionLabels, ops[m]) == Upgraded(p.instructionLabels, ops[m])
    {
      assert PassOneForm(p, ops[m]);
    }
  }

  lemma ExtendsTrans(p: Program, q: Program, r: Program)
    requires Extends(p, q) && Extends(q, r)
    ensures Extends(p, r)
  {
  }
}
