/** The assembler's state between its stages (Program.cs lines 11-24): the
    header settings, the two label tables, the data words and the
    instruction list, together with GenerateLabel (Program.cs lines 258-267),
    the one operation on that state that the later passes share. */
module Programs {
  import opened Wrappers
  import opened Text
  import opened Operands
  import opened Directives

  /** An instruction. The source keeps a Label record on it whose address
      is always the instruction's own index (it is created with
      Instructions.Count or with the index it is attached to), so only the
      name is kept here. */
  datatype Instruction = Instruction(labelName: Option<string>, opCode: string, operands: seq<Operand>)

  /** The settings the header directives change. */
  datatype Config = Config(
    wordLength: nat, registers: nat, heapSize: nat, stackSize: nat,
    assemblyName: string, typeName: string, methodName: string)

  /** WordLength 8, 8 registers, a heap of 16 and a stack of 32 words, and
      the names "URCL", "URCL" and "Execute". */
  const DefaultConfig := Config(8, 8, 16, 32, "URCL", "URCL", "Execute")

  /** The assembler's tables. instructionLabels maps a name to the address
      held by the Label record the dictionary stores for it; dataLabels maps
      a name to a DW offset. */
  datatype Program = Program(
    config: Config,
    instructionLabels: map<string, nat>,
    dataLabels: map<string, nat>,
    defineWords: seq<nat>,
    instructions: seq<Instruction>)

  const EmptyProgram := Program(DefaultConfig, map[], map[], [], [])

  /** The values the pseudo-immediates are computed from. */
  function HeaderOf(c: Config): Header {
    Header(c.wordLength, c.registers, c.heapSize, c.stackSize)
  }

  /** Every table entry addresses an instruction that carries that name, and
      every name an instruction carries is in the table. */
  predicate LabelsAgree(p: Program) {
    && (forall n :: n in p.instructionLabels ==>
          p.instructionLabels[n] < |p.instructions| &&
          p.instructions[p.instructionLabels[n]].labelName == Some(n))
    && (forall i :: 0 <= i < |p.instructions| && p.instructions[i].labelName.Some? ==>
          p.instructions[i].labelName.value in p.instructionLabels)
  }

  /** No two instructions carry the same name: the table entry for every
      carried name is that instruction. */
  predicate UniqueLabels(p: Program) {
    forall i :: 0 <= i < |p.instructions| && p.instructions[i].labelName.Some? ==>
      p.instructions[i].labelName.value in p.instructionLabels &&
      p.instructionLabels[p.instructions[i].labelName.value] == i
  }

  /** q is p with more instruction labels: table entries and attached names
      are kept, opcodes and everything else outside the operands are
      unchanged. */
  predicate Extends(p: Program, q: Program) {
    && q.config == p.config && q.dataLabels == p.dataLabels && q.defineWords == p.defineWords
    && |q.instructions| == |p.instructions|
    && (forall n :: n in p.instructionLabels ==>
          n in q.instructionLabels && q.instructionLabels[n] == p.instructionLabels[n])
    && (forall i :: 0 <= i < |p.instructions| ==>
          q.instructions[i].opCode == p.instructions[i].opCode &&
          |q.instructions[i].operands| == |p.instructions[i].operands| &&
          (p.instructions[i].labelName.Some? ==> q.instructions[i].labelName == p.instructions[i].labelName))
  }

  /** Every operand is of a kind the operand parser produces. */
  predicate AllParsed(p: Program) {
    forall i, j :: 0 <= i < |p.instructions| && 0 <= j < |p.instructions[i].operands| ==>
      Parsed(p.instructions[i].operands[j])
  }

  /** The operands of every instruction are unchanged. */
  predicate SameOperands(p: Program, q: Program) {
    |q.instructions| == |p.instructions| &&
    forall i :: 0 <= i < |p.instructions| ==> q.instructions[i].operands == p.instructions[i].operands
  }

  // ---------------------------------------------------------------------
  // Generated label names

  /** The k-th compiler-generated label name. A source label may have the
      same text, which is why GenerateLabel skips names already in the
      table. */
  function Generated(k: nat): string {
    "<compiler_generated>" + NatToString(k)
  }

  lemma GeneratedInjective(a: nat, b: nat)
    requires Generated(a) == Generated(b)
    ensures a == b
  {
    var prefix := "<compiler_generated>";
    assert Generated(a)[|prefix|..] == NatToString(a);
    assert Generated(b)[|prefix|..] == NatToString(b);
    NatToStringInjective(a, b);
  }

  /** A name GenerateLabel may produce. */
  ghost predicate IsGeneratedName(n: string) {
    exists k: nat :: n == Generated(k)
  }

  /** The first k generated names. */
  ghost function GeneratedBelow(k: nat): set<string> {
    set j | 0 <= j < k :: Generated(j)
  }

  lemma {:induction false} GeneratedCount(k: nat)
    ensures |GeneratedBelow(k)| == k
  {
    if k > 0 {
      GeneratedCount(k - 1);
      assert GeneratedBelow(k) == GeneratedBelow(k - 1) + {Generated(k - 1)};
      if Generated(k - 1) in GeneratedBelow(k - 1) {
        var j :| 0 <= j < k - 1 && Generated(j) == Generated(k - 1);
        GeneratedInjective(j, k - 1);
      }
    }
  }

  lemma {:induction false} SubsetSize(a: set<string>, b: set<string>)
    requires a <= b
    ensures |a| <= |b|
    decreases a
  {
    if a != {} {
      var x :| x in a;
      SubsetSize(a - {x}, b - {x});
    }
  }

  /** m is the first generated name missing from names. */
  ghost predicate FirstFree(names: set<string>, m: nat) {
    Generated(m) !in names && forall j :: 0 <= j < m ==> Generated(j) in names
  }

  /** There is one first free generated name. */
  lemma FirstFreeUnique(names: set<string>, a: nat, b: nat)
    requires FirstFree(names, a) && FirstFree(names, b)
    ensures a == b
  {
    if a < b {
      ghost var name := Generated(a);
      assert false;
    } else if b < a {
      ghost var name := Generated(b);
      assert false;
    }
  }

  /** The search of GenerateLabel from index k on: the first generated name
      at or after k that is not taken. It ends because a finite table can
      hold only finitely many generated names. */
  function FreshIndex(names: set<string>, k: nat): (r: nat)
    requires GeneratedBelow(k) <= names
    ensures k <= r && FirstFree(names, r)
    decreases |names| - k
  {
    GeneratedCount(k);
    SubsetSize(GeneratedBelow(k), names);
    if Generated(k) !in names then k
    else
      assert GeneratedBelow(k + 1) == GeneratedBelow(k) + {Generated(k)};
      GeneratedCount(k + 1);
      SubsetSize(GeneratedBelow(k + 1), names);
      FreshIndex(names, k + 1)
  }

  /** GenerateLabel: the name instruction k carries; when it carries none,
      the first free generated name is entered into the table with address k
      and attached to instruction k, and nothing else changes. */
  function AttachLabel(p: Program, k: nat): (r: (Program, string))
    requires k < |p.instructions|
    ensures Extends(p, r.0) && SameOperands(p, r.0)
    ensures r.0.instructions[k].labelName == Some(r.1)
    ensures p.instructions[k].labelName.Some? ==> r.0 == p
    ensures p.instructions[k].labelName.None? ==>
      && (exists m :: FirstFree(p.instructionLabels.Keys, m) && r.1 == Generated(m))
      && IsGeneratedName(r.1)
      && r.0.instructionLabels == p.instructionLabels[r.1 := k]
      && (forall i :: 0 <= i < |p.instructions| && i != k ==> r.0.instructions[i] == p.instructions[i])
    ensures LabelsAgree(p) ==> LabelsAgree(r.0)
    ensures UniqueLabels(p) ==> UniqueLabels(r.0)
  {
    match p.instructions[k].labelName
    case Some(name) => (p, name)
    case None =>
      var m := FreshIndex(p.instructionLabels.Keys, 0);
      var name := Generated(m);
      var q := p.(instructionLabels := p.instructionLabels[name := k],
                  instructions := p.instructions[k := p.instructions[k].(labelName := Some(name))]);
      assert LabelsAgree(p) ==> LabelsAgree(q) by {
        if LabelsAgree(p) {
          forall n | n in q.instructionLabels
            ensures q.instructionLabels[n] < |q.instructions| &&
                    q.instructions[q.instructionLabels[n]].labelName == Some(n)
          {
            if n != name {
              assert p.instructionLabels[n] != k;
            }
          }
        }
      }
      (q, name)
  }

  /** GenerateLabel called twice on the same instruction changes nothing the
      second time and returns the same name. */
  lemma AttachIdempotent(p: Program, k: nat)
    requires k < |p.instructions|
    ensures AttachLabel(AttachLabel(p, k).0, k) == AttachLabel(p, k)
  {
  }
}
