/** The operand algebra (Operands.cs) and the operand parser (ParseOperands,
    Program.cs lines 269-339).

    The record hierarchy of the source is a tagged union here. Its two
    abstract layers become predicates: a Value can be read (registers,
    immediates and labels), a Register can also be written (general
    registers, SP and PC). */
module Operands {
  import opened Wrappers
  import opened Text
  import opened Words
  import opened Numbers

  datatype Operand =
    | GeneralRegister(index: nat)      // uint Index
    | MemoryLocation(address: nat)     // uint Address, before resolution
    | RelativeNum(offset: int)         // int Value, before resolution
    | LabelPtr(name: string)           // before resolution
    | Label(name: string, address: nat) // an Immediate whose value is its address
    | Immediate(value: nat)            // ulong Value
    | ImmediateDef(name: string)       // before resolution
    | Port(name: string)
    | StackPointer
    | ProgramCounter

  /** The Register subtypes: the operands an instruction may write. */
  predicate IsRegister(op: Operand) {
    op.GeneralRegister? || op.StackPointer? || op.ProgramCounter?
  }

  /** The Immediate subtypes: Immediate and Label. */
  predicate IsImmediate(op: Operand) {
    op.Immediate? || op.Label?
  }

  /** The Value subtypes: the operands an instruction may read. */
  predicate IsValue(op: Operand) {
    IsRegister(op) || IsImmediate(op)
  }

  /** The value an Immediate carries; a Label's value is its address. */
  function ImmediateValue(op: Operand): (v: nat)
    requires IsImmediate(op)
  {
    if op.Label? then op.address else op.value
  }

  /** The operand kinds that remain once resolution has run. */
  predicate Resolved(op: Operand) {
    op.GeneralRegister? || op.Immediate? || op.Label? || op.Port? || op.StackPointer? || op.ProgramCounter?
  }

  /** The operand kinds the parser produces. */
  predicate Parsed(op: Operand) {
    op.GeneralRegister? || op.MemoryLocation? || op.RelativeNum? || op.LabelPtr? ||
    op.Immediate? || op.ImmediateDef? || op.Port?
  }

  // ---------------------------------------------------------------------
  // Printing

  predicate InInt32(v: int) {
    -(Pow2(31) as int) <= v < Pow2(31)
  }

  function IntToString(v: int): string {
    if v < 0 then "-" + NatToString(-v) else NatToString(v)
  }

  /** The ToString forms of the operand records. */
  function ToString(op: Operand): (r: string)
    ensures |r| >= 1
  {
    match op
    case GeneralRegister(i) => "$" + NatToString(i)
    case MemoryLocation(a) => "#" + NatToString(a)
    case RelativeNum(v) => "~" + (if v > 0 then "+" else "") + IntToString(v)
    case LabelPtr(n) => "*" + n
    case Label(n, _) => "." + n
    case Immediate(v) => NatToString(v)
    case ImmediateDef(n) => "&" + n
    case Port(n) => "%" + n
    case StackPointer => "SP"
    case ProgramCounter => "PC"
  }

  /** The first character of an operand's text tells its kind. */
  lemma ToStringSigil(op: Operand)
    ensures var r := ToString(op);
      && (op.GeneralRegister? <==> r[0] == '$')
      && (op.MemoryLocation? <==> r[0] == '#')
      && (op.RelativeNum? <==> r[0] == '~')
      && (op.LabelPtr? <==> r[0] == '*')
      && (op.Label? <==> r[0] == '.')
      && (op.ImmediateDef? <==> r[0] == '&')
      && (op.Port? <==> r[0] == '%')
      && (op.Immediate? <==> IsDecimalDigit(r[0]))
  {
    if op.Immediate? { DecimalShape(op.value); }
  }

  /** The operand list as Instruction.ToString prints it: separated by
      single spaces. */
  function Render(ops: seq<Operand>): string {
    if ops == [] then []
    else if |ops| == 1 then ToString(ops[0])
    else ToString(ops[0]) + (" " + Render(ops[1..]))
  }

  // ---------------------------------------------------------------------
  // Parsing

  /** The name or number after a one-character sigil, up to the next space,
      and the trimmed text after it. */
  function Token(input: string): (r: (string, string))
    requires input != [] && input[0] != ' '
    ensures |r.1| < |input|
  {
    var i := NextWhitespace(input);
    (input[1..i], TrimStart(input[i..]))
  }

  /** One step of ParseOperands on non-blank text: the operand at the front
      and the text after it, or the text at which the source throws. */
  function ParseOne(input: string): (r: Result<(Operand, string), string>)
    requires !Blank(input)
    ensures r.Ok? ==> |r.value.1| < |input| && Parsed(r.value.0)
  {
    match TryParseImmediate(input)
    case Literal(v, rest) => Ok((Immediate(v), rest))
    case BadLiteral(_) => Fail(input)
    case NoLiteral => ParseSigil(input)
  }

  /** An operand that is no literal, chosen by its first character. A token
      that starts with no sigil always throws, even "PC" and "SP": the source
      yields those and then reaches its error call. */
  function ParseSigil(input: string): (r: Result<(Operand, string), string>)
    requires input != []
    ensures r.Ok? ==> |r.value.1| < |input| && Parsed(r.value.0)
  {
    var c := input[0];
    if c == '#' || c == 'M' || c == '$' || c == 'R' then
      var (t, rest) := Token(input);
      match ParseInt(t)
      case Some(k) => Ok((if c == '#' || c == 'M' then MemoryLocation(k) else GeneralRegister(k), rest))
      case None => Fail(input)
    else if c == '~' then
      ParseRelativeNum(input)
    else if c == '&' || c == '%' || c == '.' then
      var (t, rest) := Token(input);
      Ok((if c == '&' then ImmediateDef(t) else if c == '%' then Port(t) else LabelPtr(t), rest))
    else Fail(input)
  }

  /** "~" operands: input[1] is read as the sign whatever it is, and the
      number starts at index 2; the number is cast to int32 without a check
      and a '-' negates it, wrapping at -2^31. */
  function ParseRelativeNum(input: string): (r: Result<(Operand, string), string>)
    requires input != [] && input[0] == '~'
    ensures r.Ok? ==> |r.value.1| < |input| && r.value.0.RelativeNum?
  {
    var i := NextWhitespace(input);
    if |input| < 2 || i < 2 then Fail(input)
    else
      match ParseInt(input[2..i])
      case Some(u) => Ok((RelativeNum(RelativeValue(input[1], u)), TrimStart(input[i..])))
      case None => Fail(input)
  }

  /** The offset of "~" with sign character sign and number u. */
  function RelativeValue(sign: char, u: nat): int {
    var val := ToInt32(u);
    if sign == '-' then ToInt32(-val) else val
  }

  /** ParseOperands as a function: the operands of the whole text, or the
      text at which parsing fails. */
  function ParseOperandList(input: string): (r: Result<seq<Operand>, string>)
    ensures r.Ok? ==> forall op :: op in r.value ==> Parsed(op)
    ensures Blank(input) ==> r == Ok([])
    decreases |input|
  {
    if Blank(input) then Ok([])
    else
      match ParseOne(input)
      case Fail(e) => Fail(e)
      case Ok((op, rest)) =>
        match ParseOperandList(rest)
        case Fail(e) => Fail(e)
        case Ok(ops) => Ok([op] + ops)
  }

  function Prepend(ops: seq<Operand>, r: Result<seq<Operand>, string>): Result<seq<Operand>, string> {
    match r
    case Ok(more) => Ok(ops + more)
    case Fail(e) => Fail(e)
  }

  lemma UnfoldList(text: string)
    requires !Blank(text)
    ensures ParseOne(text).Fail? ==> ParseOperandList(text) == Fail(ParseOne(text).error)
    ensures ParseOne(text).Ok? ==>
      ParseOperandList(text) == Prepend([ParseOne(text).value.0], ParseOperandList(ParseOne(text).value.1))
  {
  }

  lemma PrependStep(ops: seq<Operand>, op: Operand, r: Result<seq<Operand>, string>)
    ensures Prepend(ops, Prepend([op], r)) == Prepend(ops + [op], r)
  {
    if r.Ok? {
      assert ops + ([op] + r.value) == (ops + [op]) + r.value;
    }
  }

  /** ParseOperands: the source's iterator, which the caller drains into an
      array at once. */
  method ParseOperands(input: string) returns (r: Result<seq<Operand>, string>)
    ensures r == ParseOperandList(input)
    ensures r.Ok? ==> forall op :: op in r.value ==> Parsed(op)
  {
    var ops: seq<Operand> := [];
    var text := input;
    var all := ParseOperandList(input);
    assert all.Ok? ==> [] + all.value == all.value;
    while !Blank(text)
      invariant ParseOperandList(input) == Prepend(ops, ParseOperandList(text))
      decreases |text|
    {
      var one := ParseOne(text);
      UnfoldList(text);
      if one.Fail? {
        return Fail(one.error);
      }
      PrependStep(ops, one.value.0, ParseOperandList(one.value.1));
      ops := ops + [one.value.0];
      text := one.value.1;
    }
    assert ops + [] == ops;
    r := Ok(ops);
  }

  // ---------------------------------------------------------------------
  // Printing, then parsing

  /** The operands that print to text ParseOperands reads back as the same
      operand: numbers that fit, non-zero relative offsets and space-free
      names. Labels print as label pointers, label pointers as "*name", SP
      and PC as keywords the parser rejects, and RelativeNum(0) as "~0",
      whose digits start one character late. */
  predicate Printable(op: Operand) {
    match op
    case GeneralRegister(i) => i < Pow2(32)
    case MemoryLocation(a) => a < Pow2(32)
    case Immediate(v) => v < Pow2(64)
    case RelativeNum(v) => v != 0 && InInt32(v)
    case ImmediateDef(n) => forall k :: 0 <= k < |n| ==> n[k] != ' '
    case Port(n) => forall k :: 0 <= k < |n| ==> n[k] != ' '
    case _ => false
  }

  lemma SigilToken(sigil: char, body: string, rest: string)
    requires sigil != ' ' && forall k :: 0 <= k < |body| ==> body[k] != ' '
    requires rest == [] || rest[0] == ' '
    ensures NextWhitespace([sigil] + body + rest) == 1 + |body|
    ensures Token([sigil] + body + rest) == (body, TrimStart(rest))
  {
    var input := [sigil] + body + rest;
    var i := NextWhitespace(input);
    forall k | 0 <= k < 1 + |body| ensures input[k] != ' ' {
      if k > 0 { assert input[k] == body[k - 1]; }
    }
    if rest != [] { assert input[1 + |body|] == rest[0]; }
    assert input[1..i] == body && input[i..] == rest;
  }

  lemma NotLiteral(input: string)
    requires input != [] && input[0] != ' ' && !IsDecimalDigit(input[0]) && input[0] != '\''
    ensures !Blank(input) && TryParseImmediate(input) == NoLiteral
  {
  }

  lemma SigilStep(input: string)
    requires input != [] && input[0] in {'$', '#', '&', '%', '~', '.'}
    ensures !Blank(input) && ParseOne(input) == ParseSigil(input)
  {
    NotLiteral(input);
  }

  /** A sigil followed by a decimal number parses as the number. */
  lemma ParseSigilNumber(sigil: char, n: nat, rest: string)
    requires sigil in {'$', '#'} && n < Pow2(32)
    requires rest == [] || rest[0] == ' '
    ensures !Blank([sigil] + NatToString(n) + rest)
    ensures ParseOne([sigil] + NatToString(n) + rest) ==
      Ok((if sigil == '$' then GeneralRegister(n) else MemoryLocation(n), TrimStart(rest)))
  {
    var input := [sigil] + NatToString(n) + rest;
    assert input[0] == sigil;
    SigilStep(input);
    DecimalShape(n);
    ParseDecimal(n, 32);
    SigilToken(sigil, NatToString(n), rest);
  }

  lemma ParseSigilName(sigil: char, name: string, rest: string)
    requires sigil in {'&', '%'} && forall k :: 0 <= k < |name| ==> name[k] != ' '
    requires rest == [] || rest[0] == ' '
    ensures !Blank([sigil] + name + rest)
    ensures ParseOne([sigil] + name + rest) ==
      Ok((if sigil == '&' then ImmediateDef(name) else Port(name), TrimStart(rest)))
  {
    var input := [sigil] + name + rest;
    assert input[0] == sigil;
    SigilStep(input);
    SigilToken(sigil, name, rest);
  }

  /** "~", a sign character and a decimal number scan as the number cast
      to int32, negated for '-'. */
  lemma RelativeShape(sign: char, m: nat, rest: string)
    requires sign != ' '
    requires rest == [] || rest[0] == ' '
    ensures var input := ['~', sign] + NatToString(m) + rest;
      var i := NextWhitespace(input);
      i == 2 + |NatToString(m)| && input[1] == sign && input[2..i] == NatToString(m) && input[i..] == rest
  {
    var digits := NatToString(m);
    var input := ['~', sign] + digits + rest;
    var body := [sign] + digits;
    assert input == ['~'] + body + rest;
    DecimalShape(m);
    forall k | 0 <= k < |body| ensures body[k] != ' ' {
      if k > 0 { assert body[k] == digits[k - 1]; }
    }
    SigilToken('~', body, rest);
  }

  lemma ScanRelative(sign: char, m: nat, rest: string)
    requires sign != ' ' && m < Pow2(32)
    requires rest == [] || rest[0] == ' '
    ensures ParseRelativeNum(['~', sign] + NatToString(m) + rest) ==
      Ok((RelativeNum(RelativeValue(sign, m)), TrimStart(rest)))
  {
    RelativeShape(sign, m, rest);
    ParseDecimal(m, 32);
  }

  /** The int32 casts leave an offset that fits unchanged, and negating
      -2^31 wraps back to -2^31. */
  lemma RelativeCasts(v: int)
    requires v != 0 && InInt32(v)
    ensures v == RelativeValue(if v > 0 then '+' else '-', if v > 0 then v else -v)
  {
    var m := if v > 0 then v else -v;
    if v > 0 {
      ToInt32Identity(v);
    } else if m < Pow2(31) {
      ToInt32Identity(m);
      ToInt32Identity(-m);
    } else {
      assert m == Pow2(31);
      assert ToInt32(m) == v by { TruncSmall(32, m); }
      assert ToInt32(-v) == v by { TruncSmall(32, m); }
    }
  }

  lemma RelativeText(v: int)
    requires v != 0
    ensures ToString(RelativeNum(v)) ==
      ['~', if v > 0 then '+' else '-'] + NatToString(if v > 0 then v else -v)
  {
  }

  lemma ParseRelative(v: int, rest: string)
    requires v != 0 && InInt32(v)
    requires rest == [] || rest[0] == ' '
    ensures !Blank(ToString(RelativeNum(v)) + rest)
    ensures ParseOne(ToString(RelativeNum(v)) + rest) == Ok((RelativeNum(v), TrimStart(rest)))
  {
    var m := if v > 0 then v else -v;
    var sign := if v > 0 then '+' else '-';
    var input := ['~', sign] + NatToString(m) + rest;
    RelativeText(v);
    assert input == ToString(RelativeNum(v)) + rest;
    NotLiteral(input);
    Pow2Monotone(31, 32);
    ScanRelative(sign, m, rest);
    RelativeCasts(v);
  }

  lemma ParsePrintedOne(op: Operand, rest: string)
    requires Printable(op)
    requires rest == [] || rest[0] == ' '
    ensures !Blank(ToString(op) + rest)
    ensures ParseOne(ToString(op) + rest) == Ok((op, TrimStart(rest)))
  {
    match op
    case Immediate(v) =>
      DecimalShape(v);
      assert (ToString(op) + rest)[0] == ToString(op)[0];
      ScanDecimal(v, rest);
    case GeneralRegister(i) =>
      assert ToString(op) + rest == ['$'] + NatToString(i) + rest;
      ParseSigilNumber('$', i, rest);
    case MemoryLocation(a) =>
      assert ToString(op) + rest == ['#'] + NatToString(a) + rest;
      ParseSigilNumber('#', a, rest);
    case ImmediateDef(n) =>
      assert ToString(op) + rest == ['&'] + n + rest;
      ParseSigilName('&', n, rest);
    case Port(n) =>
      assert ToString(op) + rest == ['%'] + n + rest;
      ParseSigilName('%', n, rest);
    case RelativeNum(v) =>
      ParseRelative(v, rest);
  }

  lemma TrimStartOfNonSpace(s: string)
    requires s == [] || s[0] != ' '
    ensures TrimStart(s) == s
  {
  }

  lemma PrintedStart(op: Operand)
    requires Printable(op)
    ensures ToString(op) != [] && ToString(op)[0] != ' '
  {
    if op.Immediate? { DecimalShape(op.value); }
  }

  /** Printing an operand list and parsing it back gives the same operands,
      for every list of printable operands. */
  lemma {:induction false} ParsePrinted(ops: seq<Operand>)
    requires forall k :: 0 <= k < |ops| ==> Printable(ops[k])
    ensures ParseOperandList(Render(ops)) == Ok(ops)
  {
    if ops == [] {
    } else if |ops| == 1 {
      ParsePrintedOne(ops[0], []);
      assert ToString(ops[0]) + [] == Render(ops);
      assert ParseOperandList([]) == Ok([]);
      assert [ops[0]] + [] == ops;
    } else {
      ParsePrinted(ops[1..]);
      RenderCons(ops);
      RenderTailStart(ops);
      ParseTokenThen(ops[0], Render(ops[1..]), ops[1..]);
      assert [ops[0]] + ops[1..] == ops;
    }
  }

  /** The step of ParsePrinted: a printable operand, a space, and text
      that parses back to the rest of the list. */
  lemma ParseTokenThen(op: Operand, text: string, rest: seq<Operand>)
    requires Printable(op)
    requires text == [] || text[0] != ' '
    requires ParseOperandList(text) == Ok(rest)
    ensures ParseOperandList(ToString(op) + (" " + text)) == Ok([op] + rest)
  {
    ParsePrintedOne(op, " " + text);
    TrimStartOfSpace(text);
    ParseListCons(ToString(op) + (" " + text), op, text, rest);
  }

  lemma RenderCons(ops: seq<Operand>)
    requires |ops| >= 2
    ensures Render(ops) == ToString(ops[0]) + (" " + Render(ops[1..]))
  {
  }

  /** One space before text that does not start with one is trimmed. */
  lemma TrimStartOfSpace(s: string)
    requires s == [] || s[0] != ' '
    ensures TrimStart(" " + s) == s
  {
    assert (" " + s)[1..] == s;
    TrimStartOfNonSpace(s);
  }

  /** An operand list is its first operand and the list after it. */
  lemma ParseListCons(input: string, op: Operand, rest: string, ops: seq<Operand>)
    requires !Blank(input) && ParseOne(input) == Ok((op, rest))
    requires ParseOperandList(rest) == Ok(ops)
    ensures ParseOperandList(input) == Ok([op] + ops)
  {
  }

  /** The rendered tail of a list whose second operand is printable does
      not start with a space. */
  lemma RenderTailStart(ops: seq<Operand>)
    requires |ops| >= 2 && Printable(ops[1])
    ensures Render(ops[1..]) != [] && Render(ops[1..])[0] != ' '
  {
    PrintedStart(ops[1]);
    var tail := ops[1..];
    assert tail[0] == ops[1];
    if |tail| > 1 {
      assert Render(tail) == ToString(tail[0]) + (" " + Render(tail[1..]));
    }
  }
}
