/** The header directives and the values the assembler computes from them
    (Program.cs lines 48-123 and 133-146): BITS, the DW operand list, the
    word-fit bound and the pseudo-immediates &BITS, &MAX and the rest.

    The numbers here are C# unsigned integers. C# masks a shift count to
    the width of the shifted type (section 12.11 of ECMA-334), so
    1uL << 64 is 1, and unsigned subtraction wraps. Both are written out. */
module Directives {
  import opened Wrappers
  import opened Text
  import opened Words
  import opened Numbers

  // ---------------------------------------------------------------------
  // BITS

  /** SupportedWordLengths.Last(word => word <= m) for m >= 8. */
  function LargestWidthAtMost(m: nat): (w: nat)
    requires m >= 8
    ensures Supported(w) && w <= m
    ensures forall v: nat :: Supported(v) && v <= m ==> v <= w
  {
    if m >= 64 then 64 else if m >= 32 then 32 else if m >= 16 then 16 else 8
  }

  /** The text of a BITS header after its optional "==". */
  function BitsOperand(text: string): string {
    if StartsWith(text, "==") then TrimStart(text[2..]) else text
  }

  /** The word length a BITS header sets, or the fatal message. A number
      (after an optional "==") must be one of the widths. ">= n" takes the
      last width that is at least n, which is always 64; "<= n" takes the
      largest width at most n. Any other text leaves the word length 0,
      because the failed number parse has already stored its default. */
  function Bits(text: string): (r: Result<nat, string>)
    ensures r.Ok? ==> r.value == 0 || Supported(r.value)
  {
    var rest := BitsOperand(text);
    match ParseInt(rest)
    case Some(n) =>
      if Supported(n) then Ok(n) else Fail("Unsupported BITS == " + NatToString(n))
    case None =>
      if StartsWith(rest, ">=") then
        match ParseInt(TrimStart(rest[2..]))
        case None => Fail("Invalid number after BITS >=")
        // the message prints the word length, which the failed parse set to 0
        case Some(m) => if m > 64 then Fail("Unsupported BITS >= 0") else Ok(64)
      else if StartsWith(rest, "<=") then
        match ParseInt(TrimStart(rest[2..]))
        case None => Fail("Invalid number after BITS <=")
        case Some(m) => if m < 8 then Fail("Unsupported BITS <= 0") else Ok(LargestWidthAtMost(m))
      else Ok(0)
  }

  /** A number, after an optional "==", is accepted exactly when it is one
      of the widths, and is then the word length. */
  lemma BitsExact(text: string)
    requires ParseInt(BitsOperand(text)).Some?
    ensures var n := ParseInt(BitsOperand(text)).value;
      Bits(text).Ok? <==> Supported(n)
    ensures Bits(text).Ok? ==> Bits(text).value == ParseInt(BitsOperand(text)).value
  {
  }

  /** ">= n" is fatal when n is no number or n > 64, and otherwise gives 64. */
  lemma BitsAtLeast(text: string)
    requires ParseInt(BitsOperand(text)).None? && StartsWith(BitsOperand(text), ">=")
    ensures var bound := ParseInt(TrimStart(BitsOperand(text)[2..]));
      Bits(text).Ok? <==> bound.Some? && bound.value <= 64
    ensures Bits(text).Ok? ==> Bits(text).value == 64
  {
  }

  /** "<= n" is fatal when n is no number or n < 8, and otherwise gives the
      largest width that is at most n. */
  lemma BitsAtMost(text: string)
    requires ParseInt(BitsOperand(text)).None? && StartsWith(BitsOperand(text), "<=")
    ensures var bound := ParseInt(TrimStart(BitsOperand(text)[2..]));
      Bits(text).Ok? <==> bound.Some? && bound.value >= 8
    ensures var bound := ParseInt(TrimStart(BitsOperand(text)[2..]));
      Bits(text).Ok? ==> Bits(text).value == LargestWidthAtMost(bound.value)
  {
    var rest := BitsOperand(text);
    assert rest[..2][0] == '<';
    assert !StartsWith(rest, ">=");
  }

  /** Any other text leaves the word length 0. */
  lemma BitsOther(text: string)
    requires ParseInt(BitsOperand(text)).None?
    requires !StartsWith(BitsOperand(text), ">=") && !StartsWith(BitsOperand(text), "<=")
    ensures Bits(text) == Ok(0)
  {
  }

  // ---------------------------------------------------------------------
  // The word-fit bound

  /** (ulong)((1 << (w - 1)) * 2) - 1, where the shift and the product are
      32-bit int arithmetic: the shift count is masked to 5 bits, the
      product wraps, and the cast to ulong sign-extends. */
  function FitBound(w: int): (r: nat)
    ensures r < Pow2(64)
  {
    var shifted := ToInt32(Pow2(ShiftCount(w - 1, 32)));
    var doubled := ToInt32(shifted * 2);
    Trunc(64, Trunc(64, doubled) - 1)
  }

  /** The bound is 2^W - 1 at W = 8 and 16. At W = 32 and 64 (and at the
      word length 0 that unrecognised BITS text leaves) the int product
      wraps to 0 and the bound becomes 2^64 - 1, so no count is rejected. */
  lemma FitBoundValues(w: nat)
    requires w == 0 || Supported(w)
    ensures w == 8 || w == 16 ==> FitBound(w) == Pow2(w) - 1
    ensures w != 8 && w != 16 ==> FitBound(w) == Pow2(64) - 1
  {
    if w == 8 || w == 16 {
      FitBoundSmall(w);
    } else {
      assert ShiftCount(w - 1, 32) == 31;
      FitBoundWide(w);
    }
  }

  /** The steps of FitBound when 1 << (w - 1) is a small positive int. */
  lemma FitBoundSmall(w: nat)
    requires w == 8 || w == 16
    ensures FitBound(w) == Pow2(w) - 1
  {
    var p := Pow2(w - 1);
    assert ShiftCount(w - 1, 32) == w - 1;
    if w == 8 {
      assert Pow2(7) == 0x80;
    } else {
      assert Pow2(15) == 0x8000;
    }
    Pow2Step(w - 1);
    ToInt32Identity(p);
    ToInt32Identity(2 * p);
    TruncSmall(64, 2 * p);
    TruncSmall(64, 2 * p - 1);
  }

  /** The steps of FitBound when 1 << (w - 1) is 1 << 31, the int minimum. */
  lemma FitBoundWide(w: int)
    requires ShiftCount(w - 1, 32) == 31
    ensures FitBound(w) == Pow2(64) - 1
  {
    assert Pow2(31) == 0x8000_0000;
    var shifted := ToInt32(0x8000_0000);
    assert shifted == -0x8000_0000 by {
      TruncSmall(32, 0x8000_0000);
    }
    assert ToInt32(-0x1_0000_0000) == 0 by {
      TruncAddMultiple(32, 0, -1);
      TruncSmall(32, 0);
    }
    TruncSmall(64, 0);
    TruncAddMultiple(64, -1, 1);
    TruncSmall(64, 0xFFFF_FFFF_FFFF_FFFF);
  }

  /** Every count the header admits fits: a 32-bit count is below the bound
      whenever the bound is 2^64 - 1. */
  predicate Fits(w: nat, count: nat) {
    count <= FitBound(w)
  }

  // ---------------------------------------------------------------------
  // Pseudo-immediates

  /** x << s and x >> s on ulong: the count is masked to 6 bits. */
  function ShiftLeft64(x: nat, s: nat): nat {
    Trunc(64, x * Pow2(ShiftCount(s, 64)))
  }

  function ShiftRight64(x: nat, s: nat): nat {
    DivNonNegative(x, Pow2(ShiftCount(s, 64)));
    x / Pow2(ShiftCount(s, 64))
  }

  /** (MINHEAP + MINSTACK) * 2 in uint arithmetic. */
  function HeapMax(heap: nat, stack: nat): (r: nat)
    ensures r < Pow2(32)
    ensures (heap + stack) * 2 < Pow2(32) ==> r == (heap + stack) * 2
  {
    if (heap + stack) * 2 < Pow2(32) then TruncSmall(32, (heap + stack) * 2); Trunc(32, (heap + stack) * 2)
    else Trunc(32, (heap + stack) * 2)
  }

  /** The header values a pseudo-immediate may name. */
  datatype Header = Header(wordLength: nat, registers: nat, heapSize: nat, stackSize: nat)

  /** (1uL << w) >> 1 */
  function Msb(w: nat): nat {
    ShiftRight64(ShiftLeft64(1, w), 1)
  }

  /** (1uL << w) >> 2 */
  function Smsb(w: nat): nat {
    ShiftRight64(ShiftLeft64(1, w), 2)
  }

  /** (1uL << w >> 1) * 2 - 1 */
  function MaxOf(w: nat): nat {
    Trunc(64, Msb(w) * 2 - 1)
  }

  /** (1uL << w >> 1) - 1 */
  function SmaxOf(w: nat): nat {
    Trunc(64, Msb(w) - 1)
  }

  /** (1uL << w / 2) - 1 */
  function LowHalf(w: nat): nat {
    Trunc(64, ShiftLeft64(1, w / 2) - 1)
  }

  /** ((1uL << w / 2) - 1) << w / 2 */
  function HighHalf(w: nat): nat {
    ShiftLeft64(LowHalf(w), w / 2)
  }

  /** The value of the pseudo-immediate &name, or None for a name the
      assembler does not define. */
  function PseudoValue(h: Header, name: string): (r: Option<nat>)
    ensures r.Some? <==> IsPseudo(name)
  {
    if name == "BITS" then Some(h.wordLength)
    else if name == "MINREG" then Some(h.registers)
    else if name == "MINHEAP" then Some(h.heapSize)
    else if name == "MINSTACK" then Some(h.stackSize)
    else if name == "HEAP" then Some(HeapMax(h.heapSize, h.stackSize))
    else if name == "MSB" then Some(Msb(h.wordLength))
    else if name == "SMSB" then Some(Smsb(h.wordLength))
    else if name == "MAX" then Some(MaxOf(h.wordLength))
    else if name == "SMAX" then Some(SmaxOf(h.wordLength))
    else if name == "UHALF" then Some(HighHalf(h.wordLength))
    else if name == "LHALF" then Some(LowHalf(h.wordLength))
    else None
  }

  /** The names PseudoValue defines. */
  predicate IsPseudo(name: string) {
    name in {"BITS", "MINREG", "MINHEAP", "MINSTACK", "HEAP", "MSB", "SMSB", "MAX", "SMAX", "UHALF", "LHALF"}
  }

  /** The header names give the header values, and HEAP is twice the heap
      and stack sizes together. */
  lemma PseudoHeaderValues(h: Header)
    requires h.heapSize < Pow2(32) && h.stackSize < Pow2(32)
    ensures PseudoValue(h, "BITS") == Some(h.wordLength)
    ensures PseudoValue(h, "MINREG") == Some(h.registers)
    ensures PseudoValue(h, "MINHEAP") == Some(h.heapSize)
    ensures PseudoValue(h, "MINSTACK") == Some(h.stackSize)
    ensures (h.heapSize + h.stackSize) * 2 < Pow2(32) ==>
      PseudoValue(h, "HEAP") == Some((h.heapSize + h.stackSize) * 2)
  {
    if (h.heapSize + h.stackSize) * 2 < Pow2(32) {
      TruncSmall(32, (h.heapSize + h.stackSize) * 2);
    }
  }

  /** MAX is the largest word for every width. */
  lemma PseudoMax(h: Header)
    requires Supported(h.wordLength)
    ensures PseudoValue(h, "MAX") == Some(Pow2(h.wordLength) - 1)
  {
    assert PseudoValue(h, "MAX") == Some(MaxOf(h.wordLength));
    MaxValue(h.wordLength);
  }

  lemma MaxValue(w: nat)
    requires Supported(w)
    ensures MaxOf(w) == Pow2(w) - 1
  {
    if w == 8 {
      Table(8);
    } else if w == 16 {
      Table(16);
    } else if w == 32 {
      Table(32);
    } else {
      Table64();
    }
  }

  /** LHALF and UHALF are the low and the high half of the word. */
  lemma PseudoHalves(h: Header)
    requires Supported(h.wordLength)
    ensures PseudoValue(h, "LHALF") == Some(Pow2(h.wordLength / 2) - 1)
    ensures PseudoValue(h, "UHALF") == Some((Pow2(h.wordLength / 2) - 1) * Pow2(h.wordLength / 2))
  {
    assert PseudoValue(h, "LHALF") == Some(LowHalf(h.wordLength));
    assert PseudoValue(h, "UHALF") == Some(HighHalf(h.wordLength));
    HalfValues(h.wordLength);
  }

  lemma HalfValues(w: nat)
    requires Supported(w)
    ensures LowHalf(w) == Pow2(w / 2) - 1
    ensures HighHalf(w) == (Pow2(w / 2) - 1) * Pow2(w / 2)
  {
    if w == 8 {
      Table(8);
    } else if w == 16 {
      Table(16);
    } else if w == 32 {
      Table(32);
    } else {
      Table64();
    }
  }

  /** MSB, SMSB and SMAX are the top bit, the second bit and the largest
      positive signed word only below 64 bits. */
  lemma PseudoSignBits(h: Header)
    requires Supported(h.wordLength) && h.wordLength < 64
    ensures PseudoValue(h, "MSB") == Some(Pow2(h.wordLength - 1))
    ensures PseudoValue(h, "SMSB") == Some(Pow2(h.wordLength - 2))
    ensures PseudoValue(h, "SMAX") == Some(Pow2(h.wordLength - 1) - 1)
  {
    assert PseudoValue(h, "MSB") == Some(Msb(h.wordLength));
    assert PseudoValue(h, "SMSB") == Some(Smsb(h.wordLength));
    assert PseudoValue(h, "SMAX") == Some(SmaxOf(h.wordLength));
    SignBitValues(h.wordLength);
  }

  lemma SignBitValues(w: nat)
    requires Supported(w) && w < 64
    ensures Msb(w) == Pow2(w - 1)
    ensures Smsb(w) == Pow2(w - 2)
    ensures SmaxOf(w) == Pow2(w - 1) - 1
  {
    if w == 8 {
      Table(8);
    } else if w == 16 {
      Table(16);
    } else {
      Table(32);
    }
  }

  /** At 64 bits 1uL << 64 is 1, so MSB and SMSB are 0 and SMAX wraps to
      2^64 - 1. */
  lemma PseudoSignBits64(h: Header)
    requires h.wordLength == 64
    ensures PseudoValue(h, "MSB") == Some(0)
    ensures PseudoValue(h, "SMSB") == Some(0)
    ensures PseudoValue(h, "SMAX") == Some(Pow2(64) - 1)
  {
    assert PseudoValue(h, "MSB") == Some(Msb(64));
    assert PseudoValue(h, "SMSB") == Some(Smsb(64));
    assert PseudoValue(h, "SMAX") == Some(SmaxOf(64));
    Table64();
  }

  /** The shift expressions evaluated at a width below 64. */
  lemma Table(w: nat)
    requires w == 8 || w == 16 || w == 32
    ensures Msb(w) == Pow2(w - 1) && Smsb(w) == Pow2(w - 2)
    ensures MaxOf(w) == Pow2(w) - 1 && SmaxOf(w) == Pow2(w - 1) - 1
    ensures LowHalf(w) == Pow2(w / 2) - 1
    ensures HighHalf(w) == (Pow2(w / 2) - 1) * Pow2(w / 2)
  {
    var p, h := Pow2(w), Pow2(w / 2);
    Pow2Monotone(w, 63);
    Pow2Step(w - 1);
    Pow2Step(w - 2);
    Pow2Add(w / 2, w / 2);
    assert w / 2 + w / 2 == w;
    Pow2Step(63);
    ShiftSmall(1, w);
    ShiftSmall(1, w / 2);
    ShiftSmall(h - 1, w / 2);
    assert ShiftCount(1, 64) == 1 && ShiftCount(2, 64) == 2;
    assert Pow2(1) == 2 && Pow2(2) == 4;
    ModUnique(p, 2, Pow2(w - 1), 0);
    ModUnique(p, 4, Pow2(w - 2), 0);
    TruncSmall(64, p - 1);
    TruncSmall(64, Pow2(w - 1) - 1);
    TruncSmall(64, h - 1);
  }

  /** x << s below 64 bits when the product stays below 2^64. */
  lemma ShiftSmall(x: nat, s: nat)
    requires s < 64 && x * Pow2(s) < Pow2(64)
    ensures ShiftLeft64(x, s) == x * Pow2(s)
  {
    var y := x * Pow2(s);
    assert ShiftCount(s, 64) == s;
    MulNonNegative(x, Pow2(s));
    TruncSmall(64, y);
  }

  /** The shift expressions evaluated at 64 bits, where 1uL << 64 is 1. */
  lemma Table64()
    ensures Msb(64) == 0 && Smsb(64) == 0
    ensures MaxOf(64) == Pow2(64) - 1 && SmaxOf(64) == Pow2(64) - 1
    ensures LowHalf(64) == Pow2(32) - 1
    ensures HighHalf(64) == (Pow2(32) - 1) * Pow2(32)
  {
    assert ShiftCount(64, 64) == 0 && Pow2(0) == 1;
    TruncSmall(64, 1);
    assert ShiftLeft64(1, 64) == 1;
    assert ShiftCount(1, 64) == 1 && ShiftCount(2, 64) == 2;
    assert Msb(64) == 0 && Smsb(64) == 0;
    TruncAddMultiple(64, -1, 1);
    TruncSmall(64, 0xFFFF_FFFF_FFFF_FFFF);
    ShiftSmall(1, 32);
    TruncSmall(64, 0xFFFF_FFFF);
    ShiftSmall(0xFFFF_FFFF, 32);
  }

  // ---------------------------------------------------------------------
  // DW

  /** The literals at the front of a DW operand text, read until the first
      token that is no literal; a digit-led token that is no number is
      fatal. */
  function ScanWords(text: string): Result<seq<nat>, string>
    decreases |text|
  {
    match TryParseImmediate(text)
    case NoLiteral => Ok([])
    case BadLiteral(t) => Fail("Invalid number " + t)
    case Literal(v, rest) =>
      match ScanWords(rest)
      case Fail(e) => Fail(e)
      case Ok(vs) => Ok([v] + vs)
  }

  /** Blank text defines no words; otherwise every word fits in 64 bits and
      there are no more words than characters. */
  lemma ScanWordsShape(text: string)
    ensures Blank(text) ==> ScanWords(text) == Ok([])
    ensures ScanWords(text).Ok? ==> |ScanWords(text).value| <= |text|
    ensures ScanWords(text).Ok? ==> forall k :: 0 <= k < |ScanWords(text).value| ==> ScanWords(text).value[k] < Pow2(64)
  {
    if Blank(text) {
      assert TryParseImmediate(text).NoLiteral?;
    }
    if ScanWords(text).Ok? {
      ScanWordsBound(text);
    }
  }

  lemma {:induction false} ScanWordsBound(text: string)
    requires ScanWords(text).Ok?
    ensures |ScanWords(text).value| <= |text|
    ensures forall k :: 0 <= k < |ScanWords(text).value| ==> ScanWords(text).value[k] < Pow2(64)
    decreases |text|
  {
    match TryParseImmediate(text)
    case Literal(v, rest) =>
      ScanWordsBound(rest);
      WordsBelowCons(v, ScanWords(rest).value);
    case _ =>
  }

  lemma WordsBelowCons(v: nat, vs: seq<nat>)
    requires v < Pow2(64) && forall k :: 0 <= k < |vs| ==> vs[k] < Pow2(64)
    ensures forall k :: 0 <= k < |[v] + vs| ==> ([v] + vs)[k] < Pow2(64)
  {
  }

  /** The operand text of a DW header, with its brackets removed when it
      starts with '[' and ends with ']'. Such a text has at least two
      characters, since one character cannot be both brackets. */
  function DataText(rest: string): (r: string)
    ensures !(StartsWith(rest, "[") && EndsWith(rest, "]")) ==> r == rest
    ensures StartsWith(rest, "[") && EndsWith(rest, "]") ==> |rest| >= 2 && r == Trim(rest[1..|rest| - 1])
  {
    if StartsWith(rest, "[") && EndsWith(rest, "]") then
      assert rest[..1][0] == '[' && rest[|rest| - 1..][0] == ']';
      Trim(rest[1..|rest| - 1])
    else rest
  }

  /** The words a DW header defines. */
  function DataWords(rest: string): Result<seq<nat>, string> {
    ScanWords(DataText(rest))
  }

  lemma ScanWordsCons(v: nat, rest: string, tail: seq<nat>)
    requires v < Pow2(64) && (rest == [] || rest[0] == ' ')
    requires ScanWords(TrimStart(rest)) == Ok(tail)
    ensures ScanWords(NatToString(v) + rest) == Ok([v] + tail)
  {
    ScanDecimal(v, rest);
  }

  /** Decimal words separated by spaces are read back as the same words. */
  lemma {:induction false} ScanPrintedWords(vs: seq<nat>)
    requires forall k :: 0 <= k < |vs| ==> vs[k] < Pow2(64)
    ensures ScanWords(JoinWords(vs)) == Ok(vs)
  {
    if vs != [] {
      var head, tail := vs[0], vs[1..];
      assert [head] + tail == vs;
      ScanPrintedWords(tail);
      var rest := JoinRest(vs);
      ScanWordsCons(head, rest, tail);
    }
  }

  /** What follows the first word of JoinWords(vs): nothing, or a space and
      the remaining words. */
  function JoinRest(vs: seq<nat>): (r: string)
    requires vs != []
    ensures JoinWords(vs) == NatToString(vs[0]) + r
    ensures r == [] || r[0] == ' '
    ensures TrimStart(r) == JoinWords(vs[1..])
  {
    if |vs| == 1 then []
    else
      var tail := JoinWords(vs[1..]);
      DecimalShape(vs[1]);
      assert tail[0] == NatToString(vs[1])[0];
      var r := " " + tail;
      assert r[1..] == tail;
      assert LeadingSpaces(r[1..]) == 0;
      assert LeadingSpaces(r) == 1;
      r
  }

  /** Words printed in decimal, separated by single spaces. */
  function JoinWords(vs: seq<nat>): string {
    if vs == [] then []
    else if |vs| == 1 then NatToString(vs[0])
    else NatToString(vs[0]) + " " + JoinWords(vs[1..])
  }
}
