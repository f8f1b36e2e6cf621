/** Number literals: the radix prefixes, Convert.ToUInt32/ToUInt64 with an
    explicit base, and the immediate scanner that consumes a literal from the
    front of an operand list (Program.cs lines 348-419). */
module Numbers {
  import opened Wrappers
  import opened Text
  import opened Words

  /** Value of a digit character in any base up to 36, or 36 for a
      character that is no digit at all. */
  function DigitValue(c: char): (d: nat)
    ensures d <= 36
  {
    if '0' <= c <= '9' then (c as int) - ('0' as int)
    else if 'a' <= c <= 'z' then (c as int) - ('a' as int) + 10
    else if 'A' <= c <= 'Z' then (c as int) - ('A' as int) + 10
    else 36
  }

  predicate AllDigits(s: string, radix: nat) {
    forall i :: 0 <= i < |s| ==> DigitValue(s[i]) < radix
  }

  /** The value of a string of digits, most significant first. */
  function DigitsValue(s: string, radix: nat): nat
    requires AllDigits(s, radix)
  {
    if s == [] then 0
    else DigitsValue(s[..|s| - 1], radix) * radix + DigitValue(s[|s| - 1])
  }

  /** Convert.ToUInt32(s, radix) / Convert.ToUInt64(s, radix) for bits = 32
      / 64: an optional '+', for base 16 an optional "0x" or "0X", then at
      least one digit of the base and nothing else; the value must fit in
      the given number of bits. A '-' sign, an empty string, a stray
      character or an overflow makes the source throw: None. */
  function ConvertUnsigned(s: string, radix: nat, bits: nat): (r: Option<nat>)
    requires radix in {2, 8, 10, 16}
    ensures r.Some? ==> r.value < Pow2(bits)
    ensures r.Some? ==> s != [] && s[0] != '-' && s[0] != ' '
  {
    var unsigned := if s != [] && s[0] == '+' then s[1..] else s;
    var digits :=
      if radix == 16 && |unsigned| >= 2 && unsigned[0] == '0' && (unsigned[1] == 'x' || unsigned[1] == 'X')
      then unsigned[2..] else unsigned;
    if digits != [] && AllDigits(digits, radix) && DigitsValue(digits, radix) < Pow2(bits) then
      assert DigitValue(' ') == 36 && DigitValue('-') == 36;
      assert s != [] && s[0] != '-' && s[0] != ' ' by {
        if s[0] != '+' {
          assert unsigned == s;
          if digits != unsigned { assert s[0] == '0'; }
          else { assert DigitValue(s[0]) < radix; }
        }
      }
      Some(DigitsValue(digits, radix))
    else None
  }

  /** Radix: a "0x", "0b" or "0o" prefix selects base 16, 2 or 8 and is
      consumed; anything else is base 10 and consumes nothing. */
  function Radix(input: string): (r: (nat, string))
    ensures r.0 in {2, 8, 10, 16}
    ensures r.0 == 10 <==> r.1 == input
    ensures r.0 != 10 ==> |input| >= 2 && input[0] == '0' && r.1 == input[2..]
    ensures r.0 == 16 <==> StartsWith(input, "0x")
    ensures r.0 == 2 <==> StartsWith(input, "0b")
    ensures r.0 == 8 <==> StartsWith(input, "0o")
  {
    if |input| < 2 then (10, input)
    else if input[..2] == "0x" then (16, input[2..])
    else if input[..2] == "0b" then (2, input[2..])
    else if input[..2] == "0o" then (8, input[2..])
    else (10, input)
  }

  /** ParseInt: a header or operand number that must fit in 32 bits. */
  function ParseInt(input: string): (r: Option<nat>)
    ensures r.Some? ==> r.value < Pow2(32)
  {
    var (radix, digits) := Radix(input);
    ConvertUnsigned(digits, radix, 32)
  }

  /** ParseLong: a literal that may span a 64-bit word. */
  function ParseLong(input: string): (r: Option<nat>)
    ensures r.Some? ==> r.value < Pow2(64)
  {
    var (radix, digits) := Radix(input);
    ConvertUnsigned(digits, radix, 64)
  }

  /** NextWhitespace: the position of the first ' ', or the length. */
  function NextWhitespace(input: string): (i: nat)
    ensures i <= |input|
    ensures forall k :: 0 <= k < i ==> input[k] != ' '
    ensures i < |input| ==> input[i] == ' '
  {
    var k := IndexOf(input, " ");
    if k == -1 then
      assert forall m :: 0 <= m < |input| ==> !MatchAt(input, " ", m);
      assert forall m :: 0 <= m < |input| ==> input[m] != ' ' by {
        forall m | 0 <= m < |input| ensures input[m] != ' ' {
          assert !MatchAt(input, " ", m);
          assert input[m..m + 1] == [input[m]];
        }
      }
      |input|
    else
      assert input[k..k + 1] == " ";
      assert forall m :: 0 <= m < k ==> input[m] != ' ' by {
        forall m | 0 <= m < k ensures input[m] != ' ' {
          assert !MatchAt(input, " ", m);
          assert input[m..m + 1] == [input[m]];
        }
      }
      k
  }

  predicate IsDecimalDigit(c: char) {
    '0' <= c <= '9'
  }

  /** What TryParseImmediate finds at the front of the operand text. */
  datatype Scan =
    | NoLiteral                        // returns false, input unchanged
    | Literal(value: nat, rest: string) // returns true, input := rest
    | BadLiteral(token: string)         // ParseLong throws

  /** TryParseImmediate: a digit-led token up to the next space is a number
      in the base its prefix selects; a quoted ASCII character is its code;
      anything else is no literal. The text after a literal is trimmed. */
  function TryParseImmediate(input: string): (r: Scan)
    ensures r.NoLiteral? <==>
      Blank(input) || (!IsDecimalDigit(input[0]) &&
        !(|input| >= 3 && input[0] == '\'' && (input[1] as int) < 128 && input[2] == '\''))
    ensures r.Literal? ==> r.value < Pow2(64)
    ensures r.Literal? && IsDecimalDigit(input[0]) ==>
      var i := NextWhitespace(input);
      Some(r.value) == ParseLong(input[..i]) && r.rest == TrimStart(input[i..])
    ensures r.Literal? && !IsDecimalDigit(input[0]) ==>
      r.value == input[1] as int && r.rest == TrimStart(input[3..])
    ensures r.Literal? ==> |r.rest| < |input|
    ensures r.BadLiteral? ==> IsDecimalDigit(input[0]) && ParseLong(input[..NextWhitespace(input)]).None?
  {
    if Blank(input) then NoLiteral
    else if IsDecimalDigit(input[0]) then
      var i := NextWhitespace(input);
      match ParseLong(input[..i])
      case Some(v) => Literal(v, TrimStart(input[i..]))
      case None => BadLiteral(input[..i])
    else if |input| < 3 then NoLiteral
    else if input[0] == '\'' && (input[1] as int) < 128 && input[2] == '\'' then
      Literal(input[1] as int, TrimStart(input[3..]))
    else NoLiteral
  }

  // ---------------------------------------------------------------------
  // Round trips with decimal rendering

  lemma {:induction false} DecimalRoundTrip(n: nat)
    ensures AllDigits(NatToString(n), 10)
    ensures DigitsValue(NatToString(n), 10) == n
  {
    var s := NatToString(n);
    if n >= 10 {
      DecimalRoundTrip(n / 10);
      assert s[..|s| - 1] == NatToString(n / 10);
    }
  }

  lemma DecimalShape(n: nat)
    ensures IsDecimalDigit(NatToString(n)[0])
    ensures forall i :: 0 <= i < |NatToString(n)| ==> NatToString(n)[i] != ' '
    ensures n >= 10 ==> NatToString(n)[..2] != "0x" && NatToString(n)[..2] != "0b" && NatToString(n)[..2] != "0o"
  {
    DecimalRoundTrip(n);
    if n >= 10 {
      DecimalShape(n / 10);
      assert NatToString(n)[0] == NatToString(n / 10)[0];
    }
  }

  /** Decimal rendering parses back: ParseInt/ParseLong of the decimal text
      of a value that fits gives the value. */
  lemma ParseDecimal(n: nat, bits: nat)
    requires n < Pow2(bits)
    ensures Radix(NatToString(n)) == (10, NatToString(n))
    ensures ConvertUnsigned(NatToString(n), 10, bits) == Some(n)
  {
    DecimalRoundTrip(n);
    DecimalShape(n);
  }

  /** A decimal literal followed by a space and more text is scanned as that
      literal, and the scan resumes at the trimmed remainder. */
  lemma ScanDecimal(n: nat, rest: string)
    requires n < Pow2(64)
    requires rest == [] || rest[0] == ' '
    ensures TryParseImmediate(NatToString(n) + rest) == Literal(n, TrimStart(rest))
  {
    var s := NatToString(n);
    var input := s + rest;
    DecimalEnd(n, rest);
    ParseDecimal(n, 64);
    assert input[..|s|] == s && input[|s|..] == rest;
  }

  /** The token of a decimal literal followed by a space ends at that space. */
  lemma DecimalEnd(n: nat, rest: string)
    requires rest == [] || rest[0] == ' '
    ensures IsDecimalDigit((NatToString(n) + rest)[0])
    ensures NextWhitespace(NatToString(n) + rest) == |NatToString(n)|
  {
    var s := NatToString(n);
    var input := s + rest;
    DecimalShape(n);
    assert input[0] == s[0];
    forall k | 0 <= k < |s| ensures input[k] != ' ' { assert input[k] == s[k]; }
    if rest != [] { assert input[|s|] == rest[0]; }
  }
}
