/** String helpers with the meaning of the .NET string operations the
    assembler uses, read as exact character-by-character matching (the
    string overloads of IndexOf, LastIndexOf and StartsWith compare by the
    current culture in .NET 5 and later; see README); the only whitespace
    left after line normalisation is ' '. */
module Text {

  /** p occurs in s at position k. */
  predicate MatchAt(s: string, p: string, k: int) {
    0 <= k && k + |p| <= |s| && s[k..k + |p|] == p
  }

  function IndexFrom(s: string, p: string, k: nat): (r: int)
    requires k <= |s| + 1
    ensures r == -1 || (k <= r && MatchAt(s, p, r))
    ensures forall m :: k <= m < (if r == -1 then |s| + 1 else r) ==> !MatchAt(s, p, m)
    decreases |s| + 1 - k
  {
    if k + |p| > |s| then
      assert forall m :: k <= m ==> !MatchAt(s, p, m);
      -1
    else if s[k..k + |p|] == p then k
    else IndexFrom(s, p, k + 1)
  }

  /** string.IndexOf: the first position of p in s, or -1. */
  function IndexOf(s: string, p: string): (r: int)
    ensures r == -1 || MatchAt(s, p, r)
    ensures r == -1 <==> forall m :: !MatchAt(s, p, m)
    ensures r != -1 ==> forall m :: 0 <= m < r ==> !MatchAt(s, p, m)
  {
    IndexFrom(s, p, 0)
  }

  function LastFrom(s: string, p: string, k: int): (r: int)
    requires k < |s| + 1
    ensures r == -1 || (r <= k && MatchAt(s, p, r))
    ensures forall m :: r < m <= k ==> !MatchAt(s, p, m)
    decreases k + 1
  {
    if k < 0 then -1
    else if MatchAt(s, p, k) then k
    else LastFrom(s, p, k - 1)
  }

  /** string.LastIndexOf: the last position of p in s, or -1. */
  function LastIndexOf(s: string, p: string): (r: int)
    ensures r == -1 || MatchAt(s, p, r)
    ensures r == -1 <==> forall m :: !MatchAt(s, p, m)
    ensures forall m :: r < m ==> !MatchAt(s, p, m)
  {
    LastFrom(s, p, |s|)
  }

  predicate Contains(s: string, p: string) {
    exists m | 0 <= m <= |s| :: MatchAt(s, p, m)
  }

  predicate StartsWith(s: string, p: string) {
    |p| <= |s| && s[..|p|] == p
  }

  predicate EndsWith(s: string, p: string) {
    |p| <= |s| && s[|s| - |p|..] == p
  }

  /** A match inside a substring is a match in the whole string. */
  lemma MatchInSlice(s: string, p: string, a: nat, b: nat, k: int)
    requires a <= b <= |s| && MatchAt(s[a..b], p, k)
    ensures MatchAt(s, p, a + k)
  {
    var t := s[a..b];
    assert 0 <= k && k + |p| <= b - a;
    forall i | 0 <= i < |t| ensures t[i] == s[a + i] {
    }
    assert t[k..k + |p|] == s[a + k..a + k + |p|];
  }

  /** A match that lies inside a substring is a match in the substring. */
  lemma MatchOfSlice(s: string, p: string, a: nat, b: nat, k: int)
    requires a <= k && k + |p| <= b <= |s| && MatchAt(s, p, k)
    ensures MatchAt(s[a..b], p, k - a)
  {
    forall i | 0 <= i < |p| ensures s[a..b][k - a..k - a + |p|][i] == p[i] {
      assert s[a..b][k - a + i] == s[k + i] == s[k..k + |p|][i];
    }
  }

  /** string.IsNullOrWhiteSpace, for text whose only whitespace is ' '. */
  predicate Blank(s: string) {
    forall i :: 0 <= i < |s| ==> s[i] == ' '
  }

  /** The number of spaces at the front of s. */
  function LeadingSpaces(s: string): (k: nat)
    ensures k <= |s|
    ensures forall i :: 0 <= i < k ==> s[i] == ' '
    ensures k < |s| ==> s[k] != ' '
  {
    if s == [] || s[0] != ' ' then 0 else 1 + LeadingSpaces(s[1..])
  }

  /** The length of s without the spaces at its end. */
  function TrailingStart(s: string): (k: nat)
    ensures k <= |s|
    ensures forall i :: k <= i < |s| ==> s[i] == ' '
    ensures k > 0 ==> s[k - 1] != ' '
  {
    if s == [] || s[|s| - 1] != ' ' then |s| else TrailingStart(s[..|s| - 1])
  }

  /** TrimStart for text whose only whitespace is ' '. */
  function TrimStart(s: string): (r: string)
    ensures |r| <= |s| && r == s[|s| - |r|..]
    ensures r == [] || r[0] != ' '
    ensures Blank(s[..|s| - |r|])
  {
    s[LeadingSpaces(s)..]
  }

  /** TrimEnd for text whose only whitespace is ' '. */
  function TrimEnd(s: string): (r: string)
    ensures |r| <= |s| && r == s[..|r|]
    ensures r == [] || r[|r| - 1] != ' '
    ensures Blank(s[|r|..])
  {
    s[..TrailingStart(s)]
  }

  /** Trim: both ends cut. A blank text is cut to nothing. */
  function Trim(s: string): (r: string)
    ensures r == [] || (r[0] != ' ' && r[|r| - 1] != ' ')
    ensures r == [] <==> Blank(s)
  {
    var a := LeadingSpaces(s);
    var b := TrailingStart(s);
    if b <= a then
      assert Blank(s) by {
        forall i | 0 <= i < |s| ensures s[i] == ' ' {
          if i >= a { assert i >= b; }
        }
      }
      []
    else
      assert s[a] != ' ';
      s[a..b]
  }

  /** Trim keeps a slice of its input. */
  lemma TrimSlice(s: string)
    ensures LeadingSpaces(s) + |Trim(s)| <= |s|
    ensures Trim(s) == s[LeadingSpaces(s)..LeadingSpaces(s) + |Trim(s)|]
  {
  }

  // ---------------------------------------------------------------------
  // Decimal rendering of natural numbers

  function DigitChar(d: nat): char
    requires d < 10
  {
    "0123456789"[d]
  }

  function NatToString(n: nat): (r: string)
    ensures |r| >= 1
    ensures n >= 10 ==> |r| >= 2
  {
    if n < 10 then [DigitChar(n)] else NatToString(n / 10) + [DigitChar(n % 10)]
  }

  /** Distinct numbers have distinct decimal renderings. */
  lemma {:induction false} NatToStringInjective(a: nat, b: nat)
    requires NatToString(a) == NatToString(b)
    ensures a == b
  {
    var s := NatToString(a);
    if a < 10 && b < 10 {
      assert DigitChar(a) == s[0] == DigitChar(b);
    } else if a >= 10 && b >= 10 {
      assert DigitChar(a % 10) == s[|s| - 1] == DigitChar(b % 10);
      assert NatToString(a / 10) == s[..|s| - 1] == NatToString(b / 10);
      NatToStringInjective(a / 10, b / 10);
    }
  }
}
