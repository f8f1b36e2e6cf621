/** The assembler's first stage: block-comment removal, then the line
    pipeline that splits the text into lines, maps every whitespace
    character to ' ', cuts line comments, trims and drops blank lines
    (Program.cs lines 6-10 and 421-436). */
module Lexer {
  import opened Wrappers
  import opened Text

  /** What RemoveMultiLineComments leaves of the text, or None where the
      source throws: the last comment opening goes together with the first
      comment closing after it, replaced by one newline when the removed
      text held one, until no opening is left. A last opening with no
      closing after it makes the source slice with a negative length. */
  function Uncommented(code: string, newline: string): (r: Option<string>)
    ensures r.Some? ==> !Contains(r.value, "/*") && |r.value| <= |code|
    decreases |code|
  {
    var i := LastIndexOf(code, "/*");
    if i < 0 then Some(code)
    else
      var k := IndexOf(code[i + 2..], "*/");
      if k < 0 then None
      else
        var j := i + 2 + k;
        Uncommented(code[..i] + NewlineOf(code[i + 2..j], newline) + code[j + 2..], newline)
  }

  /** The newline left in place of a removed comment body. */
  function NewlineOf(body: string, newline: string): (r: string)
    ensures |r| <= |body|
    ensures r == newline || r == ""
  {
    if Contains(body, newline) then newline else ""
  }

  /** RemoveMultiLineComments: the loop of Program.cs lines 424-434. */
  method RemoveMultiLineComments(code: string, newline: string) returns (r: Option<string>)
    ensures r == Uncommented(code, newline)
  {
    var text := code;
    var i := LastIndexOf(text, "/*");
    while i >= 0
      invariant i == LastIndexOf(text, "/*")
      invariant Uncommented(text, newline) == Uncommented(code, newline)
      decreases |text|
    {
      var k := IndexOf(text[i + 2..], "*/");
      var j := i + 2 + k;
      UncommentedStep(text, newline, i, k, j);
      if k < 0 {
        return None;
      }
      var nline := "";
      if Contains(text[i + 2..j], newline) {
        nline := newline;
      }
      assert nline == NewlineOf(text[i + 2..j], newline);
      text := text[..i] + nline + text[j + 2..];
      i := LastIndexOf(text, "/*");
    }
    r := Some(text);
  }

  /** A text with no comment opening is kept whole; a last opening that is
      never closed is the error. */
  lemma UncommentedEnds(code: string, newline: string)
    ensures !Contains(code, "/*") ==> Uncommented(code, newline) == Some(code)
    ensures Contains(code, "/*") && !Contains(code[LastIndexOf(code, "/*") + 2..], "*/") ==>
      Uncommented(code, newline) == None
  {
  }

  /** One turn of the loop: an unclosed last comment is the error, a closed
      one is removed and the text gets shorter. */
  lemma UncommentedStep(text: string, newline: string, i: int, k: int, j: int)
    requires i == LastIndexOf(text, "/*") && i >= 0 && k == IndexOf(text[i + 2..], "*/") && j == i + 2 + k
    ensures k < 0 ==> Uncommented(text, newline) == None
    ensures k >= 0 ==> j + 2 <= |text|
    ensures k >= 0 ==> Uncommented(text, newline) == Uncommented(text[..i] + NewlineOf(text[i + 2..j], newline) + text[j + 2..], newline)
  {
  }

  /** One comment: the text before and after it is kept, with a newline in
      place of a comment that spanned lines. The comment is the last
      opening and its body holds no closing; what is left must hold no
      opening either, since a slash before the comment and a star after it
      would form a new one. */
  lemma UncommentedOne(a: string, b: string, c: string, newline: string)
    requires !Contains(b, "*/") && !Contains(b + "*/" + c, "/*")
    requires !Contains(a + NewlineOf(b, newline) + c, "/*")
    ensures Uncommented(a + "/*" + b + "*/" + c, newline) == Some(a + NewlineOf(b, newline) + c)
  {
    var tail := b + "*/" + c;
    var code := a + "/*" + tail;
    assert code == a + "/*" + b + "*/" + c;
    LastOpening(a, tail);
    var i := |a|;
    assert code[i + 2..] == tail;
    FirstClosing(b, c);
    var k := |b|;
    var j := i + 2 + k;
    UncommentedStep(code, newline, i, k, j);
    assert code[..i] == a && code[i + 2..j] == b && code[j + 2..] == c;
    UncommentedEnds(a + NewlineOf(b, newline) + c, newline);
  }

  /** The opening in front of a text without openings is the last one. */
  lemma LastOpening(a: string, tail: string)
    requires !Contains(tail, "/*")
    ensures LastIndexOf(a + "/*" + tail, "/*") == |a|
  {
    var code := a + "/*" + tail;
    assert code[|a|..|a| + 2] == "/*";
    assert MatchAt(code, "/*", |a|);
    assert code[|a| + 1] == '*';
    forall m | m > |a| && MatchAt(code, "/*", m) ensures false {
      if m > |a| + 1 {
        assert code[|a| + 2..|code|] == tail;
        MatchOfSlice(code, "/*", |a| + 2, |code|, m);
      }
    }
  }

  /** The closing after a body without closings is the first one. */
  lemma FirstClosing(b: string, c: string)
    requires !Contains(b, "*/")
    ensures IndexOf(b + "*/" + c, "*/") == |b|
  {
    var tail := b + "*/" + c;
    assert tail[|b|..|b| + 2] == "*/";
    assert MatchAt(tail, "*/", |b|);
    assert tail[|b|] == '*';
    forall m | 0 <= m < |b| && MatchAt(tail, "*/", m) ensures false {
      if m < |b| - 1 {
        assert tail[..|b|] == b;
        MatchOfSlice(tail, "*/", 0, |b|, m);
      }
    }
  }

  /** The line endings that string.ReplaceLineEndings recognises: CR, LF,
      FF, NEL, LS and PS (CR LF counts as one ending). */
  predicate IsLineBreak(c: char) {
    c == '\r' || c == '\n' || c == '\U{000C}' || c == '\U{0085}' || c == '\U{2028}' || c == '\U{2029}'
  }

  /** ReplaceLineEndings followed by Split(Environment.NewLine). */
  function SplitLines(text: string): (r: seq<string>)
    ensures |r| >= 1
    ensures forall l :: l in r ==> forall c :: c in l ==> !IsLineBreak(c)
    decreases |text|
  {
    if forall c :: c in text ==> !IsLineBreak(c) then [text]
    else
      var k := FirstBreak(text, 0);
      var skip := if text[k] == '\r' && k + 1 < |text| && text[k + 1] == '\n' then 2 else 1;
      [text[..k]] + SplitLines(text[k + skip..])
  }

  function FirstBreak(text: string, from: nat): (k: nat)
    requires from <= |text|
    requires exists c :: c in text[from..] && IsLineBreak(c)
    ensures from <= k < |text| && IsLineBreak(text[k])
    ensures forall c :: c in text[from..k] ==> !IsLineBreak(c)
    decreases |text| - from
  {
    if IsLineBreak(text[from]) then from
    else
      assert text[from..] == [text[from]] + text[from + 1..];
      var k := FirstBreak(text, from + 1);
      assert text[from..k] == [text[from]] + text[from + 1..k];
      k
  }

  /** string.ReplaceLineEndings(nl): every line ending, CR LF counted once,
      becomes nl. */
  function ReplaceLineEndings(text: string, nl: string): string
    decreases |text|
  {
    if text == [] then []
    else if text[0] == '\r' && |text| > 1 && text[1] == '\n' then nl + ReplaceLineEndings(text[2..], nl)
    else if IsLineBreak(text[0]) then nl + ReplaceLineEndings(text[1..], nl)
    else [text[0]] + ReplaceLineEndings(text[1..], nl)
  }

  /** string.Join(sep, lines). */
  function Join(lines: seq<string>, sep: string): string {
    if lines == [] then []
    else if |lines| == 1 then lines[0]
    else lines[0] + (sep + Join(lines[1..], sep))
  }

  /** The lines are the pieces of the text between its line endings:
      joined with any separator they give back the text with every ending
      replaced by that separator. */
  lemma {:induction false} SplitLinesJoin(text: string, nl: string)
    ensures Join(SplitLines(text), nl) == ReplaceLineEndings(text, nl)
    decreases |text|
  {
    if forall c :: c in text ==> !IsLineBreak(c) {
      ReplacePlain(text, [], nl);
      assert text + [] == text;
    } else {
      var k := FirstBreak(text, 0);
      var skip := if text[k] == '\r' && k + 1 < |text| && text[k + 1] == '\n' then 2 else 1;
      var rest := text[k + skip..];
      var head, tail := text[..k], SplitLines(rest);
      assert SplitLines(text) == [head] + tail;
      JoinCons(head, tail, nl);
      SplitLinesJoin(rest, nl);
      assert text == head + text[k..];
      ReplacePlain(head, text[k..], nl);
      ReplaceAtBreak(text[k..], nl, skip);
      assert text[k..][skip..] == rest;
      var r := ReplaceLineEndings(rest, nl);
      calc {
        Join(SplitLines(text), nl);
        head + (nl + r);
        head + ReplaceLineEndings(text[k..], nl);
        ReplaceLineEndings(text, nl);
      }
    }
  }

  lemma JoinCons(head: string, tail: seq<string>, sep: string)
    requires |tail| >= 1
    ensures Join([head] + tail, sep) == head + (sep + Join(tail, sep))
  {
    assert ([head] + tail)[1..] == tail;
  }

  /** At a line ending (CR LF taken together) the ending becomes nl. */
  lemma ReplaceAtBreak(t: string, nl: string, skip: nat)
    requires |t| > 0 && IsLineBreak(t[0])
    requires skip == if t[0] == '\r' && 1 < |t| && t[1] == '\n' then 2 else 1
    ensures ReplaceLineEndings(t, nl) == nl + ReplaceLineEndings(t[skip..], nl)
  {
  }

  /** Text without line endings passes through ReplaceLineEndings. */
  lemma {:induction false} ReplacePlain(p: string, rest: string, nl: string)
    requires forall c :: c in p ==> !IsLineBreak(c)
    ensures ReplaceLineEndings(p + rest, nl) == p + ReplaceLineEndings(rest, nl)
    decreases |p|
  {
    if p == [] {
      assert p + rest == rest;
    } else {
      var q := p + rest;
      assert p[0] in p;
      assert q[0] == p[0] && !IsLineBreak(q[0]);
      assert ReplaceLineEndings(q, nl) == [q[0]] + ReplaceLineEndings(q[1..], nl);
      assert q[1..] == p[1..] + rest;
      assert forall c :: c in p[1..] ==> c in p;
      ReplacePlain(p[1..], rest, nl);
      assert p == [p[0]] + p[1..];
    }
  }

  /** Every whitespace character becomes ' '. */
  function Normalize(line: string, isWhiteSpace: char -> bool): (r: string)
    ensures |r| == |line|
    ensures forall i :: 0 <= i < |r| ==> r[i] == (if isWhiteSpace(line[i]) then ' ' else line[i])
  {
    seq(|line|, i requires 0 <= i < |line| => if isWhiteSpace(line[i]) then ' ' else line[i])
  }

  /** line[..(line + "//").IndexOf("//")]: everything before the first
      "//". A line that ends in a single '/' loses it, since that slash
      and the appended "//" form the first match. */
  function CutLineComment(line: string): (r: string)
    ensures |r| <= |line| && r == line[..|r|]
    ensures !Contains(r, "//")
    ensures forall m :: 0 <= m < |r| ==> !MatchAt(line, "//", m)
    ensures |r| == |line| || MatchAt(line, "//", |r|) || (|r| == |line| - 1 && line[|r|] == '/')
    ensures EndsWith(line, "/") ==> |r| < |line|
  {
    var k := IndexOf(line + "//", "//");
    CutAt(line, k);
    line[..k]
  }

  /** The first "//" of line + "//" is where the cut falls. */
  lemma CutAt(line: string, k: int)
    requires k == IndexOf(line + "//", "//")
    ensures 0 <= k <= |line|
    ensures !Contains(line[..k], "//")
    ensures forall m :: 0 <= m < k ==> !MatchAt(line, "//", m)
    ensures k == |line| || MatchAt(line, "//", k) || (k == |line| - 1 && line[k] == '/')
    ensures EndsWith(line, "/") ==> k < |line|
  {
    var s := line + "//";
    assert MatchAt(s, "//", |line|);
    var r := line[..k];
    assert s[..k] == r;
    forall m | 0 <= m <= |r| && MatchAt(r, "//", m) ensures false {
      MatchInSlice(s, "//", 0, k, m);
    }
    forall m | 0 <= m < k && MatchAt(line, "//", m) ensures false {
      assert s[m..m + 2] == line[m..m + 2];
      assert MatchAt(s, "//", m);
    }
    if k < |line| - 1 {
      assert s[k..k + 2] == line[k..k + 2];
    } else if k == |line| - 1 {
      assert line[k] == s[k..k + 2][0];
    }
    if EndsWith(line, "/") {
      assert s[|line| - 1..|line| + 1] == "//";
      assert MatchAt(s, "//", |line| - 1);
    }
  }

  /** The trailing slash: "HLT /" is cut to "HLT ". */
  lemma TrailingSlashCut()
    ensures CutLineComment("HLT /") == "HLT "
  {
    var line := "HLT /";
    var r := CutLineComment(line);
    assert EndsWith(line, "/");
    forall m | 0 <= m < |line| ensures !MatchAt(line, "//", m) {
      if m < 4 {
        assert line[m] != '/';
        assert line[m] == line[m..m + 2][0];
      }
    }
    assert |r| == 4;
  }

  /** A line as the header loop receives it: non-empty, trimmed, free of
      "//", and with ' ' as its only whitespace. */
  predicate Clean(l: string, isWhiteSpace: char -> bool) {
    && l != [] && l[0] != ' ' && l[|l| - 1] != ' '
    && !Contains(l, "//")
    && Spaced(l, isWhiteSpace)
  }

  /** Whitespace is ' ' alone. */
  predicate Spaced(l: string, isWhiteSpace: char -> bool) {
    forall i :: 0 <= i < |l| && isWhiteSpace(l[i]) ==> l[i] == ' '
  }

  /** What the pipeline makes of one raw line. */
  function LogicalLine(raw: string, isWhiteSpace: char -> bool): (r: string)
    ensures r != [] ==> Clean(r, isWhiteSpace)
  {
    CutSpaced(raw, isWhiteSpace);
    TrimmedClean(CutLineComment(Normalize(raw, isWhiteSpace)), isWhiteSpace);
    Trim(CutLineComment(Normalize(raw, isWhiteSpace)))
  }

  lemma TrimmedClean(cut: string, isWhiteSpace: char -> bool)
    requires !Contains(cut, "//")
    ensures Trim(cut) != [] ==> Clean(Trim(cut), isWhiteSpace) || !Spaced(cut, isWhiteSpace)
  {
    if Spaced(cut, isWhiteSpace) {
      var r := Trim(cut);
      var a := LeadingSpaces(cut);
      TrimSlice(cut);
      CleanSlice(cut, a, a + |r|, isWhiteSpace);
    }
  }

  lemma CutSpaced(raw: string, isWhiteSpace: char -> bool)
    ensures Spaced(CutLineComment(Normalize(raw, isWhiteSpace)), isWhiteSpace)
  {
    var n := Normalize(raw, isWhiteSpace);
    var cut := CutLineComment(n);
    forall i | 0 <= i < |cut| && isWhiteSpace(cut[i]) ensures cut[i] == ' ' {
      assert cut[i] == n[i];
    }
  }

  /** A trimmed slice of a spaced, comment-free text is clean. */
  lemma CleanSlice(cut: string, a: nat, b: nat, isWhiteSpace: char -> bool)
    requires a <= b <= |cut| && !Contains(cut, "//") && Spaced(cut, isWhiteSpace)
    requires cut[a..b] == [] || (cut[a] != ' ' && cut[b - 1] != ' ')
    ensures cut[a..b] != [] ==> Clean(cut[a..b], isWhiteSpace)
  {
    var r := cut[a..b];
    NoMatchInSlice(cut, "//", a, b);
    forall i | 0 <= i < |r| && isWhiteSpace(r[i]) ensures r[i] == ' ' {
      assert r[i] == cut[a + i];
    }
  }

  lemma NoMatchInSlice(s: string, p: string, a: nat, b: nat)
    requires a <= b <= |s| && !Contains(s, p)
    ensures !Contains(s[a..b], p)
  {
    forall m | 0 <= m <= b - a && MatchAt(s[a..b], p, m) ensures false {
      MatchInSlice(s, p, a, b, m);
    }
  }

  /** The logical lines of a sequence of raw lines. */
  function LogicalLines(lines: seq<string>, isWhiteSpace: char -> bool): (r: seq<string>)
    ensures |r| <= |lines|
    ensures forall l :: l in r ==> Clean(l, isWhiteSpace)
  {
    if lines == [] then []
    else
      var l := LogicalLine(lines[0], isWhiteSpace);
      var rest := LogicalLines(lines[1..], isWhiteSpace);
      if l == [] then rest
      else
        assert forall x :: x in [l] + rest ==> x == l || x in rest;
        [l] + rest
  }

  /** The logical lines of two runs of raw lines are those of the first
      run followed by those of the second. */
  lemma {:induction false} LogicalLinesAppend(xs: seq<string>, ys: seq<string>, isWhiteSpace: char -> bool)
    ensures LogicalLines(xs + ys, isWhiteSpace) == LogicalLines(xs, isWhiteSpace) + LogicalLines(ys, isWhiteSpace)
  {
    if xs == [] {
      assert xs + ys == ys;
    } else {
      assert (xs + ys)[0] == xs[0] && (xs + ys)[1..] == xs[1..] + ys;
      LogicalLinesAppend(xs[1..], ys, isWhiteSpace);
    }
  }

  /** One raw line gives its logical line, or nothing when that is blank. */
  lemma LogicalLinesOne(x: string, isWhiteSpace: char -> bool)
    ensures LogicalLines([x], isWhiteSpace) ==
      if LogicalLine(x, isWhiteSpace) == [] then [] else [LogicalLine(x, isWhiteSpace)]
  {
    assert [x][1..] == [];
  }

  /** Every kept line is the logical line of some raw line, and every
      non-blank logical line is kept. */
  lemma LogicalLinesMembers(lines: seq<string>, isWhiteSpace: char -> bool)
    ensures forall l :: l in LogicalLines(lines, isWhiteSpace) ==>
      exists k :: 0 <= k < |lines| && l == LogicalLine(lines[k], isWhiteSpace)
    ensures forall k :: 0 <= k < |lines| && LogicalLine(lines[k], isWhiteSpace) != [] ==>
      LogicalLine(lines[k], isWhiteSpace) in LogicalLines(lines, isWhiteSpace)
  {
    LogicalLinesFrom(lines, isWhiteSpace);
    LogicalLinesKeep(lines, isWhiteSpace);
  }

  lemma {:induction false} LogicalLinesFrom(lines: seq<string>, isWhiteSpace: char -> bool)
    ensures forall l :: l in LogicalLines(lines, isWhiteSpace) ==>
      exists k :: 0 <= k < |lines| && l == LogicalLine(lines[k], isWhiteSpace)
  {
    if lines != [] {
      var rest := lines[1..];
      LogicalLinesFrom(rest, isWhiteSpace);
      var first := LogicalLine(lines[0], isWhiteSpace);
      var r := LogicalLines(lines, isWhiteSpace);
      assert r == if first == [] then LogicalLines(rest, isWhiteSpace) else [first] + LogicalLines(rest, isWhiteSpace);
      forall l | l in r ensures exists k :: 0 <= k < |lines| && l == LogicalLine(lines[k], isWhiteSpace) {
        if l in LogicalLines(rest, isWhiteSpace) {
          var k :| 0 <= k < |rest| && l == LogicalLine(rest[k], isWhiteSpace);
          assert rest[k] == lines[k + 1];
        } else {
          assert l == LogicalLine(lines[0], isWhiteSpace);
        }
      }
    }
  }

  lemma LogicalLinesKeep(lines: seq<string>, isWhiteSpace: char -> bool)
    ensures forall k :: 0 <= k < |lines| && LogicalLine(lines[k], isWhiteSpace) != [] ==>
      LogicalLine(lines[k], isWhiteSpace) in LogicalLines(lines, isWhiteSpace)
  {
    forall k | 0 <= k < |lines| && LogicalLine(lines[k], isWhiteSpace) != [] {
      KeptAt(lines, k, isWhiteSpace);
    }
  }

  /** The non-blank logical line of raw line k is kept. */
  lemma {:induction false} KeptAt(lines: seq<string>, k: nat, isWhiteSpace: char -> bool)
    requires k < |lines| && LogicalLine(lines[k], isWhiteSpace) != []
    ensures LogicalLine(lines[k], isWhiteSpace) in LogicalLines(lines, isWhiteSpace)
  {
    LogicalLinesHead(lines, isWhiteSpace);
    if k > 0 {
      assert lines[k] == lines[1..][k - 1];
      KeptAt(lines[1..], k - 1, isWhiteSpace);
    }
  }

  /** The first line is kept unless blank, and every kept later line
      stays kept. */
  lemma LogicalLinesHead(lines: seq<string>, isWhiteSpace: char -> bool)
    requires lines != []
    ensures LogicalLine(lines[0], isWhiteSpace) != [] ==>
      LogicalLine(lines[0], isWhiteSpace) in LogicalLines(lines, isWhiteSpace)
    ensures forall x :: x in LogicalLines(lines[1..], isWhiteSpace) ==> x in LogicalLines(lines, isWhiteSpace)
  {
    var first := LogicalLine(lines[0], isWhiteSpace);
    var tail := LogicalLines(lines[1..], isWhiteSpace);
    if first != [] {
      assert LogicalLines(lines, isWhiteSpace) == [first] + tail;
    }
  }

  /** The whole front end: comment removal, then the line pipeline. */
  method Lines(source: string, newline: string, isWhiteSpace: char -> bool) returns (r: Option<seq<string>>)
    ensures r.Some? ==> forall l :: l in r.value ==> Clean(l, isWhiteSpace)
    ensures r.None? <==> Uncommented(source, newline).None?
    ensures r.Some? ==> r.value == LogicalLines(SplitLines(Uncommented(source, newline).value), isWhiteSpace)
    ensures !Contains(source, "/*") ==> r == Some(LogicalLines(SplitLines(source), isWhiteSpace))
  {
    var code := RemoveMultiLineComments(source, newline);
    UncommentedEnds(source, newline);
    if code.None? {
      return None;
    }
    r := Some(LogicalLines(SplitLines(code.value), isWhiteSpace));
  }
}
