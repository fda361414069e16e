/** The lexical pass of `analyze_code`: the raw text is cut into lines and
    three textual checks are tried on every line, in order. */
module Lexical {
  import Decimal

  /** A line longer than this many characters is reported. */
  const MaxLineLength: nat := 80
  /** A line with more opening parentheses than this is reported. */
  const MaxOpenParens: nat := 3

  // ---------------------------------------------------------------------
  // Lines

  /** Index of the first line feed of `s`, or `|s|` when there is none. */
  function LineEnd(s: string): (k: nat)
    ensures k <= |s|
  {
    if s == [] || s[0] == '\n' then 0 else 1 + LineEnd(s[1..])
  }

  /** `LineEnd` stops at a line feed, and passes none before it. */
  lemma {:induction false} LineEndFacts(s: string)
    ensures LineEnd(s) < |s| ==> s[LineEnd(s)] == '\n'
    ensures NoLineFeed(s[..LineEnd(s)])
  {
    if s != [] && s[0] != '\n' {
      LineEndFacts(s[1..]);
      var k := LineEnd(s);
      assert s[..k] == [s[0]] + s[1..][..k - 1];
    }
  }

  /** Python's `str.splitlines()`, with the line feed as the only line
      boundary: the pieces between line feeds, where a final line feed
      does not start another (empty) line, and empty text has no lines. */
  function SplitLines(s: string): seq<string>
    decreases |s|, 1
  {
    if s == [] then [] else LinesAt(s, LineEnd(s))
  }

  /** The lines of `s` when its first line ends at `k`. */
  function LinesAt(s: string, k: nat): seq<string>
    requires k <= |s|
    decreases |s|, 0
  {
    if k == |s| then [s] else [s[..k]] + SplitLines(s[k + 1..])
  }

  predicate NoLineFeed(line: string)
  {
    forall i :: 0 <= i < |line| ==> line[i] != '\n'
  }

  /** Lines written back one after another, each ended by a line feed. */
  function JoinLines(lines: seq<string>): string
  {
    if lines == [] then [] else lines[0] + "\n" + JoinLines(lines[1..])
  }

  /** No line holds a line feed. */
  lemma {:induction false} SplitLinesHaveNoLineFeed(s: string)
    ensures forall i :: 0 <= i < |SplitLines(s)| ==> NoLineFeed(SplitLines(s)[i])
    decreases |s|
  {
    if s != [] {
      var k := LineEnd(s);
      LineEndFacts(s);
      if k < |s| {
        var rest := s[k + 1..];
        SplitLinesHaveNoLineFeed(rest);
        SplitLinesCons(s, k);
        forall i | 1 <= i < |SplitLines(s)|
          ensures NoLineFeed(SplitLines(s)[i])
        {
          assert SplitLines(s)[i] == SplitLines(rest)[i - 1];
        }
      } else {
        assert s[..k] == s;
      }
    }
  }

  /** Joining the lines gives the text back, with a final line feed added
      when the text did not end with one. */
  lemma {:induction false} JoinSplitLines(s: string)
    ensures JoinLines(SplitLines(s)) == if s == [] || s[|s| - 1] == '\n' then s else s + "\n"
    decreases |s|
  {
    if s != [] {
      var k := LineEnd(s);
      LineEndFacts(s);
      if k < |s| {
        var rest := s[k + 1..];
        JoinSplitLines(rest);
        SplitLinesCons(s, k);
        JoinLinesCons(s[..k], SplitLines(rest));
        SplitAt(s, k);
        LineFeedStep(s[..k], rest, JoinLines(SplitLines(rest)));
      } else {
        LastLine(s);
      }
    }
  }

  /** Text without a line feed is one line, written back with a line feed
      added. */
  lemma LastLine(s: string)
    requires s != [] && LineEnd(s) == |s|
    ensures s[|s| - 1] != '\n'
    ensures JoinLines(SplitLines(s)) == s + "\n"
  {
    LineEndFacts(s);
    assert s[..|s|] == s;
    JoinLinesCons(s, []);
  }

  /** One step of `JoinSplitLines`: if `j` is `rest` with a line feed
      added unless it already ends in one, the same holds of a line, a line
      feed and `rest` on one side and the line, a line feed and `j` on the
      other. */
  lemma LineFeedStep(line: string, rest: string, j: string)
    requires j == if rest == [] || rest[|rest| - 1] == '\n' then rest else rest + "\n"
    ensures var s := line + "\n" + rest;
      line + "\n" + j == if s[|s| - 1] == '\n' then s else s + "\n"
  {
    var s := line + "\n" + rest;
    if rest != [] {
      assert s[|s| - 1] == rest[|rest| - 1];
      assert s + "\n" == line + "\n" + (rest + "\n");
    }
  }

  lemma SplitAt(s: string, k: nat)
    requires k < |s| && s[k] == '\n'
    ensures s == s[..k] + "\n" + s[k + 1..]
  {
  }

  /** A text with a line feed at `k` splits into its first line and the
      lines of what follows the line feed. */
  lemma SplitLinesCons(s: string, k: nat)
    ensures k < |s| && k == LineEnd(s) ==> SplitLines(s) == [s[..k]] + SplitLines(s[k + 1..])
  {
  }

  lemma JoinLinesCons(line: string, lines: seq<string>)
    ensures JoinLines([line] + lines) == line + "\n" + JoinLines(lines)
  {
    assert ([line] + lines)[1..] == lines;
  }

  /** Splitting what `JoinLines` wrote gives the lines back. */
  lemma {:induction false} SplitJoinLines(lines: seq<string>)
    requires forall i :: 0 <= i < |lines| ==> NoLineFeed(lines[i])
    ensures SplitLines(JoinLines(lines)) == lines
  {
    if lines != [] {
      var s, rest := JoinLines(lines), JoinLines(lines[1..]);
      assert s == lines[0] + "\n" + rest;
      LineEndOf(lines[0], rest);
      assert s[|lines[0]| + 1..] == rest;
      assert s[..|lines[0]|] == lines[0];
      SplitJoinLines(lines[1..]);
    }
  }

  lemma {:induction false} LineEndOf(line: string, rest: string)
    requires NoLineFeed(line)
    ensures LineEnd(line + "\n" + rest) == |line|
  {
    if line != [] {
      assert (line + "\n" + rest)[1..] == line[1..] + "\n" + rest;
      LineEndOf(line[1..], rest);
    }
  }

  // ---------------------------------------------------------------------
  // The three checks

  predicate IsLongLine(line: string)
  {
    |line| > MaxLineLength
  }

  /** Number of `(` in the line: what `len(re.findall(r'\(', line))` counts. */
  function OpenParens(line: string): nat
  {
    if line == [] then 0 else (if line[0] == '(' then 1 else 0) + OpenParens(line[1..])
  }

  /** The count of opening parentheses is how often `(` occurs in the line. */
  lemma {:induction false} OpenParensOccurrences(line: string)
    ensures OpenParens(line) == multiset(line)['(']
  {
    if line != [] {
      OpenParensOccurrences(line[1..]);
      assert line == [line[0]] + line[1..];
      assert multiset(line) == multiset([line[0]]) + multiset(line[1..]);
    }
  }

  predicate IsComplexLine(line: string)
  {
    OpenParens(line) > MaxOpenParens
  }

  /** The characters the regular expression class `\s` matches in a Python
      3 string pattern: those for which `str.isspace()` holds. */
  const WhitespaceChars: set<char> := {
    '\t', '\n', '\U{0B}', '\U{0C}', '\r', '\U{1C}', '\U{1D}', '\U{1E}', '\U{1F}', ' ',
    '\U{85}', '\U{A0}', '\U{1680}',
    '\U{2000}', '\U{2001}', '\U{2002}', '\U{2003}', '\U{2004}', '\U{2005}',
    '\U{2006}', '\U{2007}', '\U{2008}', '\U{2009}', '\U{200A}',
    '\U{2028}', '\U{2029}', '\U{202F}', '\U{205F}', '\U{3000}'
  }

  predicate IsWhitespace(c: char)
  {
    c in WhitespaceChars
  }

  /** The class `[a-zA-Z]`. */
  predicate IsAsciiLetter(c: char)
  {
    'a' <= c <= 'z' || 'A' <= c <= 'Z'
  }

  /** Every character of `line` from index `lo` up to `hi` is whitespace. */
  predicate WhitespaceBetween(line: string, lo: nat, hi: nat)
    requires lo <= hi <= |line|
  {
    forall j :: lo <= j < hi ==> IsWhitespace(line[j])
  }

  /** What is left of `s` once its leading whitespace is skipped. */
  function SkipWhitespace(s: string): (r: string)
    ensures |r| <= |s|
  {
    if s != [] && IsWhitespace(s[0]) then SkipWhitespace(s[1..]) else s
  }

  /** What is left is a suffix of `s`; what is skipped is all whitespace,
      and what is left does not start with whitespace. */
  lemma {:induction false} SkipWhitespaceSkipsRun(s: string)
    ensures SkipWhitespace(s) == s[|s| - |SkipWhitespace(s)|..]
    ensures WhitespaceBetween(s, 0, |s| - |SkipWhitespace(s)|)
    ensures SkipWhitespace(s) == [] || !IsWhitespace(SkipWhitespace(s)[0])
  {
    if s != [] && IsWhitespace(s[0]) {
      var t := s[1..];
      var r := SkipWhitespace(t);
      SkipWhitespaceSkipsRun(t);
      assert SkipWhitespace(s) == r;
      assert r == s[|s| - |r|..];
      forall i | 0 <= i < |s| - |r|
        ensures IsWhitespace(s[i])
      {
        if i > 0 {
          assert s[i] == t[i - 1];
          assert WhitespaceBetween(t, 0, |t| - |r|);
        }
      }
    }
  }

  /** The line's first three characters are `def`. */
  predicate StartsWithDef(line: string)
  {
    |line| >= 3 && line[0] == 'd' && line[1] == 'e' && line[2] == 'f'
  }

  /** `re.match(r'^def\s+[a-zA-Z]\(', line)` succeeds: the line starts with
      `def`, then at least one whitespace character, then one letter, then
      an opening parenthesis. */
  predicate IsPoorlyNamedDef(line: string)
  {
    StartsWithDef(line) &&
    var rest := SkipWhitespace(line[3..]);
    |rest| < |line| - 3 && |rest| >= 2 && IsAsciiLetter(rest[0]) && rest[1] == '('
  }

  /** The same pattern read as a regular expression: some position `k`
      after `def` and a non-empty run of whitespace holds the letter, and
      `(` follows it. */
  ghost predicate MatchesDefPattern(line: string)
  {
    |line| >= 3 && line[..3] == "def" && exists k :: NameAt(line, k)
  }

  /** Position `k` holds a one-letter name: whitespace from just after
      `def` up to `k`, at least one character of it, the letter at `k` and
      `(` right after. */
  predicate NameAt(line: string, k: nat)
  {
    3 < k && k + 1 < |line| && WhitespaceBetween(line, 3, k)
    && IsAsciiLetter(line[k]) && line[k + 1] == '('
  }

  /** The character test for `def` is the prefix test. */
  lemma StartsWithDefPrefix(line: string)
    ensures StartsWithDef(line) <==> |line| >= 3 && line[..3] == "def"
  {
    if |line| >= 3 && line[..3] == "def" {
      assert line[0] == line[..3][0] && line[1] == line[..3][1] && line[2] == line[..3][2];
    }
  }

  /** The scan agrees with the regular expression, in both directions. */
  lemma PoorlyNamedDefMatchesPattern(line: string)
    ensures IsPoorlyNamedDef(line) <==> MatchesDefPattern(line)
  {
    StartsWithDefPrefix(line);
    if IsPoorlyNamedDef(line) {
      ScanMatchesPattern(line);
    }
    if MatchesDefPattern(line) {
      var k :| NameAt(line, k);
      PatternMatchesScan(line, k);
    }
  }

  lemma ScanMatchesPattern(line: string)
    requires IsPoorlyNamedDef(line)
    ensures exists k :: NameAt(line, k)
  {
    var s := line[3..];
    var rest := SkipWhitespace(s);
    SkipWhitespaceSkipsRun(s);
    var k := |line| - |rest|;
    assert rest == line[k..];
    forall j | 3 <= j < k
      ensures IsWhitespace(line[j])
    {
      assert line[j] == s[j - 3];
    }
    assert line[k] == rest[0] && line[k + 1] == rest[1];
    assert NameAt(line, k);
  }

  lemma PatternMatchesScan(line: string, k: nat)
    requires StartsWithDef(line) && NameAt(line, k)
    ensures IsPoorlyNamedDef(line)
  {
    var s := line[3..];
    var ws, r := s[..k - 3], s[k - 3..];
    assert s == ws + r;
    forall j | 0 <= j < |ws| ensures IsWhitespace(ws[j]) {
      assert ws[j] == line[j + 3];
    }
    assert r[0] == line[k] && r[1] == line[k + 1];
    SkipWhitespaceOf(ws, r);
  }

  /** Skipping a run of whitespace stops at the first character after it. */
  lemma {:induction false} SkipWhitespaceOf(ws: string, r: string)
    requires forall i :: 0 <= i < |ws| ==> IsWhitespace(ws[i])
    requires r == [] || !IsWhitespace(r[0])
    ensures SkipWhitespace(ws + r) == r
  {
    if ws == [] {
      assert ws + r == r;
    } else {
      assert (ws + r)[1..] == ws[1..] + r;
      SkipWhitespaceOf(ws[1..], r);
    }
  }

  /** An indented `def` is not reported: the pattern is anchored at the
      start of the line. */
  lemma IndentedDefNotReported(line: string)
    requires |line| > 0 && IsWhitespace(line[0])
    ensures !IsPoorlyNamedDef(line)
  {
  }

  /** A `def` with no whitespace before the name is not reported. */
  lemma DefWithoutSpaceNotReported(a: char, rest: string)
    requires IsAsciiLetter(a)
    ensures !IsPoorlyNamedDef("def" + [a, '('] + rest)
  {
    var line := "def" + [a, '('] + rest;
    assert line[3..] == [a, '('] + rest;
  }

  /** A name of two or more letters is not reported. */
  lemma LongerNameNotReported(ws: string, a: char, b: char, rest: string)
    requires forall i :: 0 <= i < |ws| ==> IsWhitespace(ws[i])
    requires IsAsciiLetter(a) && IsAsciiLetter(b)
    ensures !IsPoorlyNamedDef("def" + ws + [a, b] + rest)
  {
    var line := "def" + ws + [a, b] + rest;
    assert line[3..] == ws + ([a, b] + rest);
    SkipWhitespaceOf(ws, [a, b] + rest);
  }

  /** The shortest line that is reported: `def`, one space, one letter and
      `(`, whatever follows. */
  lemma OneLetterDefReported(a: char, rest: string)
    requires IsAsciiLetter(a)
    ensures IsPoorlyNamedDef("def " + [a, '('] + rest)
  {
    var line := "def " + [a, '('] + rest;
    assert line[3] == ' ' && line[4] == a && line[5] == '(';
    assert NameAt(line, 4);
    PatternMatchesScan(line, 4);
  }

  // ---------------------------------------------------------------------
  // Messages

  const LongLineText: string := "Line exceeds 80 characters."
  const ComplexLineText: string := "Overly complex expression detected."
  const PoorNameText: string := "Poorly named function detected."

  /** `f"Line {i}: {text}"`. */
  function LineMessage(i: nat, text: string): string
  {
    "Line " + Decimal.Format(i) + ": " + text
  }

  /** The line number a lexical message starts with. */
  function IssueLine(m: string): nat
  {
    if |m| >= 5 && m[..5] == "Line " then Decimal.Parse(Decimal.LeadingDigits(m[5..])) else 0
  }

  /** A message tells its line number back. */
  lemma IssueLineOf(i: nat, text: string)
    ensures IssueLine(LineMessage(i, text)) == i
  {
    var m, d := LineMessage(i, text), Decimal.Format(i);
    assert m[..5] == "Line ";
    assert m[5..] == d + (": " + text);
    Decimal.LeadingDigitsOf(d, ": " + text);
    Decimal.ParseFormat(i);
  }

  /** Two messages coincide only for the same line and the same text. */
  lemma LineMessageInjective(i: nat, s: string, j: nat, t: string)
    requires LineMessage(i, s) == LineMessage(j, t)
    ensures i == j && s == t
  {
    IssueLineOf(i, s);
    IssueLineOf(j, t);
    var p := "Line " + Decimal.Format(i) + ": ";
    assert LineMessage(i, s) == p + s && LineMessage(j, t) == p + t;
    assert s == (p + s)[|p|..];
    assert t == (p + t)[|p|..];
  }

  /** Whether the check that reports `text` fires on `line`. */
  predicate Fires(text: string, line: string)
  {
    (text == LongLineText && IsLongLine(line))
    || (text == ComplexLineText && IsComplexLine(line))
    || (text == PoorNameText && IsPoorlyNamedDef(line))
  }

  /** Each text is reported by its own check alone. */
  lemma FiresFor(line: string)
    ensures Fires(LongLineText, line) <==> IsLongLine(line)
    ensures Fires(ComplexLineText, line) <==> IsComplexLine(line)
    ensures Fires(PoorNameText, line) <==> IsPoorlyNamedDef(line)
  {
    assert LongLineText[0] == 'L' && ComplexLineText[0] == 'O' && PoorNameText[0] == 'P';
  }

  /** The entries for line `i`, in the order the checks are tried. */
  function LineIssues(i: nat, line: string): seq<string>
  {
    (if IsLongLine(line) then [LineMessage(i, LongLineText)] else [])
    + (if IsComplexLine(line) then [LineMessage(i, ComplexLineText)] else [])
    + (if IsPoorlyNamedDef(line) then [LineMessage(i, PoorNameText)] else [])
  }

  /** What `check` gives for each of `lines` in turn, the first of which is
      line `first`. */
  function Numbered(lines: seq<string>, first: nat, check: (nat, string) -> seq<string>): seq<string>
  {
    if lines == [] then [] else check(first, lines[0]) + Numbered(lines[1..], first + 1, check)
  }

  /** One more line adds what `check` gives for it, at the end. */
  lemma {:induction false} NumberedAppend(lines: seq<string>, line: string, first: nat,
                                          check: (nat, string) -> seq<string>)
    ensures Numbered(lines + [line], first, check)
            == Numbered(lines, first, check) + check(first + |lines|, line)
  {
    if lines == [] {
      assert lines + [line] == [line];
    } else {
      assert (lines + [line])[1..] == lines[1..] + [line];
      NumberedAppend(lines[1..], line, first + 1, check);
    }
  }

  /** The entries for `lines`, the first of which is line `first`. */
  function IssuesFrom(lines: seq<string>, first: nat): seq<string>
  {
    Numbered(lines, first, LineIssues)
  }

  // ---------------------------------------------------------------------
  // What the entries say

  /** A message names one line and one text. */
  lemma MessageIs(j: nat, text: string, i: nat, t: string)
    ensures LineMessage(j, text) == LineMessage(i, t) <==> j == i && text == t
  {
    if LineMessage(j, text) == LineMessage(i, t) {
      LineMessageInjective(j, text, i, t);
    }
  }

  /** Line `i` gets the entry "Line i: <text>" exactly when the check that
      reports `text` fires on it, and no entry for another line. */
  lemma LineIssuesExactly(i: nat, line: string, j: nat, text: string)
    ensures LineMessage(j, text) in LineIssues(i, line) <==> j == i && Fires(text, line)
  {
    MessageIs(j, text, i, LongLineText);
    MessageIs(j, text, i, ComplexLineText);
    MessageIs(j, text, i, PoorNameText);
    var m := LineMessage(j, text);
    var long := if IsLongLine(line) then [LineMessage(i, LongLineText)] else [];
    var complex := if IsComplexLine(line) then [LineMessage(i, ComplexLineText)] else [];
    var poor := if IsPoorlyNamedDef(line) then [LineMessage(i, PoorNameText)] else [];
    assert LineIssues(i, line) == long + complex + poor;
    assert m in long + complex + poor <==> m in long || m in complex || m in poor;
  }

  /** Line `i` gets at most three entries, and every one names line `i`. */
  lemma LineIssuesName(i: nat, line: string)
    ensures |LineIssues(i, line)| <= 3
    ensures forall k :: 0 <= k < |LineIssues(i, line)| ==> IssueLine(LineIssues(i, line)[k]) == i
  {
    IssueLineOf(i, LongLineText);
    IssueLineOf(i, ComplexLineText);
    IssueLineOf(i, PoorNameText);
  }

  /** When every entry `check` gives for line `i` names line `i`, the
      entries for `lines` name lines in the range covered, in ascending
      order. */
  lemma {:induction false} NumberedAscending(lines: seq<string>, first: nat, check: (nat, string) -> seq<string>)
    requires forall i: nat, line: string, k :: 0 <= k < |check(i, line)| ==> IssueLine(check(i, line)[k]) == i
    ensures forall k :: 0 <= k < |Numbered(lines, first, check)| ==>
              first <= IssueLine(Numbered(lines, first, check)[k]) < first + |lines|
    ensures forall j, k :: 0 <= j <= k < |Numbered(lines, first, check)| ==>
              IssueLine(Numbered(lines, first, check)[j]) <= IssueLine(Numbered(lines, first, check)[k])
  {
    if lines != [] {
      var head, tail := check(first, lines[0]), Numbered(lines[1..], first + 1, check);
      NumberedAscending(lines[1..], first + 1, check);
      var all := Numbered(lines, first, check);
      assert all == head + tail;
      forall k | 0 <= k < |all|
        ensures first <= IssueLine(all[k]) < first + |lines|
      {
        if k < |head| {
          assert all[k] == head[k];
        } else {
          assert all[k] == tail[k - |head|];
        }
      }
      forall j, k | 0 <= j <= k < |all|
        ensures IssueLine(all[j]) <= IssueLine(all[k])
      {
        if k < |head| {
          assert all[j] == head[j] && all[k] == head[k];
        } else if j < |head| {
          assert all[j] == head[j] && all[k] == tail[k - |head|];
        } else {
          assert all[j] == tail[j - |head|] && all[k] == tail[k - |head|];
        }
      }
    }
  }

  /** Entries name lines in the range covered, in ascending order. */
  lemma IssuesAscending(lines: seq<string>, first: nat)
    ensures forall k :: 0 <= k < |IssuesFrom(lines, first)| ==>
              first <= IssueLine(IssuesFrom(lines, first)[k]) < first + |lines|
    ensures forall j, k :: 0 <= j <= k < |IssuesFrom(lines, first)| ==>
              IssueLine(IssuesFrom(lines, first)[j]) <= IssueLine(IssuesFrom(lines, first)[k])
  {
    forall i: nat, line: string
      ensures forall k :: 0 <= k < |LineIssues(i, line)| ==> IssueLine(LineIssues(i, line)[k]) == i
    {
      LineIssuesName(i, line);
    }
    NumberedAscending(lines, first, LineIssues);
  }

  /** "Line i: <text>" is among the entries for `lines` (numbered from
      `first`) exactly when `i` is one of their numbers and the check that
      reports `text` fires on that line. */
  lemma {:induction false} IssueReported(lines: seq<string>, first: nat, i: nat, text: string)
    ensures LineMessage(i, text) in IssuesFrom(lines, first)
            <==> first <= i < first + |lines| && Fires(text, lines[i - first])
  {
    if lines != [] {
      LineIssuesExactly(first, lines[0], i, text);
      IssueReported(lines[1..], first + 1, i, text);
      assert IssuesFrom(lines, first) == LineIssues(first, lines[0]) + IssuesFrom(lines[1..], first + 1);
      if first + 1 <= i < first + |lines| {
        assert lines[1..][i - (first + 1)] == lines[i - first];
      }
    }
  }

  /** A line of 81 characters is reported as too long and one of 80 is
      not; a line with four `(` is reported as complex and one with three
      is not. */
  lemma LexicalThresholds(i: nat, line: string)
    ensures |line| == 81 ==> LineMessage(i, LongLineText) in LineIssues(i, line)
    ensures |line| == 80 ==> LineMessage(i, LongLineText) !in LineIssues(i, line)
    ensures OpenParens(line) == 4 ==> LineMessage(i, ComplexLineText) in LineIssues(i, line)
    ensures OpenParens(line) == 3 ==> LineMessage(i, ComplexLineText) !in LineIssues(i, line)
  {
    LineIssuesExactly(i, line, i, LongLineText);
    LineIssuesExactly(i, line, i, ComplexLineText);
    FiresFor(line);
  }

  /** At most three entries per line. */
  lemma {:induction false} IssuesBound(lines: seq<string>, first: nat)
    ensures |IssuesFrom(lines, first)| <= 3 * |lines|
  {
    if lines != [] {
      LineIssuesName(first, lines[0]);
      IssuesBound(lines[1..], first + 1);
    }
  }

  // ---------------------------------------------------------------------
  // The pass itself

  /** One round of the lexical loop of `analyze_code`: try the three checks
      on line `i`, appending what they report. */
  method CheckLine(i: nat, line: string, issues: seq<string>) returns (issues': seq<string>)
    ensures issues' == issues + LineIssues(i, line)
  {
    issues' := issues;
    if |line| > MaxLineLength {
      issues' := issues' + [LineMessage(i, LongLineText)];
    }
    if OpenParens(line) > MaxOpenParens {
      issues' := issues' + [LineMessage(i, ComplexLineText)];
    }
    if IsPoorlyNamedDef(line) {
      issues' := issues' + [LineMessage(i, PoorNameText)];
    }
  }

  /** The lexical half of `analyze_code`: number the lines from 1 and
      check each in turn. */
  method AnalyzeLines(code: string) returns (issues: seq<string>)
    ensures issues == IssuesFrom(SplitLines(code), 1)
  {
    var lines := SplitLines(code);
    issues := [];
    for i := 1 to |lines| + 1
      invariant issues == IssuesFrom(lines[..i - 1], 1)
    {
      var line := lines[i - 1];
      assert lines[..i] == lines[..i - 1] + [line];
      NumberedAppend(lines[..i - 1], line, 1, LineIssues);
      issues := CheckLine(i, line, issues);
    }
    assert lines[..|lines|] == lines;
  }
}
