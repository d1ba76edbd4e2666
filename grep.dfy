/**
 * The engine of the `grep` utility: pattern text from the flags, line
 * selection (with -v), the count mode (-c), and the printing of matches with
 * their before/after context (-B, -A) so that overlapping windows never
 * print a line twice, with line numbers (-n) and highlighted matches.
 *
 * The regular-expression engine is a parameter: compiling pattern text gives
 * a Matcher (whether a line contains a match, and the line with every match
 * wrapped in ">>" and "<<") or an error message. The input is the list of
 * lines the scanner would deliver; the output is the list of lines written.
 */
module Grep {
  import opened Wrappers
  import Numbers

  datatype Config = Config(
    after: int,          // -A
    before: int,         // -B
    around: int,         // -C
    count: bool,         // -c
    ignoreCase: bool,    // -i
    invert: bool,        // -v
    fixed: bool,         // -F
    lineNum: bool,       // -n
    pattern: string,
    filename: string)

  datatype Matcher = Matcher(matches: string -> bool, highlight: string -> string)

  // ---------------------------------------------------------------- flags

  /**
   * The end of parseFlags: a positive -C replaces both -A and -B; the first
   * argument is the pattern and the second, when there is one, the file.
   */
  function FinishFlags(cfg: Config, args: seq<string>): (r: Result<Config, string>)
    ensures r.Failure? <==> args == []
    ensures r.Success? ==> r.value.pattern == args[0]
    ensures r.Success? ==> r.value.filename == if |args| > 1 then args[1] else cfg.filename
    ensures r.Success? ==> r.value.after == (if cfg.around > 0 then cfg.around else cfg.after)
    ensures r.Success? ==> r.value.before == (if cfg.around > 0 then cfg.around else cfg.before)
    ensures r.Success? ==> r.value.(after := cfg.after, before := cfg.before, pattern := cfg.pattern, filename := cfg.filename) == cfg
  {
    if |args| < 1 then Failure("not enough arguments")
    else
      var c := if cfg.around > 0 then cfg.(after := cfg.around, before := cfg.around) else cfg;
      Success(c.(pattern := args[0], filename := if |args| > 1 then args[1] else c.filename))
  }

  // -------------------------------------------------------------- pattern

  /** The runes regexp.QuoteMeta escapes. */
  predicate IsSpecial(c: char)
  {
    c == '\\' || c == '.' || c == '+' || c == '*' || c == '?' || c == '(' || c == ')'
    || c == '|' || c == '[' || c == ']' || c == '{' || c == '}' || c == '^' || c == '$'
  }

  /** regexp.QuoteMeta: a backslash before every special rune, so the text matches itself literally. */
  function QuoteMeta(s: string): (q: string)
    ensures |q| == |s| + CountSpecial(s)
  {
    if s == [] then [] else (if IsSpecial(s[0]) then ['\\', s[0]] else [s[0]]) + QuoteMeta(s[1..])
  }

  function CountSpecial(s: string): nat
  {
    if s == [] then 0 else (if IsSpecial(s[0]) then 1 else 0) + CountSpecial(s[1..])
  }

  /** How a regular expression reads an escaped literal: a backslash stands for the rune after it. */
  function Unescape(q: string): string
  {
    if q == [] then []
    else if q[0] == '\\' && |q| >= 2 then [q[1]] + Unescape(q[2..])
    else [q[0]] + Unescape(q[1..])
  }

  /** Quoting loses nothing: the escaped text reads back as the pattern. */
  lemma {:induction false} UnescapeQuoteMeta(s: string)
    ensures Unescape(QuoteMeta(s)) == s
  {
    if s != [] {
      UnescapeQuoteMeta(s[1..]);
      var rest := QuoteMeta(s[1..]);
      if IsSpecial(s[0]) {
        assert QuoteMeta(s) == ['\\', s[0]] + rest;
        assert (['\\', s[0]] + rest)[2..] == rest;
      } else {
        assert QuoteMeta(s) == [s[0]] + rest;
        assert ([s[0]] + rest)[1..] == rest;
      }
    }
  }

  /** A pattern without special runes is quoted as itself. */
  lemma {:induction false} QuoteMetaPlain(s: string)
    requires forall i :: 0 <= i < |s| ==> !IsSpecial(s[i])
    ensures QuoteMeta(s) == s
  {
    if s != [] {
      QuoteMetaPlain(s[1..]);
    }
  }

  /** The text grep compiles: -F quotes the pattern, -i puts "(?i)" in front. */
  function PatternText(cfg: Config): string
  {
    (if cfg.ignoreCase then "(?i)" else "") + (if cfg.fixed then QuoteMeta(cfg.pattern) else cfg.pattern)
  }

  // ------------------------------------------------------------ selection

  /** The indices of the selected lines, in order: a line is selected when whether it matches differs from -v. */
  function Selected(m: Matcher, invert: bool, lines: seq<string>): (suit: seq<int>)
    ensures forall i :: i in suit <==> 0 <= i < |lines| && m.matches(lines[i]) != invert
    ensures forall j, k :: 0 <= j < k < |suit| ==> suit[j] < suit[k]
    ensures forall j :: 0 <= j < |suit| ==> 0 <= suit[j] < |lines|
  {
    if lines == [] then []
    else
      var front := lines[..|lines| - 1];
      assert forall i :: 0 <= i < |front| ==> front[i] == lines[i];
      Selected(m, invert, front) + (if m.matches(lines[|lines| - 1]) != invert then [|lines| - 1] else [])
  }

  /** The selection loop of grep. */
  method SelectLines(m: Matcher, invert: bool, lines: seq<string>) returns (suit: seq<int>)
    ensures suit == Selected(m, invert, lines)
  {
    suit := [];
    var i := 0;
    while i < |lines|
      invariant 0 <= i <= |lines|
      invariant suit == Selected(m, invert, lines[..i])
    {
      assert lines[..i + 1][..i] == lines[..i];
      var matched := m.matches(lines[i]);
      if invert {
        matched := !matched;
      }
      if matched {
        suit := suit + [i];
      }
      i := i + 1;
    }
    assert lines[..|lines|] == lines;
  }

  // -------------------------------------------------------------- context

  /** First line of the window of the match at index m: B lines earlier, but not before the first line. */
  function Lo(before: int, m: int): int
  {
    if m - before > 0 then m - before else 0
  }

  /** Last line of the window: A lines later, but not past the last of the n lines. */
  function Hi(after: int, n: int, m: int): int
  {
    if n - 1 < m + after then n - 1 else m + after
  }

  predicate InWindow(before: int, after: int, n: int, m: int, i: int)
  {
    Lo(before, m) <= i <= Hi(after, n, m)
  }

  /** A line printed, and whether it is printed highlighted. */
  datatype Printed = Printed(line: int, highlighted: bool)

  /** The lines from..to, highlighting the one that is the match m. */
  function Segment(from: int, to: int, m: int): (r: seq<Printed>)
  {
    seq(if from <= to then to - from + 1 else 0, j => Printed(from + j, from + j == m))
  }

  /** The last line of the window of the last match handled; -1 before the first. */
  function LastEnd(after: int, n: int, suit: seq<int>): int
  {
    if suit == [] then -1 else Hi(after, n, suit[|suit| - 1])
  }

  /** Where printing starts for match m: the start of its window, or just after the last line printed when they overlap. */
  function Start(before: int, last: int, m: int): (start: int)
    ensures start > last && start >= Lo(before, m)
  {
    var start := Lo(before, m);
    if last >= 0 && start <= last then last + 1 else start
  }

  /** What the printing loop prints for the matches `suit`, match by match. */
  function Plan(before: int, after: int, n: int, suit: seq<int>): (r: seq<Printed>)
    ensures forall j :: 0 <= j < |r| ==> 0 <= r[j].line < n
  {
    if suit == [] then []
    else
      var front := suit[..|suit| - 1];
      var m := suit[|suit| - 1];
      Plan(before, after, n, front) + Segment(Start(before, LastEnd(after, n, front), m), Hi(after, n, m), m)
  }

  /** The plan for one more match extends the plan so far by the new part of its window. */
  lemma PlanSnoc(before: int, after: int, n: int, suit: seq<int>, k: int)
    requires 0 <= k < |suit|
    ensures LastEnd(after, n, suit[..k + 1]) == Hi(after, n, suit[k])
    ensures Plan(before, after, n, suit[..k + 1])
         == Plan(before, after, n, suit[..k]) + Segment(Start(before, LastEnd(after, n, suit[..k]), suit[k]), Hi(after, n, suit[k]), suit[k])
  {
    assert suit[..k + 1][..k] == suit[..k];
  }

  predicate LinesIncrease(p: seq<Printed>)
  {
    forall j, k :: 0 <= j < k < |p| ==> p[j].line < p[k].line
  }

  predicate Increasing(suit: seq<int>)
  {
    forall j, k :: 0 <= j < k < |suit| ==> suit[j] < suit[k]
  }

  /** Line i lies in the window of some match. */
  predicate Covered(before: int, after: int, n: int, suit: seq<int>, i: int)
  {
    exists k :: 0 <= k < |suit| && InWindow(before, after, n, suit[k], i)
  }

  /** Line i is a match that no earlier match's window reaches. */
  predicate FirstShown(before: int, after: int, n: int, suit: seq<int>, i: int)
  {
    i in suit && forall k :: 0 <= k < |suit| && suit[k] < i ==> !InWindow(before, after, n, suit[k], i)
  }

  predicate IsPrinted(plan: seq<Printed>, i: int)
  {
    exists j :: 0 <= j < |plan| && plan[j].line == i
  }

  /** Windows move forward with the match: both ends grow with it. */
  lemma WindowsMonotone(before: int, after: int, n: int, m1: int, m2: int)
    requires m1 <= m2
    ensures Lo(before, m1) <= Lo(before, m2) && Hi(after, n, m1) <= Hi(after, n, m2)
  {
  }

  lemma PrintedConcat(a: seq<Printed>, b: seq<Printed>, i: int)
    ensures IsPrinted(a + b, i) <==> IsPrinted(a, i) || IsPrinted(b, i)
  {
    if IsPrinted(a + b, i) {
      var j :| 0 <= j < |a + b| && (a + b)[j].line == i;
      if j < |a| {
        assert a[j] == (a + b)[j];
      } else {
        assert b[j - |a|] == (a + b)[j];
      }
    }
    if IsPrinted(a, i) {
      var j :| 0 <= j < |a| && a[j].line == i;
      assert (a + b)[j] == a[j];
    }
    if IsPrinted(b, i) {
      var j :| 0 <= j < |b| && b[j].line == i;
      assert (a + b)[|a| + j] == b[j];
    }
  }

  lemma PrintedSegment(from: int, to: int, m: int, i: int)
    ensures IsPrinted(Segment(from, to, m), i) <==> from <= i <= to
  {
    if from <= i <= to {
      assert Segment(from, to, m)[i - from].line == i;
    }
  }

  /** Every line printed so far comes no later than the end of the last window. */
  lemma {:induction false} PlanBelowLast(before: int, after: int, n: int, suit: seq<int>)
    requires Increasing(suit)
    ensures forall j :: 0 <= j < |Plan(before, after, n, suit)| ==> Plan(before, after, n, suit)[j].line <= LastEnd(after, n, suit)
    decreases |suit|
  {
    if suit != [] {
      var front := suit[..|suit| - 1];
      PlanBelowLast(before, after, n, front);
      if front != [] {
        WindowsMonotone(before, after, n, front[|front| - 1], suit[|suit| - 1]);
      }
    }
  }

  /** Printed line numbers strictly increase, so no line is printed twice. */
  lemma {:induction false} PlanIncreasing(before: int, after: int, n: int, suit: seq<int>)
    requires Increasing(suit)
    ensures LinesIncrease(Plan(before, after, n, suit))
    decreases |suit|
  {
    if suit != [] {
      var front := suit[..|suit| - 1];
      var m := suit[|suit| - 1];
      PlanIncreasing(before, after, n, front);
      PlanBelowLast(before, after, n, front);
      var last := LastEnd(after, n, front);
      var base := Plan(before, after, n, front);
      var seg := Segment(Start(before, last, m), Hi(after, n, m), m);
      var p := base + seg;
      forall j, k | 0 <= j < k < |p|
        ensures p[j].line < p[k].line
      {
        if k < |base| {
          assert p[j] == base[j] && p[k] == base[k];
        } else if j >= |base| {
          assert p[j] == seg[j - |base|] && p[k] == seg[k - |base|];
        } else {
          assert p[j] == base[j] && p[k] == seg[k - |base|];
          assert base[j].line <= last < Start(before, last, m) <= seg[k - |base|].line;
        }
      }
    }
  }

  /** One more match: a line is covered when the earlier matches or the new one cover it. */
  lemma CoveredSnoc(before: int, after: int, n: int, suit: seq<int>, i: int)
    requires suit != []
    ensures Covered(before, after, n, suit, i)
      <==> Covered(before, after, n, suit[..|suit| - 1], i) || InWindow(before, after, n, suit[|suit| - 1], i)
  {
    var front := suit[..|suit| - 1];
    if Covered(before, after, n, front, i) {
      var k :| 0 <= k < |front| && InWindow(before, after, n, front[k], i);
      assert suit[k] == front[k];
    }
    if Covered(before, after, n, suit, i) {
      var k :| 0 <= k < |suit| && InWindow(before, after, n, suit[k], i);
      if k < |front| {
        assert front[k] == suit[k];
      }
    }
  }

  /** A line of the new match's window that is not past the last window is already covered. */
  lemma OverlapCovered(before: int, after: int, n: int, front: seq<int>, m: int, i: int)
    requires front != [] && front[|front| - 1] <= m
    requires InWindow(before, after, n, m, i) && i <= LastEnd(after, n, front)
    ensures Covered(before, after, n, front, i)
  {
    WindowsMonotone(before, after, n, front[|front| - 1], m);
    assert InWindow(before, after, n, front[|front| - 1], i);
  }

  /** The lines printed are exactly the lines inside some match's window. */
  lemma {:induction false} PlanCovers(before: int, after: int, n: int, suit: seq<int>, i: int)
    requires Increasing(suit)
    ensures IsPrinted(Plan(before, after, n, suit), i) <==> Covered(before, after, n, suit, i)
    decreases |suit|
  {
    if suit != [] {
      var front := suit[..|suit| - 1];
      var m := suit[|suit| - 1];
      var last := LastEnd(after, n, front);
      var start := Start(before, last, m);
      PlanCovers(before, after, n, front, i);
      CoveredSnoc(before, after, n, suit, i);
      PrintedConcat(Plan(before, after, n, front), Segment(start, Hi(after, n, m), m), i);
      PrintedSegment(start, Hi(after, n, m), m, i);
      if InWindow(before, after, n, m, i) && front != [] && i <= last {
        OverlapCovered(before, after, n, front, m, i);
      }
    }
  }

  /** Line numbers past the end of the last window are in no window so far. */
  lemma PastLastUncovered(before: int, after: int, n: int, front: seq<int>, i: int)
    requires Increasing(front) && i > LastEnd(after, n, front)
    ensures !Covered(before, after, n, front, i)
  {
    if Covered(before, after, n, front, i) {
      var k :| 0 <= k < |front| && InWindow(before, after, n, front[k], i);
      WindowsMonotone(before, after, n, front[k], front[|front| - 1]);
    }
  }

  /** Adding a later match does not change which earlier lines are shown first. */
  lemma FirstShownSnoc(before: int, after: int, n: int, suit: seq<int>, i: int)
    requires Increasing(suit) && suit != [] && i != suit[|suit| - 1]
    ensures FirstShown(before, after, n, suit, i) <==> FirstShown(before, after, n, suit[..|suit| - 1], i)
  {
    var front := suit[..|suit| - 1];
    assert suit == front + [suit[|suit| - 1]];
    if i in suit {
      var k :| 0 <= k < |suit| && suit[k] == i;
      assert i < suit[|suit| - 1];
    }
  }

  /** A line past the last window is shown first exactly when it is the new match (with -A not negative). */
  lemma SegmentFirstShown(before: int, after: int, n: int, suit: seq<int>, i: int)
    requires Increasing(suit) && suit != [] && after >= 0
    requires LastEnd(after, n, suit[..|suit| - 1]) < i < n
    ensures FirstShown(before, after, n, suit, i) <==> i == suit[|suit| - 1]
  {
    var front := suit[..|suit| - 1];
    var m := suit[|suit| - 1];
    assert suit == front + [m];
    PastLastUncovered(before, after, n, front, i);
    if i == m {
      forall k | 0 <= k < |suit| && suit[k] < i
        ensures !InWindow(before, after, n, suit[k], i)
      {
        assert front[k] == suit[k];
      }
    }
  }

  /**
   * With -A not negative, a printed line is highlighted exactly when it is a
   * selected line that no earlier selected line's window reaches: a match
   * already printed as context is not printed again, so never highlighted.
   */
  lemma {:induction false} PlanHighlights(before: int, after: int, n: int, suit: seq<int>, j: int)
    requires Increasing(suit) && after >= 0
    requires 0 <= j < |Plan(before, after, n, suit)|
    ensures Plan(before, after, n, suit)[j].highlighted <==> FirstShown(before, after, n, suit, Plan(before, after, n, suit)[j].line)
    decreases |suit|
  {
    var front := suit[..|suit| - 1];
    var m := suit[|suit| - 1];
    var last := LastEnd(after, n, front);
    var base := Plan(before, after, n, front);
    var seg := Segment(Start(before, last, m), Hi(after, n, m), m);
    var x := (base + seg)[j];
    if j < |base| {
      assert x == base[j];
      PlanHighlights(before, after, n, front, j);
      if x.line == m {
        PlanCovers(before, after, n, front, m);
        assert IsPrinted(base, m);
        var k :| 0 <= k < |front| && InWindow(before, after, n, front[k], m);
        assert suit[k] == front[k];
      } else {
        FirstShownSnoc(before, after, n, suit, x.line);
      }
    } else {
      assert x == seg[j - |base|];
      SegmentFirstShown(before, after, n, suit, x.line);
    }
  }

  // --------------------------------------------------------------- output

  /** With -n, the line number in decimal and a colon; otherwise nothing. */
  function NumberPrefix(lineNum: bool, number: nat): string
  {
    if lineNum then Numbers.NatToString(number) + ":" else ""
  }

  /** One output line: "N:" in front with -n (N the 1-based line number), the line highlighted when it is the match. */
  function RenderLine(lineNum: bool, lines: seq<string>, m: Matcher, x: Printed): string
    requires 0 <= x.line < |lines|
  {
    NumberPrefix(lineNum, x.line + 1) + (if x.highlighted then m.highlight(lines[x.line]) else lines[x.line])
  }

  predicate InRange(plan: seq<Printed>, n: int)
  {
    forall j :: 0 <= j < |plan| ==> 0 <= plan[j].line < n
  }

  lemma SegmentInRange(from: int, to: int, m: int, n: int)
    requires 0 <= from && to < n
    ensures InRange(Segment(from, to, m), n)
  {
  }

  function Render(lineNum: bool, lines: seq<string>, m: Matcher, plan: seq<Printed>): (out: seq<string>)
    requires InRange(plan, |lines|)
  {
    seq(|plan|, j requires 0 <= j < |plan| => RenderLine(lineNum, lines, m, plan[j]))
  }

  lemma RenderConcat(lineNum: bool, lines: seq<string>, m: Matcher, a: seq<Printed>, b: seq<Printed>)
    requires InRange(a, |lines|) && InRange(b, |lines|)
    ensures InRange(a + b, |lines|)
    ensures Render(lineNum, lines, m, a + b) == Render(lineNum, lines, m, a) + Render(lineNum, lines, m, b)
  {
    assert forall j :: 0 <= j < |a + b| ==> (a + b)[j] == if j < |a| then a[j] else b[j - |a|];
  }

  /** Printing line i of a window that starts at `start` appends its rendering. */
  lemma RenderStep(lineNum: bool, lines: seq<string>, m: Matcher, hit: int, start: int, i: int)
    requires 0 <= start <= i < |lines|
    ensures InRange(Segment(start, i - 1, hit), |lines|) && InRange(Segment(start, i, hit), |lines|)
    ensures Render(lineNum, lines, m, Segment(start, i, hit))
         == Render(lineNum, lines, m, Segment(start, i - 1, hit))
            + [NumberPrefix(lineNum, i + 1) + (if i == hit then m.highlight(lines[i]) else lines[i])]
  {
    SegmentInRange(start, i, hit, |lines|);
    assert Segment(start, i, hit) == Segment(start, i - 1, hit) + [Printed(i, i == hit)];
    RenderConcat(lineNum, lines, m, Segment(start, i - 1, hit), [Printed(i, i == hit)]);
  }

  /** What grep writes for the lines, or the error it returns before writing anything. */
  function GrepOutput(cfg: Config, lines: seq<string>, compile: string -> Result<Matcher, string>): Result<seq<string>, string>
  {
    match compile(PatternText(cfg))
    case Failure(e) => Failure("invalid pattern: " + e)
    case Success(m) =>
      var suit := Selected(m, cfg.invert, lines);
      if cfg.count then Success([Numbers.NatToString(|suit|)])
      else Success(Render(cfg.lineNum, lines, m, Plan(cfg.before, cfg.after, |lines|, suit)))
  }

  /** Prints the lines start..end of one window that are not printed yet, highlighting the match. */
  method PrintWindow(lineNum: bool, lines: seq<string>, m: Matcher, hit: int, start: int, end: int, printedBefore: set<int>)
    returns (checkPrint: set<int>, output: seq<string>)
    requires 0 <= start && end < |lines|
    requires forall x :: x in printedBefore ==> x < start
    ensures InRange(Segment(start, end, hit), |lines|)
    ensures output == Render(lineNum, lines, m, Segment(start, end, hit))
    ensures forall x :: x in checkPrint ==> x in printedBefore || start <= x <= end
  {
    checkPrint := printedBefore;
    output := [];
    var i := start;
    while i <= end
      invariant start <= i <= (if start <= end then end + 1 else start)
      invariant InRange(Segment(start, i - 1, hit), |lines|)
      invariant forall x :: x in checkPrint ==> x < i
      invariant forall x :: x in checkPrint ==> x in printedBefore || start <= x <= end
      invariant output == Render(lineNum, lines, m, Segment(start, i - 1, hit))
    {
      assert i !in checkPrint;
      if i !in checkPrint {
        checkPrint := checkPrint + {i};
        var prefix := NumberPrefix(lineNum, i + 1);
        var line := lines[i];
        if i == hit {
          line := m.highlight(line);
        }
        RenderStep(lineNum, lines, m, hit, start, i);
        output := output + [prefix + line];
      }
      i := i + 1;
    }
  }

  /**
   * The printing loop of grep: for each match in turn, the part of its window
   * after the last line printed, skipping lines already printed.
   */
  method PrintMatches(cfg: Config, lines: seq<string>, m: Matcher, suit: seq<int>) returns (output: seq<string>)
    requires Increasing(suit)
    ensures output == Render(cfg.lineNum, lines, m, Plan(cfg.before, cfg.after, |lines|, suit))
  {
    var n := |lines|;
    var checkPrint: set<int> := {};
    var last := -1;
    output := [];
    var k := 0;
    while k < |suit|
      invariant 0 <= k <= |suit|
      invariant last == LastEnd(cfg.after, n, suit[..k])
      invariant forall x :: x in checkPrint ==> x <= last
      invariant k == 0 ==> checkPrint == {}
      invariant output == Render(cfg.lineNum, lines, m, Plan(cfg.before, cfg.after, n, suit[..k]))
    {
      var hit := suit[k];
      var start := if hit - cfg.before > 0 then hit - cfg.before else 0;
      var end := if n - 1 < hit + cfg.after then n - 1 else hit + cfg.after;
      if last >= 0 && start <= last {
        start := last + 1;
      }
      assert start == Start(cfg.before, last, hit) && end == Hi(cfg.after, n, hit);
      PlanSnoc(cfg.before, cfg.after, n, suit, k);
      if k > 0 {
        assert last == Hi(cfg.after, n, suit[k - 1]);
        WindowsMonotone(cfg.before, cfg.after, n, suit[k - 1], hit);
      }
      var printed;
      checkPrint, printed := PrintWindow(cfg.lineNum, lines, m, hit, start, end, checkPrint);
      RenderConcat(cfg.lineNum, lines, m, Plan(cfg.before, cfg.after, n, suit[..k]), Segment(start, end, hit));
      output := output + printed;
      last := end;
      k := k + 1;
    }
    assert suit[..|suit|] == suit;
  }

  /** grep: compile the pattern text or fail, select, then either count or print. */
  method Grep(cfg: Config, lines: seq<string>, compile: string -> Result<Matcher, string>) returns (r: Result<seq<string>, string>)
    ensures r == GrepOutput(cfg, lines, compile)
  {
    var compiled := compile(PatternText(cfg));
    if compiled.Failure? {
      return Failure("invalid pattern: " + compiled.error);
    }
    var pattern := compiled.value;
    var suit := SelectLines(pattern, cfg.invert, lines);
    if cfg.count {
      return Success([Numbers.NatToString(|suit|)]);
    }
    var output := PrintMatches(cfg, lines, pattern, suit);
    return Success(output);
  }

  // ------------------------------------------------------------ properties

  /** An invalid pattern is reported and nothing is written. */
  lemma InvalidPatternWritesNothing(cfg: Config, lines: seq<string>, compile: string -> Result<Matcher, string>)
    ensures GrepOutput(cfg, lines, compile).Failure? <==> compile(PatternText(cfg)).Failure?
  {
  }

  /** With -c the only output is the number of selected lines. */
  lemma CountModeCounts(cfg: Config, lines: seq<string>, compile: string -> Result<Matcher, string>)
    requires cfg.count && compile(PatternText(cfg)).Success?
    ensures var m := compile(PatternText(cfg)).value;
      GrepOutput(cfg, lines, compile) == Success([Numbers.NatToString(|Selected(m, cfg.invert, lines)|)])
      && forall i :: i in Selected(m, cfg.invert, lines) <==> 0 <= i < |lines| && m.matches(lines[i]) != cfg.invert
  {
  }

  /** grep itself never reads -C: only the flag parsing turns it into -A and -B. */
  lemma GrepIgnoresAround(cfg: Config, around: int, lines: seq<string>, compile: string -> Result<Matcher, string>)
    ensures GrepOutput(cfg.(around := around), lines, compile) == GrepOutput(cfg, lines, compile)
  {
    assert PatternText(cfg.(around := around)) == PatternText(cfg);
  }

  /**
   * Printed output, in the terms of the selection: the j-th output line is the
   * j-th printed line, prefixed by its 1-based number and ':' under -n; the
   * printed lines strictly increase and are exactly the lines inside some
   * selected line's window.
   */
  lemma PrintedOutput(cfg: Config, lines: seq<string>, compile: string -> Result<Matcher, string>, i: int)
    requires !cfg.count && compile(PatternText(cfg)).Success?
    ensures var m := compile(PatternText(cfg)).value;
      var suit := Selected(m, cfg.invert, lines);
      var plan := Plan(cfg.before, cfg.after, |lines|, suit);
      var out := GrepOutput(cfg, lines, compile).value;
      |out| == |plan|
      && LinesIncrease(plan)
      && (IsPrinted(plan, i) <==> Covered(cfg.before, cfg.after, |lines|, suit, i))
      && (forall j :: 0 <= j < |plan| ==>
            out[j] == NumberPrefix(cfg.lineNum, plan[j].line + 1) + (if plan[j].highlighted then m.highlight(lines[plan[j].line]) else lines[plan[j].line]))
  {
    var m := compile(PatternText(cfg)).value;
    var suit := Selected(m, cfg.invert, lines);
    PlanIncreasing(cfg.before, cfg.after, |lines|, suit);
    PlanCovers(cfg.before, cfg.after, |lines|, suit, i);
  }
}
