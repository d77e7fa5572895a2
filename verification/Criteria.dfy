/** The acceptance criteria of an issue: the task markers in column zero of its Acceptance
    section, and the problems that make the section unusable. */
module Criteria {
  import opened Outcomes
  import opened Markdown
  import opened Spacing

  datatype CriteriaProblem = Nested(after: nat) | NoMarker | NoText(index: nat)

  // ---- lines ----

  /** `str.expandtabs(4)` from this column on. */
  function ExpandTabs(line: string, column: nat): (r: string) {
    if line == [] then []
    else if line[0] == '\t' then
      var n := 4 - column % 4;
      seq(n, _ => ' ') + ExpandTabs(line[1..], column + n)
    else [line[0]] + ExpandTabs(line[1..], column + 1)
  }

  function DigitRun(s: string): (n: nat)
    ensures n <= |s|
  {
    if s != [] && '0' <= s[0] <= '9' then 1 + DigitRun(s[1..]) else 0
  }

  /** What follows a list bullet: `(?:[-*+]|\d+[.)])` */
  function AfterBullet(s: string): (r: Option<string>) {
    var digits := DigitRun(s);
    if s != [] && s[0] in {'-', '*', '+'} then Some(s[1..])
    else if 0 < digits < |s| && s[digits] in {'.', ')'} then Some(s[digits + 1..])
    else None
  }

  /** What follows the box of a task marker at the start of a line: bullet, space, `[x]`. */
  function AfterBox(s: string): (r: Option<string>) {
    var rest := AfterBullet(s);
    if rest.None? || rest.value == [] || !IsSpace(rest.value[0]) then None
    else
      var box := TrimLeft(rest.value);
      if |box| >= 3 && box[0] == '[' && box[1] in {' ', 'x', 'X'} && box[2] == ']' && (|box| == 3 || IsSpace(box[3]))
      then Some(box[3..]) else None
  }

  /** A criterion's text, stripped. */
  function CriterionText(line: string): (r: Option<string>) {
    var rest := AfterBox(line);
    if rest.None? then None else Some(Strip(rest.value))
  }

  predicate AllDigits(s: string) {
    forall i :: 0 <= i < |s| ==> '0' <= s[i] <= '9'
  }

  predicate Bullet(s: string) {
    s in {"-", "*", "+"} || (|s| >= 2 && AllDigits(s[..|s| - 1]) && s[|s| - 1] in {'.', ')'})
  }

  /** A line that starts with a bullet, space, and a box, with nothing or space and more behind it. */
  ghost predicate TaskLine(line: string, after: string) {
    (after == [] || IsSpace(after[0]))
    && exists bullet, gap, mark ::
         Bullet(bullet) && gap != [] && Spaces(gap) && mark in {' ', 'x', 'X'} && line == bullet + gap + ['[', mark, ']'] + after
  }

  lemma {:induction false} DigitRunSkips(a: string, s: string)
    requires AllDigits(a) && (s == [] || !('0' <= s[0] <= '9'))
    ensures DigitRun(a + s) == |a|
  {
    if a == [] {
      assert a + s == s;
    } else {
      assert (a + s)[1..] == a[1..] + s;
      DigitRunSkips(a[1..], s);
    }
  }

  lemma {:induction false} DigitRunIs(s: string)
    ensures AllDigits(s[..DigitRun(s)])
  {
    var n := DigitRun(s);
    if n > 0 {
      DigitRunIs(s[1..]);
      assert s[..n] == [s[0]] + s[1..][..n - 1];
    }
  }

  lemma BulletRead(s: string) returns (bullet: string)
    requires AfterBullet(s).Some?
    ensures Bullet(bullet) && s == bullet + AfterBullet(s).value
  {
    hide DigitRun;
    DigitRunIs(s);
    var n := |s| - |AfterBullet(s).value|;
    bullet := s[..n];
    if n == 1 {
      assert bullet == [s[0]];
    } else {
      assert bullet[..n - 1] == s[..n - 1];
    }
  }

  lemma BulletReads(bullet: string, rest: string)
    requires Bullet(bullet)
    ensures AfterBullet(bullet + rest) == Some(rest)
  {
    hide DigitRun;
    var s, n := bullet + rest, |bullet|;
    assert s[n..] == rest;
    if n >= 2 {
      var digits, last := bullet[..n - 1], [bullet[n - 1]] + rest;
      assert s == digits + last && s[0] == digits[0] && s[n - 1] == bullet[n - 1];
      DigitRunSkips(digits, last);
    }
  }

  /** The marker that the patterns match, and what stands behind it. */
  lemma TaskLineExactly(line: string, after: string)
    ensures AfterBox(line) == Some(after) <==> TaskLine(line, after)
  {
    hide AfterBullet, Bullet, IsSpace, TrimLeft;
    if AfterBox(line) == Some(after) {
      var rest := AfterBullet(line).value;
      var bullet := BulletRead(line);
      var gap := TrimLeftSplits(rest);
      var box := TrimLeft(rest);
      NotBracket();
      assert gap != [];
      assert box == ['[', box[1], ']'] + after;
      assert line == bullet + gap + ['[', box[1], ']'] + after;
    }
    if TaskLine(line, after) {
      var bullet, gap, mark :|
        Bullet(bullet) && gap != [] && Spaces(gap) && mark in {' ', 'x', 'X'} && line == bullet + gap + ['[', mark, ']'] + after;
      var box := ['[', mark, ']'] + after;
      assert line == bullet + (gap + box);
      BulletReads(bullet, gap + box);
      NotBracket();
      TrimLeftSkips(gap, box);
      assert box[3..] == after;
    }
  }

  lemma NotBracket()
    ensures !IsSpace('[')
  {
  }

  /** A line is a criterion exactly when a task marker stands in column zero, and its text is what
      follows, without space around it. */
  lemma CriterionExactly(line: string, text: string)
    ensures CriterionText(line) == Some(text) <==> exists after :: TaskLine(line, after) && Core(after, text)
  {
    hide AfterBox, TaskLine, Strip, Core;
    forall after ensures AfterBox(line) == Some(after) <==> TaskLine(line, after) { TaskLineExactly(line, after); }
    forall after ensures Strip(after) == text <==> Core(after, text) { StripExactly(after, text); }
    if CriterionText(line) == Some(text) { assert TaskLine(line, AfterBox(line).value); }
  }

  /** A line is a marker exactly when one follows its indentation. */
  lemma MarkerExactly(line: string)
    ensures AnyMarker(line) <==> exists indent, task, after :: Spaces(indent) && line == indent + task && TaskLine(task, after)
  {
    hide AfterBox, TaskLine, TrimLeft, IsSpace;
    forall task, after ensures AfterBox(task) == Some(after) <==> TaskLine(task, after) { TaskLineExactly(task, after); }
    if AnyMarker(line) {
      var indent := TrimLeftSplits(line);
      assert TaskLine(TrimLeft(line), AfterBox(TrimLeft(line)).value);
    }
    forall indent, task, after | Spaces(indent) && line == indent + task && TaskLine(task, after) ensures AnyMarker(line) {
      TaskStart(task, after);
      TrimLeftSkips(indent, task);
    }
  }

  lemma TaskStart(task: string, after: string)
    requires TaskLine(task, after)
    ensures task != [] && !IsSpace(task[0])
  {
    var bullet, gap, mark :|
      Bullet(bullet) && gap != [] && Spaces(gap) && mark in {' ', 'x', 'X'} && task == bullet + gap + ['[', mark, ']'] + after;
    assert task[0] == bullet[0];
    if |bullet| >= 2 { assert bullet[..|bullet| - 1][0] == bullet[0]; }
  }

  /** Text up to the first tab stays. */
  lemma {:induction false} TextStays(a: string, b: string, column: nat)
    requires '\t' !in a
    ensures ExpandTabs(a + b, column) == a + ExpandTabs(b, column + |a|)
  {
    if a == [] {
      assert a + b == b && a + ExpandTabs(b, column) == ExpandTabs(b, column);
    } else {
      TextStays(a[1..], b, column + 1);
      assert (a + b)[1..] == a[1..] + b && (a + b)[0] == a[0];
      assert a == [a[0]] + a[1..];
    }
  }

  /** And the tab becomes the blanks up to the next column of four. */
  lemma TabBecomesBlanks(b: string, column: nat) returns (blanks: string)
    ensures 1 <= |blanks| <= 4 && (column + |blanks|) % 4 == 0 && forall i :: 0 <= i < |blanks| ==> blanks[i] == ' '
    ensures ExpandTabs(['\t'] + b, column) == blanks + ExpandTabs(b, column + |blanks|)
  {
    blanks := seq(4 - column % 4, _ => ' ');
    var line := ['\t'] + b;
    assert line[1..] == b && line[0] == '\t';
  }

  /** A task marker at any indentation. */
  predicate AnyMarker(line: string) {
    AfterBox(TrimLeft(line)).Some?
  }

  lemma CriterionIsMarker(line: string)
    requires CriterionText(line).Some?
    ensures AnyMarker(line)
  {
    assert TrimLeft(line) == line;
  }

  // ---- the scan ----

  /** What the scan has found so far. */
  datatype Found = Found(criteria: seq<string>, problems: seq<CriteriaProblem>, continuing: bool)

  function Step(st: Found, line: string, visible: bool): Found {
    if !visible || Strip(line) == [] then st.(continuing := false)
    else if CriterionText(line).Some? then
      st.(criteria := st.criteria + [CriterionText(line).value], continuing := true)
    else if AnyMarker(line) then
      st.(problems := st.problems + [Nested(|st.criteria|)], continuing := false)
    else if st.continuing && st.criteria != [] && line[0] == ' ' then
      var n := |st.criteria| - 1;
      st.(criteria := st.criteria[n := Strip(st.criteria[n] + " " + Strip(line))])
    else st.(continuing := false)
  }

  function Scanned(lines: seq<string>, to: nat): (st: Found)
    requires to <= |lines|
    ensures st.continuing ==> st.criteria != []
  {
    if to == 0 then Found([], [], false)
    else Step(Scanned(lines, to - 1), ExpandTabs(lines[to - 1], 0), VisibleAt(lines, to - 1))
  }

  function TextProblems(criteria: seq<string>, to: nat): (r: seq<CriteriaProblem>)
    requires to <= |criteria|
    ensures r == [] <==> forall i :: 0 <= i < to ==> criteria[i] != []
  {
    if to == 0 then []
    else
      var before := TextProblems(criteria, to - 1);
      before + (if criteria[to - 1] == [] then [NoText(to)] else [])
  }

  function CriteriaOf(lines: seq<string>): (seq<string>, seq<CriteriaProblem>) {
    var st := Scanned(lines, |lines|);
    (st.criteria, st.problems + (if st.criteria == [] then [NoMarker] else []) + TextProblems(st.criteria, |st.criteria|))
  }

  /** `acceptance_criteria`, on the lines of the section. */
  method AcceptanceCriteria(lines: seq<string>) returns (criteria: seq<string>, problems: seq<CriteriaProblem>)
    ensures (criteria, problems) == CriteriaOf(lines)
  {
    hide VisibleAt, Strip, CriterionText, AnyMarker, ExpandTabs;
    var visible := MarkdownVisibility(lines);
    criteria, problems := [], [];
    var continuing := false;
    for index := 0 to |lines|
      invariant Found(criteria, problems, continuing) == Scanned(lines, index)
    {
      var expanded := ExpandTabs(lines[index], 0);
      if !visible[index] || Strip(expanded) == [] {
        continuing := false;
      } else if CriterionText(expanded).Some? {
        criteria := criteria + [CriterionText(expanded).value];
        continuing := true;
      } else if AnyMarker(expanded) {
        problems := problems + [Nested(|criteria|)];
        continuing := false;
      } else if continuing && StartsBlank(expanded) {
        var n := |criteria| - 1;
        criteria := criteria[n := Strip(criteria[n] + " " + Strip(expanded))];
      } else {
        continuing := false;
      }
      if expanded == [] { StripEmpty(); }
    }
    if criteria == [] {
      problems := problems + [NoMarker];
    }
    ghost var scanned := problems;
    for i := 0 to |criteria|
      invariant problems == scanned + TextProblems(criteria, i)
    {
      if criteria[i] == [] {
        problems := problems + [NoText(i + 1)];
      }
    }
  }

  predicate StartsBlank(s: string) {
    s != [] && s[0] == ' '
  }

  lemma StripEmpty()
    ensures Strip("") == ""
  {
  }

  // ---- no box is dropped unnoticed ----

  predicate MarkerAt(lines: seq<string>, k: nat)
    requires k < |lines|
  {
    VisibleAt(lines, k) && AnyMarker(ExpandTabs(lines[k], 0))
  }

  function Markers(lines: seq<string>, to: nat): nat
    requires to <= |lines|
  {
    if to == 0 then 0 else Markers(lines, to - 1) + (if MarkerAt(lines, to - 1) then 1 else 0)
  }

  lemma MarkerHasText(line: string)
    requires AnyMarker(line)
    ensures Strip(line) != []
  {
    var t := TrimLeft(line);
    assert t != [] && !IsSpace(t[0]);
    TrimRightKeepsStart(t);
  }

  lemma {:induction false} TrimRightKeepsStart(s: string)
    requires s != [] && !IsSpace(s[0])
    ensures TrimRight(s) != []
  {
    if |s| > 1 && IsSpace(s[|s| - 1]) { TrimRightKeepsStart(s[..|s| - 1]); }
  }

  lemma {:induction false} ScanCounts(lines: seq<string>, to: nat)
    requires to <= |lines|
    ensures var st := Scanned(lines, to); |st.criteria| + |st.problems| == Markers(lines, to)
  {
    hide VisibleAt, Strip, CriterionText, AnyMarker, ExpandTabs;
    if to > 0 {
      ScanCounts(lines, to - 1);
      var line := ExpandTabs(lines[to - 1], 0);
      if CriterionText(line).Some? { CriterionIsMarker(line); }
      if AnyMarker(line) { MarkerHasText(line); }
    }
  }

  /** A section without problems has one criterion, with text, for every visible task marker at
      whatever indentation; a section whose markers are not all in column zero has a problem. */
  lemma EveryMarkerIsACriterion(lines: seq<string>)
    ensures var (criteria, problems) := CriteriaOf(lines);
      problems == [] ==> |criteria| == Markers(lines, |lines|) >= 1 && forall i :: 0 <= i < |criteria| ==> criteria[i] != []
    ensures var (criteria, problems) := CriteriaOf(lines);
      |criteria| < Markers(lines, |lines|) ==> problems != []
  {
    hide Scanned, Markers;
    ScanCounts(lines, |lines|);
  }
}
