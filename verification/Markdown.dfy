/** The line scanner behind the documentation gate: which lines count as visible, level-two
    headings, and pipe-table rows.  Text is a list of lines without line breaks. */
module Markdown {
  import opened Outcomes

  // ---- characters and strings ----

  /** `str.isspace` for one character, which is also `\s`. */
  predicate IsSpace(c: char) {
    var n := c as int;
    || 0x09 <= n <= 0x0d || 0x1c <= n <= 0x20 || n == 0x85 || n == 0xa0 || n == 0x1680
    || 0x2000 <= n <= 0x200a || n in {0x2028, 0x2029, 0x202f, 0x205f, 0x3000}
  }

  function TrimLeft(s: string): (r: string)
    ensures |r| <= |s|
    ensures r != [] ==> !IsSpace(r[0])
  {
    if s != [] && IsSpace(s[0]) then TrimLeft(s[1..]) else s
  }

  function TrimRight(s: string): (r: string)
    ensures |r| <= |s| && r == s[..|r|]
    ensures r != [] ==> !IsSpace(r[|r| - 1])
  {
    if s != [] && IsSpace(s[|s| - 1]) then TrimRight(s[..|s| - 1]) else s
  }

  /** `str.strip()` */
  function Strip(s: string): string {
    TrimRight(TrimLeft(s))
  }

  function TrimLeftOf(s: string, c: char): string {
    if s != [] && s[0] == c then TrimLeftOf(s[1..], c) else s
  }

  function TrimRightOf(s: string, c: char): string {
    if s != [] && s[|s| - 1] == c then TrimRightOf(s[..|s| - 1], c) else s
  }

  /** `str.split(c)` */
  function SplitOn(s: string, c: char): (parts: seq<string>)
    ensures |parts| >= 1
  {
    if s == [] then [[]]
    else
      var rest := SplitOn(s[1..], c);
      if s[0] == c then [[]] + rest else [[s[0]] + rest[0]] + rest[1..]
  }

  /** The first index at which `p` occurs, or the length when there is none. */
  function FindText(s: string, p: string): (at: nat)
    ensures at <= |s|
    ensures at < |s| ==> p <= s[at..]
    decreases |s|
  {
    if s == [] || p <= s then 0 else 1 + FindText(s[1..], p)
  }

  predicate ContainsText(s: string, p: string)
    requires p != []
  {
    FindText(s, p) < |s|
  }

  const OPEN_COMMENT := "<!--"
  const CLOSE_COMMENT := "-->"

  // ---- fences ----

  function Run(s: string, c: char): (n: nat)
    ensures n <= |s| && (n < |s| ==> s[n] != c)
    ensures forall i :: 0 <= i < n ==> s[i] == c
  {
    if s != [] && s[0] == c then 1 + Run(s[1..], c) else 0
  }

  /** A line's fence run and what follows it: `^ {0,3}(`{3,}|~{3,})(.*)$` */
  function FenceRun(line: string): (r: Option<(string, string)>)
    ensures r.Some? ==> |r.value.0| >= 3
  {
    var indent := Run(line, ' ');
    if indent > 3 then None
    else
      var rest := line[indent..];
      var ticks, tildes := Run(rest, '`'), Run(rest, '~');
      if ticks >= 3 then Some((rest[..ticks], rest[ticks..]))
      else if tildes >= 3 then Some((rest[..tildes], rest[tildes..]))
      else None
  }

  /** `_opening_fence` */
  function OpeningFence(line: string): (r: Option<string>)
    ensures r.Some? ==> |r.value| >= 3
  {
    var run := FenceRun(line);
    if run.None? || (run.value.0[0] == '`' && '`' in run.value.1) then None else Some(run.value.0)
  }

  // ---- the scanner ----

  /** Between lines the scanner is in plain text, in a fenced block, or in a comment. */
  datatype Scan = Plain | Fenced(fence: string) | Comment

  predicate ScanOk(st: Scan) {
    st.Fenced? ==> st.fence != []
  }

  /** Whether a line is shown when the scanner reaches it in this state. */
  predicate Shows(st: Scan, line: string) {
    st.Plain? && !ContainsText(line, OPEN_COMMENT) && OpeningFence(line).None?
  }

  /** The state after a line. */
  function Next(st: Scan, line: string): (r: Scan)
    requires ScanOk(st)
    ensures ScanOk(r)
  {
    match st
    case Fenced(fence) =>
      var run := FenceRun(line);
      if run.Some? && run.value.0[0] == fence[0] && |run.value.0| >= |fence| && Strip(run.value.1) == [] then Plain else st
    case Comment => if ContainsText(line, CLOSE_COMMENT) then Plain else Comment
    case Plain =>
      if ContainsText(line, OPEN_COMMENT) then
        var start := FindText(line, OPEN_COMMENT) + 4;
        if start <= |line| && ContainsText(line[start..], CLOSE_COMMENT) then Plain else Comment
      else
        var opening := OpeningFence(line);
        if opening.Some? then Fenced(opening.value) else Plain
  }

  /** A line that is shown leaves the scanner in plain text. */
  lemma ShownIsInert(st: Scan, line: string)
    requires ScanOk(st) && Shows(st, line)
    ensures st == Plain && Next(st, line) == Plain
  {
  }

  function After(st: Scan, lines: seq<string>): (r: Scan)
    requires ScanOk(st)
    ensures ScanOk(r)
    decreases |lines|
  {
    if lines == [] then st else After(Next(st, lines[0]), lines[1..])
  }

  lemma {:induction false} AfterConcat(st: Scan, a: seq<string>, b: seq<string>)
    requires ScanOk(st)
    ensures After(st, a + b) == After(After(st, a), b)
    decreases |a|
  {
    hide Next;
    if a == [] {
      assert a + b == b;
    } else {
      assert (a + b)[1..] == a[1..] + b;
      AfterConcat(Next(st, a[0]), a[1..], b);
    }
  }

  /** Line `k` is visible when scanning starts in plain text at the first line. */
  predicate VisibleAt(lines: seq<string>, k: nat)
    requires k < |lines|
  {
    Shows(After(Plain, lines[..k]), lines[k])
  }

  /** `_markdown_visibility` */
  method MarkdownVisibility(lines: seq<string>) returns (visible: seq<bool>)
    ensures |visible| == |lines| && forall k :: 0 <= k < |lines| ==> visible[k] == VisibleAt(lines, k)
  {
    hide Shows, Next, After;
    visible := [];
    var fence: Option<string> := None;
    var inComment := false;
    ghost var st := Plain;
    AfterNothing();
    for k := 0 to |lines|
      invariant |visible| == k && forall j :: 0 <= j < k ==> visible[j] == VisibleAt(lines, j)
      invariant ScanOk(st) && st == After(Plain, lines[..k])
      invariant st == StateOf(fence, inComment) && (fence.Some? ==> fence.value != [] && !inComment)
    {
      var line := lines[k];
      AfterNext(lines, k);
      st := Next(st, line);
      var shown := ScanLine(line, fence, inComment);
      visible := visible + [shown.0];
      fence := shown.1;
      inComment := shown.2;
    }
  }

  function StateOf(fence: Option<string>, inComment: bool): Scan {
    if fence.Some? then Fenced(fence.value) else if inComment then Comment else Plain
  }

  /** The loop body on its two variables: the verdict on the line, and their new values. */
  function ScanLine(line: string, fence: Option<string>, inComment: bool): (r: (bool, Option<string>, bool))
    requires fence.Some? ==> fence.value != [] && !inComment
    ensures var st := StateOf(fence, inComment);
      && r.0 == Shows(st, line) && StateOf(r.1, r.2) == Next(st, line) && (r.1.Some? ==> r.1.value != [] && !r.2)
  {
    if fence.Some? then
      var run := FenceRun(line);
      var closes := run.Some? && run.value.0[0] == fence.value[0] && |run.value.0| >= |fence.value| && Strip(run.value.1) == [];
      (false, if closes then None else fence, false)
    else if inComment then (false, None, !ContainsText(line, CLOSE_COMMENT))
    else if ContainsText(line, OPEN_COMMENT) then
      var start := FindText(line, OPEN_COMMENT) + 4;
      (false, None, !(start <= |line| && ContainsText(line[start..], CLOSE_COMMENT)))
    else
      var opening := OpeningFence(line);
      if opening.Some? then (false, opening, false) else (true, None, false)
  }

  lemma AfterNothing()
    ensures After(Plain, []) == Plain
  {
  }

  lemma AfterNext(lines: seq<string>, k: nat)
    requires k < |lines|
    ensures After(Plain, lines[..k + 1]) == Next(After(Plain, lines[..k]), lines[k])
    ensures lines[..0] == []
  {
    hide Next;
    assert lines[..k + 1] == lines[..k] + [lines[k]];
    AfterConcat(Plain, lines[..k], [lines[k]]);
    var one := [lines[k]];
    assert one[1..] == [];
    assert After(After(Plain, lines[..k]), one) == After(Next(After(Plain, lines[..k]), lines[k]), []);
  }

  // ---- headings and rows ----

  /** `\s*#*\s*` over a whole string. */
  predicate HeadingTail(s: string) {
    var t := TrimLeft(s);
    TrimLeft(t[Run(t, '#')..]) == []
  }

  /** The shortest non-empty start of `s`, from `from` characters on, that leaves a tail. */
  function ShortestTitle(s: string, from: nat): (r: string)
    requires 1 <= from <= |s|
    decreases |s| - from
  {
    if from == |s| || HeadingTail(s[from..]) then s[..from] else ShortestTitle(s, from + 1)
  }

  /** The title of a level-two heading: the group of `##\s+(.+?)\s*#*\s*` over the line. */
  function Title(line: string): Option<string> {
    if |line| < 4 || line[..2] != "##" || !IsSpace(line[2]) then None
    else
      var text := TrimLeft(line[2..]);
      if text == [] then Some(line[|line| - 1..]) else Some(ShortestTitle(text, 1))
  }

  /** `^ {0,3}\|` */
  predicate PipeRow(line: string) {
    var indent := Run(line, ' ');
    indent <= 3 && indent < |line| && line[indent] == '|'
  }

  function StripAll(cells: seq<string>): (r: seq<string>)
    ensures |r| == |cells| && forall i :: 0 <= i < |r| ==> r[i] == Strip(cells[i])
  {
    seq(|cells|, i requires 0 <= i < |cells| => Strip(cells[i]))
  }

  /** `[cell.strip() for cell in line.strip().strip("|").split("|")]` */
  function Cells(line: string): (r: seq<string>)
    ensures |r| >= 1
  {
    StripAll(SplitOn(TrimRightOf(TrimLeftOf(Strip(line), '|'), '|'), '|'))
  }

  /** `\s*:?-+:?\s*` over a whole cell. */
  predicate DashCell(cell: string) {
    var t := Strip(cell);
    var u := if t != [] && t[0] == ':' then t[1..] else t;
    var v := if u != [] && u[|u| - 1] == ':' then u[..|u| - 1] else u;
    OnlyDashes(v)
  }

  predicate OnlyDashes(s: string) {
    s != [] && forall i :: 0 <= i < |s| ==> s[i] == '-'
  }

  predicate DashCells(cells: seq<string>) {
    forall i :: 0 <= i < |cells| ==> DashCell(cells[i])
  }

  /** The delimiter row under a header of `columns` cells. */
  predicate SeparatorRow(line: string, columns: nat) {
    var t := Strip(line);
    && t != [] && t[0] == '|'
    && var inner := if |t| >= 2 && t[|t| - 1] == '|' then t[1..|t| - 1] else t[1..];
       var cells := SplitOn(inner, '|');
       |cells| == columns && DashCells(cells)
  }
}
