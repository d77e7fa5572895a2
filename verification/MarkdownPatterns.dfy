/** What the line patterns of the documentation gate match: said of how a line is put together. */
module MarkdownPatterns {
  import opened Outcomes
  import opened Markdown
  import opened Spacing

  // ---- substrings ----

  /** The pattern is found exactly when it stands somewhere, and where it first stands. */
  lemma {:induction false} FindExactly(s: string, p: string, at: nat)
    requires p != []
    ensures FindText(s, p) == at < |s| <==> at < |s| && p <= s[at..] && forall i :: 0 <= i < at ==> !(p <= s[i..])
    decreases |s|
  {
    if s != [] && !(p <= s) && at > 0 {
      FindExactly(s[1..], p, at - 1);
      assert at < |s| ==> s[at..] == s[1..][at - 1..];
      forall i | 0 < i < |s| ensures s[i..] == s[1..][i - 1..] { }
      assert (forall i :: 0 <= i < at && i <= |s| ==> !(p <= s[i..])) <==> (forall i :: 0 <= i < at - 1 && i <= |s| - 1 ==> !(p <= s[1..][i..]));
    }
    if s != [] { assert s[0..] == s; }
  }

  // ---- fences ----

  /** At most three blanks, three or more backticks or tildes, and the rest. */
  ghost predicate FenceLine(line: string, mark: string, rest: string) {
    && |mark| >= 3 && (AllOf(mark, '`') || AllOf(mark, '~')) && (rest == [] || rest[0] != mark[0])
    && exists indent :: AllOf(indent, ' ') && |indent| <= 3 && line == indent + mark + rest
  }

  lemma RunIs(s: string, c: char, n: nat)
    requires n <= |s| && AllOf(s[..n], c) && (n < |s| ==> s[n] != c)
    ensures Run(s, c) == n
  {
    hide Run;
    var m := Run(s, c);
    assert forall i :: 0 <= i < n ==> s[i] == s[..n][i];
  }

  lemma FenceParts(line: string)
    requires FenceRun(line).Some?
    ensures var (mark, rest) := FenceRun(line).value; var n := Run(line, ' ');
      && n <= 3 && line[n..] == mark + rest && |mark| >= 3 && (mark[0] == '`' || mark[0] == '~')
      && |mark| == Run(line[n..], mark[0])
  {
    hide Run;
    var tail := line[Run(line, ' ')..];
    var mark := FenceRun(line).value.0;
    assert tail == tail[..|mark|] + tail[|mark|..];
  }

  lemma MarkIs(tail: string, mark: string, rest: string)
    requires tail == mark + rest && mark != [] && |mark| == Run(tail, mark[0])
    ensures AllOf(mark, mark[0]) && (rest == [] || rest[0] != mark[0])
  {
    hide Run;
    assert tail[..|mark|] == mark;
    assert forall i :: 0 <= i < |mark| ==> tail[..|mark|][i] == tail[i];
    assert rest != [] ==> rest[0] == tail[|mark|];
  }

  lemma FenceRead(line: string)
    requires FenceRun(line).Some?
    ensures var (mark, rest) := FenceRun(line).value; FenceLine(line, mark, rest)
  {
    hide Run, FenceRun;
    FenceParts(line);
    var n := Run(line, ' ');
    var (mark, rest) := FenceRun(line).value;
    MarkIs(line[n..], mark, rest);
    assert line == line[..n] + mark + rest;
  }

  lemma FenceReads(indent: string, mark: string, rest: string)
    requires AllOf(indent, ' ') && |indent| <= 3
    requires |mark| >= 3 && (AllOf(mark, '`') || AllOf(mark, '~')) && (rest == [] || rest[0] != mark[0])
    ensures FenceRun(indent + mark + rest) == Some((mark, rest))
  {
    hide Run;
    var line, tail := indent + mark + rest, mark + rest;
    assert line[..|indent|] == indent && line[|indent|..] == tail && line[|indent|] == mark[0];
    RunIs(line, ' ', |indent|);
    assert tail[..|mark|] == mark && tail[|mark|..] == rest && tail[0] == mark[0];
    assert |tail| > |mark| ==> tail[|mark|] == rest[0];
    RunIs(tail, mark[0], |mark|);
  }

  lemma FenceExactly(line: string, mark: string, rest: string)
    ensures FenceRun(line) == Some((mark, rest)) <==> FenceLine(line, mark, rest)
  {
    hide FenceRun;
    if FenceRun(line) == Some((mark, rest)) { FenceRead(line); }
    if FenceLine(line, mark, rest) {
      var indent :| AllOf(indent, ' ') && |indent| <= 3 && line == indent + mark + rest;
      FenceReads(indent, mark, rest);
    }
  }

  /** A fence opens with a mark that backticks do not follow when it is made of them. */
  lemma OpeningExactly(line: string, mark: string)
    ensures OpeningFence(line) == Some(mark) <==>
      exists rest :: FenceLine(line, mark, rest) && ('`' in mark ==> '`' !in rest)
  {
    hide FenceRun, FenceLine;
    forall rest ensures FenceRun(line) == Some((mark, rest)) <==> FenceLine(line, mark, rest) { FenceExactly(line, mark, rest); }
    forall rest | FenceLine(line, mark, rest) ensures '`' in mark <==> mark[0] == '`' { FenceMark(line, mark, rest); }
    if OpeningFence(line) == Some(mark) { assert FenceLine(line, mark, FenceRun(line).value.1); }
  }

  lemma FenceMark(line: string, mark: string, rest: string)
    requires FenceLine(line, mark, rest)
    ensures mark != [] && ('`' in mark <==> mark[0] == '`')
  {
  }

  // ---- headings ----

  /** Space, number signs, space. */
  ghost predicate Tail(s: string) {
    exists a, signs, b :: Spaces(a) && AllOf(signs, '#') && Spaces(b) && s == a + signs + b
  }

  lemma SignIsNoSpace()
    ensures !IsSpace('#')
  {
  }

  lemma TailExactly(s: string)
    ensures HeadingTail(s) <==> Tail(s)
  {
    hide Run, TrimLeft, IsSpace;
    SignIsNoSpace();
    var t := TrimLeft(s);
    var n := Run(t, '#');
    if HeadingTail(s) {
      var a := TrimLeftSplits(s);
      var b := TrimLeftSplits(t[n..]);
      assert t == t[..n] + t[n..];
      assert s == a + t[..n] + b;
    }
    if Tail(s) {
      var a, signs, b :| Spaces(a) && AllOf(signs, '#') && Spaces(b) && s == a + signs + b;
      if signs == [] {
        assert s == a + b && Spaces(s) && s + [] == s;
        TrimLeftSkips(s, []);
        assert t == [] && t[n..] == [] && [] + [] == t;
        TrimLeftSkips([], []);
      } else {
        assert s == a + (signs + b);
        TrimLeftSkips(a, signs + b);
        assert t[..|signs|] == signs && t[|signs|..] == b && b + [] == b;
        if b != [] { assert IsSpace(b[0]); }
        RunIs(t, '#', |signs|);
        TrimLeftSkips(b, []);
      }
    }
  }

  /** Two number signs, space, the shortest title that leaves a tail, and the tail.  The title starts
      after the space, unless nothing follows it: then its last character is the title. */
  ghost predicate TitleParts(line: string, gap: string, title: string, tail: string) {
    && line == "##" + gap + title + tail && gap != [] && Spaces(gap) && title != [] && Tail(tail)
    && (IsSpace(title[0]) ==> |title| == 1 && tail == [])
    && forall n :: 1 <= n < |title| ==> !Tail(title[n..] + tail)
  }

  lemma {:induction false} ShortestIs(s: string, from: nat)
    requires 1 <= from <= |s|
    ensures var r := ShortestTitle(s, from);
      from <= |r| <= |s| && r == s[..|r|] && HeadingTail(s[|r|..]) && forall m :: from <= m < |r| ==> !HeadingTail(s[m..])
    decreases |s| - from
  {
    hide HeadingTail;
    assert s[..|s|] == s && s[|s|..] == [];
    if from == |s| { NothingIsATail(); } else if !HeadingTail(s[from..]) { ShortestIs(s, from + 1); }
  }

  lemma NothingIsATail()
    ensures HeadingTail([])
  {
  }

  lemma TitleIsParts(line: string) returns (gap: string, tail: string)
    requires Title(line).Some?
    ensures TitleParts(line, gap, Title(line).value, tail)
  {
    hide HeadingTail, ShortestTitle, TrimLeft, IsSpace, Tail;
    var text := TrimLeft(line[2..]);
    gap := TrimLeftSplits(line[2..]);
    var title := Title(line).value;
    assert line == "##" + line[2..];
    if text == [] {
      NothingIsATail();
      TailExactly([]);
      var n := |line| - 1;
      gap, tail := gap[..|gap| - 1], [];
      assert line[2..] == gap + title;
      assert line == "##" + gap + title + tail;
    } else {
      ShortestIs(text, 1);
      tail := text[|title|..];
      assert text == title + tail;
      assert line == "##" + gap + title + tail;
      TailExactly(tail);
      forall n | 1 <= n < |title| ensures !Tail(title[n..] + tail) {
        assert title[n..] + tail == text[n..];
        TailExactly(text[n..]);
      }
    }
  }

  lemma PartsAreTitle(line: string, gap: string, title: string, tail: string)
    requires TitleParts(line, gap, title, tail)
    ensures Title(line) == Some(title)
  {
    hide HeadingTail, ShortestTitle, TrimLeft, IsSpace, Tail;
    var text := title + tail;
    assert line[2..] == gap + text && line[..2] == "##" && line[2] == gap[0];
    if IsSpace(title[0]) {
      assert Spaces(gap + text) && gap + text + [] == gap + text;
      TrimLeftSkips(gap + text, []);
      assert line[|line| - 1..] == title;
    } else {
      TrimLeftSkips(gap, text);
      forall n | 1 <= n < |title| ensures !HeadingTail(text[n..]) {
        assert text[n..] == title[n..] + tail;
        TailExactly(text[n..]);
      }
      assert text[|title|..] == tail && text[..|title|] == title;
      TailExactly(tail);
      ShortestIs(text, 1);
    }
  }

  /** The group of the heading pattern. */
  lemma TitleExactly(line: string, title: string)
    ensures Title(line) == Some(title) <==> exists gap, tail :: TitleParts(line, gap, title, tail)
  {
    hide Title, TitleParts;
    if Title(line) == Some(title) { var gap, tail := TitleIsParts(line); }
    forall gap, tail | TitleParts(line, gap, title, tail) ensures Title(line) == Some(title) { PartsAreTitle(line, gap, title, tail); }
  }

  // ---- rows ----

  /** At most three blanks and a bar. */
  lemma PipeExactly(line: string)
    ensures PipeRow(line) <==> exists indent, rest :: AllOf(indent, ' ') && |indent| <= 3 && line == indent + ['|'] + rest
  {
    hide Run;
    var n := Run(line, ' ');
    if PipeRow(line) { assert line == line[..n] + ['|'] + line[n + 1..]; }
    if indent, rest :| AllOf(indent, ' ') && |indent| <= 3 && line == indent + ['|'] + rest {
      assert line[..|indent|] == indent && line[|indent|] == '|';
      RunIs(line, ' ', |indent|);
    }
  }

  /** The parts with this character between them. */
  function Rejoined(parts: seq<string>, c: char): string
    requires parts != []
  {
    if |parts| == 1 then parts[0] else parts[0] + [c] + Rejoined(parts[1..], c)
  }

  lemma {:induction false} SplitRejoins(s: string, c: char)
    ensures Rejoined(SplitOn(s, c), c) == s && forall p :: p in SplitOn(s, c) ==> c !in p
  {
    if s != [] {
      var rest, parts := SplitOn(s[1..], c), SplitOn(s, c);
      SplitRejoins(s[1..], c);
      assert s == [s[0]] + s[1..];
      if s[0] == c {
        assert parts[1..] == rest;
      } else if |rest| > 1 {
        assert parts[1..] == rest[1..];
      }
    }
  }

  lemma {:induction false} SplitFirst(first: string, rest: string, c: char)
    requires c !in first
    ensures SplitOn(first, c) == [first] && SplitOn(first + [c] + rest, c) == [first] + SplitOn(rest, c)
  {
    if first == [] {
      assert (first + [c] + rest)[1..] == rest;
    } else {
      SplitFirst(first[1..], rest, c);
      assert (first + [c] + rest)[1..] == first[1..] + [c] + rest;
      assert first == [first[0]] + first[1..];
    }
  }

  /** Splitting gives the parts without the character that join to the text. */
  lemma {:induction false} SplitExactly(s: string, c: char, parts: seq<string>)
    ensures SplitOn(s, c) == parts <==> parts != [] && Rejoined(parts, c) == s && forall p :: p in parts ==> c !in p
    decreases |parts|
  {
    hide SplitOn;
    SplitRejoins(s, c);
    if parts != [] && Rejoined(parts, c) == s && forall p :: p in parts ==> c !in p {
      if |parts| == 1 {
        SplitFirst(parts[0], [], c);
        assert parts == [parts[0]];
      } else {
        var rest := Rejoined(parts[1..], c);
        SplitFirst(parts[0], rest, c);
        SplitExactly(rest, c, parts[1..]);
        assert parts == [parts[0]] + parts[1..];
      }
    }
  }

  /** A row's cells: what stands between bars, without the outer ones and without space around it. */
  lemma CellsExactly(line: string, stripped: string, inner: string, cells: seq<string>)
    requires Core(line, stripped) && Bare(stripped, inner, '|')
    requires |cells| >= 1 && Rejoined(cells, '|') == inner && forall p :: p in cells ==> '|' !in p
    ensures |Cells(line)| == |cells| && forall i :: 0 <= i < |cells| ==> Core(cells[i], Cells(line)[i])
  {
    hide SplitOn, Strip, Core, Bare, TrimLeftOf, TrimRightOf;
    StripExactly(line, stripped);
    StripOfExactly(stripped, inner, '|');
    SplitExactly(inner, '|', cells);
    forall i | 0 <= i < |cells| ensures Core(cells[i], Cells(line)[i]) { StripExactly(cells[i], Cells(line)[i]); }
  }

  /** The character, or nothing. */
  predicate AtMost(s: string, c: char) {
    s == [] || s == [c]
  }

  /** Dashes, with or without a colon before and behind them. */
  ghost predicate Dashes(s: string) {
    exists a, dashes, b :: AtMost(a, ':') && dashes != [] && AllOf(dashes, '-') && AtMost(b, ':') && s == a + dashes + b
  }

  lemma ColonLeft(s: string) returns (a: string)
    ensures AtMost(a, ':') && s == a + (if s != [] && s[0] == ':' then s[1..] else s)
  {
    a := if s != [] && s[0] == ':' then ":" else "";
  }

  lemma ColonRight(s: string) returns (b: string)
    ensures AtMost(b, ':') && s == (if s != [] && s[|s| - 1] == ':' then s[..|s| - 1] else s) + b
  {
    b := if s != [] && s[|s| - 1] == ':' then ":" else "";
  }

  lemma DashesRead(cell: string, core: string)
    requires DashCell(cell) && Strip(cell) == core
    ensures Dashes(core)
  {
    hide Strip, AtMost;
    var a := ColonLeft(core);
    var u := if core != [] && core[0] == ':' then core[1..] else core;
    var b := ColonRight(u);
    var v := if u != [] && u[|u| - 1] == ':' then u[..|u| - 1] else u;
    assert OnlyDashes(v) && u == v + b && core == a + u;
    DashesAre(a, v, b);
    assert a + v + b == a + (v + b);
  }

  lemma DashesAre(a: string, dashes: string, b: string)
    requires AtMost(a, ':') && OnlyDashes(dashes) && AtMost(b, ':')
    ensures Dashes(a + dashes + b)
  {
    hide AtMost;
    assert AllOf(dashes, '-');
  }

  lemma DashesReadIn(cell: string, a: string, dashes: string, b: string)
    requires AtMost(a, ':') && dashes != [] && AllOf(dashes, '-') && AtMost(b, ':') && Strip(cell) == a + dashes + b
    ensures DashCell(cell)
  {
    hide Strip;
    var core, u := a + dashes + b, dashes + b;
    assert core[0] == (if a == "" then '-' else ':') && (if a == "" then core else core[1..]) == u;
    assert u[|u| - 1] == (if b == "" then '-' else ':') && (if b == "" then u else u[..|u| - 1]) == dashes;
  }

  lemma DashesExactly(cell: string, core: string)
    requires Core(cell, core)
    ensures DashCell(cell) <==> Dashes(core)
  {
    hide Core, Strip, DashCell;
    StripExactly(cell, core);
    if DashCell(cell) { DashesRead(cell, core); }
    if Dashes(core) {
      var a, dashes, b :| AtMost(a, ':') && dashes != [] && AllOf(dashes, '-') && AtMost(b, ':') && core == a + dashes + b;
      DashesReadIn(cell, a, dashes, b);
    }
  }

  /** A bar, as many cells of dashes as there are columns with bars between them, and a bar or none
      behind them. */
  ghost predicate Delimits(s: string, columns: nat) {
    exists cells, last :: |cells| == columns && columns >= 1 && (forall i :: 0 <= i < columns ==> '|' !in cells[i] && DashCell(cells[i]))
      && AtMost(last, '|') && s == "|" + Rejoined(cells, '|') + last
  }

  lemma Barred(t: string)
    requires t != [] && t[0] == '|'
    ensures var closed := |t| >= 2 && t[|t| - 1] == '|';
      t == "|" + (if closed then t[1..|t| - 1] else t[1..]) + if closed then "|" else ""
  {
    if |t| >= 2 && t[|t| - 1] == '|' {
      assert t == [t[0]] + t[1..|t| - 1] + [t[|t| - 1]];
    } else {
      assert t == [t[0]] + t[1..];
    }
  }

  lemma SeparatorRead(line: string, columns: nat)
    requires SeparatorRow(line, columns)
    ensures Delimits(Strip(line), columns)
  {
    hide Strip, SplitOn, DashCell, Rejoined;
    var t := Strip(line);
    var closed := |t| >= 2 && t[|t| - 1] == '|';
    var inner, last := if closed then t[1..|t| - 1] else t[1..], if closed then "|" else "";
    Barred(t);
    SplitRejoins(inner, '|');
    var cells := SplitOn(inner, '|');
    assert forall i :: 0 <= i < columns ==> cells[i] in cells;
    assert AtMost(last, '|') && t == "|" + Rejoined(cells, '|') + last;
  }

  lemma SeparatorReads(line: string, cells: seq<string>, last: string)
    requires |cells| >= 1 && (forall i :: 0 <= i < |cells| ==> '|' !in cells[i] && DashCell(cells[i]))
    requires AtMost(last, '|') && Strip(line) == "|" + Rejoined(cells, '|') + last
    ensures SeparatorRow(line, |cells|)
  {
    hide Strip, SplitOn, DashCell, Rejoined;
    var t, inner := Strip(line), Rejoined(cells, '|');
    RejoinedEnds(cells);
    forall p | p in cells ensures '|' !in p { }
    SplitExactly(inner, '|', cells);
    if last == [] {
      assert t[1..] == inner && t[|t| - 1] == inner[|inner| - 1];
    } else {
      assert t[1..|t| - 1] == inner && t[|t| - 1] == '|';
    }
  }

  lemma {:induction false} RejoinedEnds(cells: seq<string>)
    requires |cells| >= 1 && forall i :: 0 <= i < |cells| ==> '|' !in cells[i] && DashCell(cells[i])
    ensures var s := Rejoined(cells, '|'); s != [] && s[|s| - 1] != '|'
    decreases |cells|
  {
    hide DashCell;
    if |cells| == 1 { CellHasText(cells[0]); } else { RejoinedEnds(cells[1..]); }
  }

  lemma CellHasText(cell: string)
    requires DashCell(cell)
    ensures cell != []
  {
  }

  lemma SeparatorExactly(line: string, core: string, columns: nat)
    requires Core(line, core)
    ensures SeparatorRow(line, columns) <==> Delimits(core, columns)
  {
    hide Strip, SeparatorRow, Core, DashCell;
    StripExactly(line, core);
    if SeparatorRow(line, columns) { SeparatorRead(line, columns); }
    if Delimits(core, columns) {
      var cells, last :| |cells| == columns && columns >= 1 && (forall i :: 0 <= i < columns ==> '|' !in cells[i] && DashCell(cells[i]))
        && AtMost(last, '|') && core == "|" + Rejoined(cells, '|') + last;
      SeparatorReads(line, cells, last);
    }
  }
}
