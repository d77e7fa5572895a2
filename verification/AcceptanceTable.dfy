/** Tables under level-two headings, as the gate reads them: the sections with a title, the strict
    reader, and exactly which texts it accepts. */
module AcceptanceTable {
  import opened Outcomes
  import opened Markdown

  /** Decides whether a heading's title is the wanted one, ignoring case. */
  type TitleTest = string -> bool

  type Row = seq<string>

  const VERIFICATION_COLUMNS: Row :=
    ["Criterion", "Verdict", "Verifier run", "Evidence digest", "Observed", "Reason"]

  // ---- positions in a list of lines ----

  predicate AnyHeading(lines: seq<string>, k: nat)
    requires k < |lines|
  {
    VisibleAt(lines, k) && Title(lines[k]).Some?
  }

  predicate Matched(lines: seq<string>, k: nat, named: TitleTest)
    requires k < |lines|
  {
    AnyHeading(lines, k) && named(Title(lines[k]).value)
  }

  predicate RowAt(lines: seq<string>, k: nat)
    requires k < |lines|
  {
    VisibleAt(lines, k) && PipeRow(lines[k])
  }

  predicate HeaderAt(lines: seq<string>, k: nat, columns: Row)
    requires k < |lines|
  {
    RowAt(lines, k) && Cells(lines[k]) == columns
  }

  /** Whether the last visible heading before `k` is a wanted one. */
  predicate InSection(lines: seq<string>, k: nat, named: TitleTest)
    requires k <= |lines|
  {
    k > 0 && if AnyHeading(lines, k - 1) then Matched(lines, k - 1, named) else InSection(lines, k - 1, named)
  }

  /** A header row that stands in a wanted section. */
  predicate Candidate(lines: seq<string>, k: nat, named: TitleTest, columns: Row)
    requires k < |lines|
  {
    HeaderAt(lines, k, columns) && InSection(lines, k, named)
  }

  function NextHeading(lines: seq<string>, from: nat): (k: nat)
    requires from <= |lines|
    ensures from <= k <= |lines| && (k < |lines| ==> AnyHeading(lines, k))
    ensures forall j :: from <= j < k ==> !AnyHeading(lines, j)
    decreases |lines| - from
  {
    if from == |lines| || AnyHeading(lines, from) then from else NextHeading(lines, from + 1)
  }

  function RowEnd(lines: seq<string>, from: nat): (k: nat)
    requires from <= |lines|
    ensures from <= k <= |lines| && (k < |lines| ==> !RowAt(lines, k))
    ensures forall j :: from <= j < k ==> RowAt(lines, j)
    decreases |lines| - from
  {
    if from == |lines| || !RowAt(lines, from) then from else RowEnd(lines, from + 1)
  }

  function RowCells(lines: seq<string>, from: nat, to: nat): (rows: seq<Row>)
    requires from <= to <= |lines|
    ensures |rows| == to - from && forall k :: 0 <= k < |rows| ==> rows[k] == Cells(lines[from + k])
  {
    seq(to - from, k requires 0 <= k < to - from => Cells(lines[from + k]))
  }

  // ---- the strict reader ----

  /** Without the empty lines at the end. */
  function TrimBlank(lines: seq<string>): (r: seq<string>)
    ensures |r| <= |lines| && r == lines[..|r|]
    ensures forall k :: |r| <= k < |lines| ==> lines[k] == []
    ensures r != [] ==> r[|r| - 1] != []
  {
    if lines != [] && lines[|lines| - 1] == [] then TrimBlank(lines[..|lines| - 1]) else lines
  }

  function SectionLines(lines: seq<string>, h: nat): seq<string>
    requires h < |lines|
  {
    TrimBlank(lines[h..NextHeading(lines, h + 1)])
  }

  /** The matching headings before `to`, in order. */
  function Headings(lines: seq<string>, to: nat, named: TitleTest): (hs: seq<nat>)
    requires to <= |lines|
    ensures forall i :: 0 <= i < |hs| ==> hs[i] < to
  {
    if to == 0 then []
    else Headings(lines, to - 1, named) + (if Matched(lines, to - 1, named) then [to - 1] else [])
  }

  /** The sections that start at these headings. */
  function SectionsFrom(lines: seq<string>, hs: seq<nat>): (r: seq<seq<string>>)
    requires forall i :: 0 <= i < |hs| ==> hs[i] < |lines|
    ensures |r| == |hs| && forall i :: 0 <= i < |hs| ==> r[i] == SectionLines(lines, hs[i])
  {
    seq(|hs|, i requires 0 <= i < |hs| => SectionLines(lines, hs[i]))
  }

  function Pending(start: Option<nat>): seq<nat> {
    if start.Some? then [start.value] else []
  }

  lemma SectionEnds(lines: seq<string>, start: nat, index: nat)
    requires start < index <= |lines| && NextHeading(lines, start + 1) >= index
    requires index < |lines| ==> AnyHeading(lines, index)
    ensures SectionLines(lines, start) == TrimBlank(lines[start..index])
  {
    hide AnyHeading;
    assert NextHeading(lines, start + 1) <= index;
  }

  lemma SectionGoesOn(lines: seq<string>, start: nat, index: nat)
    requires start < index < |lines| && NextHeading(lines, start + 1) >= index && !AnyHeading(lines, index)
    ensures NextHeading(lines, start + 1) >= index + 1
  {
    hide AnyHeading;
  }

  /** What one line does to the list of wanted headings. */
  lemma HeadingsStep(lines: seq<string>, index: nat, named: TitleTest)
    requires index < |lines|
    ensures var heading := VisibleAt(lines, index) && Title(lines[index]).Some?;
      && heading == AnyHeading(lines, index)
      && Headings(lines, index + 1, named) == Headings(lines, index, named)
           + (if heading && named(Title(lines[index]).value) then [index] else [])
  {
    hide VisibleAt, Title;
  }

  /** `_level_two_sections` */
  method LevelTwoSections(lines: seq<string>, named: TitleTest) returns (sections: seq<seq<string>>)
    ensures sections == SectionsFrom(lines, Headings(lines, |lines|, named))
  {
    hide VisibleAt, Title, SectionLines, TrimBlank, NextHeading, AnyHeading, Matched, Headings, SectionsFrom;
    var visible := MarkdownVisibility(lines);
    sections := [];
    var start: Option<nat> := None;
    ghost var closed: seq<nat> := [];
    NoHeading(lines, 0, named);
    SectionsFromNothing(lines);
    for index := 0 to |lines|
      invariant start.Some? ==> start.value < index && NextHeading(lines, start.value + 1) >= index
      invariant Headings(lines, index, named) == closed + Pending(start)
      invariant forall i :: 0 <= i < |closed| ==> closed[i] < |lines|
      invariant sections == SectionsFrom(lines, closed)
    {
      var line := lines[index];
      HeadingsStep(lines, index, named);
      if visible[index] && Title(line).Some? {
        if start.Some? {
          SectionEnds(lines, start.value, index);
          SectionsFromMore(lines, closed, start.value);
          sections := sections + [TrimBlank(lines[start.value..index])];
          closed := closed + [start.value];
          start := None;
        }
        if named(Title(line).value) {
          start := Some(index);
        }
      } else if start.Some? {
        SectionGoesOn(lines, start.value, index);
      }
    }
    if start.Some? {
      SectionEnds(lines, start.value, |lines|);
      SectionsFromMore(lines, closed, start.value);
      sections := sections + [TrimBlank(lines[start.value..])];
      assert lines[start.value..] == lines[start.value..|lines|];
    }
  }

  lemma SectionsFromNothing(lines: seq<string>)
    ensures SectionsFrom(lines, []) == []
  {
  }

  lemma SectionsFromMore(lines: seq<string>, hs: seq<nat>, h: nat)
    requires h < |lines| && forall i :: 0 <= i < |hs| ==> hs[i] < |lines|
    ensures SectionsFrom(lines, hs + [h]) == SectionsFrom(lines, hs) + [SectionLines(lines, h)]
  {
    hide SectionLines;
  }

  /** The header rows of a section before `to`, in order. */
  function Headers(lines: seq<string>, to: nat, columns: Row): (found: seq<nat>)
    requires to <= |lines|
    ensures forall i :: 0 <= i < |found| ==> found[i] < to
  {
    if to == 0 then []
    else Headers(lines, to - 1, columns) + (if HeaderAt(lines, to - 1, columns) then [to - 1] else [])
  }

  /** The rows of the one table with these columns in a section. */
  function TableRows(section: seq<string>, columns: Row): Option<seq<Row>> {
    var headers := Headers(section, |section|, columns);
    if |headers| != 1 then None
    else
      var i := headers[0];
      if i + 1 >= |section| || !VisibleAt(section, i + 1) || !SeparatorRow(section[i + 1], |columns|) then None
      else
        var rows := RowCells(section, i + 2, RowEnd(section, i + 2));
        if exists k :: 0 <= k < |rows| && |rows[k]| != |columns| then None else Some(rows)
  }

  function StrictRows(lines: seq<string>, named: TitleTest, columns: Row): Option<seq<Row>> {
    var hs := Headings(lines, |lines|, named);
    if |hs| != 1 then None else TableRows(SectionLines(lines, hs[0]), columns)
  }

  /** `_strict_table_rows` */
  method StrictTableRows(body: seq<string>, named: TitleTest, columns: Row) returns (r: Option<seq<Row>>)
    ensures r == StrictRows(body, named, columns)
  {
    hide VisibleAt, Cells, Title, SeparatorRow, SectionLines, TableRows, Headings;
    var sections := LevelTwoSections(body, named);
    if |sections| != 1 {
      return None;
    }
    r := SectionTableRows(sections[0], columns);
  }

  /** The rest of `_strict_table_rows`, on the lines of the one section. */
  method SectionTableRows(lines: seq<string>, columns: Row) returns (r: Option<seq<Row>>)
    ensures r == TableRows(lines, columns)
  {
    hide VisibleAt, Cells, SeparatorRow, RowEnd, RowCells, PipeRow;
    var visible := MarkdownVisibility(lines);
    var headerIndexes: seq<nat> := [];
    for k := 0 to |lines|
      invariant headerIndexes == Headers(lines, k, columns)
    {
      if visible[k] && PipeRow(lines[k]) && Cells(lines[k]) == columns {
        headerIndexes := headerIndexes + [k];
      }
    }
    if |headerIndexes| != 1 {
      return None;
    }
    var index := headerIndexes[0];
    hide HeaderAt, Headers;
    if index + 1 >= |lines| || !visible[index + 1] || !SeparatorRow(lines[index + 1], |columns|) {
      return None;
    }
    var rows := DataRows(lines, visible, index + 2, |columns|);
    r := rows;
  }

  /** The loop over the rows under the separator. */
  method DataRows(lines: seq<string>, visible: seq<bool>, from: nat, width: nat) returns (r: Option<seq<Row>>)
    requires from <= |lines| == |visible|
    requires forall k :: 0 <= k < |lines| ==> visible[k] == VisibleAt(lines, k)
    ensures var rows := RowCells(lines, from, RowEnd(lines, from));
      r == if exists k :: 0 <= k < |rows| && |rows[k]| != width then None else Some(rows)
  {
    hide VisibleAt, Cells, PipeRow;
    var rows: seq<Row> := [];
    var rowIndex := from;
    ghost var end := RowEnd(lines, from);
    while rowIndex < |lines| && visible[rowIndex] && PipeRow(lines[rowIndex])
      invariant from <= rowIndex <= end
      invariant rows == RowCells(lines, from, rowIndex)
      invariant forall k :: 0 <= k < |rows| ==> |rows[k]| == width
    {
      var cells := Cells(lines[rowIndex]);
      assert RowAt(lines, rowIndex) && rowIndex < end;
      if |cells| != width {
        assert RowCells(lines, from, end)[rowIndex - from] == cells;
        return None;
      }
      rows := rows + [cells];
      rowIndex := rowIndex + 1;
    }
    assert rowIndex < end ==> RowAt(lines, rowIndex);
    return Some(rows);
  }

  // ---- where the reader finds its table ----

  /** The one wanted heading is at `h`, the one header row in its section at `i`, a separator
      follows it, and the rows, all of the right width, end before `m`. */
  ghost predicate TableAt(lines: seq<string>, h: nat, i: nat, m: nat, named: TitleTest, columns: Row) {
    && h < i && i + 2 <= m <= |lines|
    && Matched(lines, h, named) && (forall k :: 0 <= k < |lines| && k != h ==> !Matched(lines, k, named))
    && Candidate(lines, i, named, columns)
    && (forall k :: 0 <= k < |lines| && k != i ==> !Candidate(lines, k, named, columns))
    && VisibleAt(lines, i + 1) && SeparatorRow(lines[i + 1], |columns|)
    && (forall k :: i + 2 <= k < m ==> RowAt(lines, k) && |Cells(lines[k])| == |columns|)
    && (m < |lines| ==> !RowAt(lines, m))
  }

  lemma {:induction false} HeadingsAre(lines: seq<string>, to: nat, named: TitleTest, k: nat)
    requires to <= |lines|
    ensures k in Headings(lines, to, named) <==> k < to && Matched(lines, k, named)
  {
    hide Matched;
    if to > 0 { HeadingsAre(lines, to - 1, named, k); }
  }

  lemma {:induction false} OneHeading(lines: seq<string>, to: nat, named: TitleTest, h: nat)
    requires h < to <= |lines| && Matched(lines, h, named)
    requires forall k :: 0 <= k < to && k != h ==> !Matched(lines, k, named)
    ensures Headings(lines, to, named) == [h]
  {
    hide Matched;
    if to - 1 == h {
      NoHeading(lines, h, named);
    } else {
      OneHeading(lines, to - 1, named, h);
    }
  }

  lemma {:induction false} NoHeading(lines: seq<string>, to: nat, named: TitleTest)
    requires to <= |lines| && forall k :: 0 <= k < to ==> !Matched(lines, k, named)
    ensures Headings(lines, to, named) == []
  {
    hide Matched;
    if to > 0 { NoHeading(lines, to - 1, named); }
  }

  lemma {:induction false} HeadersAre(lines: seq<string>, to: nat, columns: Row, k: nat)
    requires to <= |lines|
    ensures k in Headers(lines, to, columns) <==> k < to && HeaderAt(lines, k, columns)
  {
    hide HeaderAt;
    if to > 0 { HeadersAre(lines, to - 1, columns, k); }
  }

  lemma {:induction false} OneHeader(lines: seq<string>, to: nat, columns: Row, i: nat)
    requires i < to <= |lines| && HeaderAt(lines, i, columns)
    requires forall k :: 0 <= k < to && k != i ==> !HeaderAt(lines, k, columns)
    ensures Headers(lines, to, columns) == [i]
  {
    hide HeaderAt;
    if to - 1 == i {
      NoHeader(lines, i, columns);
    } else {
      OneHeader(lines, to - 1, columns, i);
    }
  }

  lemma {:induction false} NoHeader(lines: seq<string>, to: nat, columns: Row)
    requires to <= |lines| && forall k :: 0 <= k < to ==> !HeaderAt(lines, k, columns)
    ensures Headers(lines, to, columns) == []
  {
    hide HeaderAt;
    if to > 0 { NoHeader(lines, to - 1, columns); }
  }

  lemma {:induction false} OnlyOf(lines: seq<string>, to: nat, named: TitleTest, h: nat)
    requires to <= |lines| && Headings(lines, to, named) == [h]
    ensures h < to && Matched(lines, h, named)
    ensures forall k :: 0 <= k < to && k != h ==> !Matched(lines, k, named)
  {
    hide Matched;
    HeadingsAre(lines, to, named, h);
    forall k | 0 <= k < to && k != h ensures !Matched(lines, k, named) {
      HeadingsAre(lines, to, named, k);
    }
  }

  lemma OnlyHeader(lines: seq<string>, to: nat, columns: Row, i: nat)
    requires to <= |lines| && Headers(lines, to, columns) == [i]
    ensures i < to && HeaderAt(lines, i, columns)
    ensures forall k :: 0 <= k < to && k != i ==> !HeaderAt(lines, k, columns)
  {
    hide HeaderAt;
    HeadersAre(lines, to, columns, i);
    forall k | 0 <= k < to && k != i ensures !HeaderAt(lines, k, columns) {
      HeadersAre(lines, to, columns, k);
    }
  }

  /** From a line that starts in plain text on, a part of a text is scanned like the whole. */
  lemma PartVisible(lines: seq<string>, h: nat, e: nat, k: nat)
    requires h + k < e <= |lines| && After(Plain, lines[..h]) == Plain
    ensures VisibleAt(lines[h..e], k) == VisibleAt(lines, h + k)
  {
    hide Shows, Next;
    assert lines[h..e][..k] == lines[h..h + k];
    assert lines[..h + k] == lines[..h] + lines[h..h + k];
    AfterConcat(Plain, lines[..h], lines[h..h + k]);
  }

  lemma PrefixVisible(lines: seq<string>, n: nat, k: nat)
    requires k < n <= |lines|
    ensures VisibleAt(lines[..n], k) == VisibleAt(lines, k)
  {
    assert lines[..n][..k] == lines[..k];
  }

  /** The section of a visible heading is scanned like the text it is in. */
  lemma SectionVisible(lines: seq<string>, h: nat, k: nat)
    requires h < |lines| && VisibleAt(lines, h) && k < |SectionLines(lines, h)|
    ensures var s := SectionLines(lines, h);
      h + k < |lines| && s[k] == lines[h + k] && VisibleAt(s, k) == VisibleAt(lines, h + k)
  {
    hide Next;
    var e := NextHeading(lines, h + 1);
    var whole, s := lines[h..e], SectionLines(lines, h);
    PartVisible(lines, h, e, k);
    PrefixVisible(whole, |s|, k);
  }

  lemma HeadingIsNoRow(line: string)
    ensures Title(line).Some? ==> !PipeRow(line)
  {
    if Title(line).Some? {
      assert line[..2][0] == '#' && line[0] == '#';
    }
  }

  lemma SeparatorIsNoHeading(line: string, columns: nat)
    requires SeparatorRow(line, columns)
    ensures Title(line).None? && line != []
  {
    if line != [] && !IsSpace(line[0]) {
      assert TrimLeft(line) == line;
      assert line[0] == '|';
    }
    if |line| >= 4 {
      assert line[..2][0] == line[0];
    }
  }

  /** With one wanted heading, its section is what lies between it and the next heading. */
  lemma {:induction false} InSectionIs(lines: seq<string>, h: nat, k: nat, named: TitleTest)
    requires h < |lines| && k <= |lines| && Matched(lines, h, named)
    requires forall j :: 0 <= j < |lines| && j != h ==> !Matched(lines, j, named)
    ensures InSection(lines, k, named) <==> h < k <= NextHeading(lines, h + 1)
  {
    hide AnyHeading, Matched;
    if k > 0 {
      InSectionIs(lines, h, k - 1, named);
      MatchedIsHeading(lines, h, named);
      if k - 1 != h && AnyHeading(lines, k - 1) {
        assert !Matched(lines, k - 1, named);
      }
    }
  }

  /** A line of the section and the same line of the whole text are read alike. */
  lemma SectionLine(lines: seq<string>, h: nat, k: nat, columns: Row)
    requires h < |lines| && AnyHeading(lines, h) && h <= k < |lines| && k <= NextHeading(lines, h + 1)
    ensures var s := SectionLines(lines, h); h + |s| <= NextHeading(lines, h + 1)
    ensures var s := SectionLines(lines, h); if k - h < |s| then
        && s[k - h] == lines[k] && VisibleAt(s, k - h) == VisibleAt(lines, k)
        && RowAt(s, k - h) == RowAt(lines, k) && HeaderAt(s, k - h, columns) == HeaderAt(lines, k, columns)
      else !RowAt(lines, k) && (k < NextHeading(lines, h + 1) ==> lines[k] == [])
  {
    hide VisibleAt;
    var e := NextHeading(lines, h + 1);
    var s := SectionLines(lines, h);
    if k - h < |s| {
      SectionVisible(lines, h, k - h);
    } else if k == e {
      HeadingIsNoRow(lines[k]);
    } else {
      assert lines[h..e][k - h] == [];
    }
  }

  /** What the reader finds in a section, said about the whole text. */
  lemma SectionTable(lines: seq<string>, h: nat, i: nat, named: TitleTest, columns: Row)
    requires h < |lines| && Matched(lines, h, named)
    requires forall k :: 0 <= k < |lines| && k != h ==> !Matched(lines, k, named)
    requires i < |lines| && Candidate(lines, i, named, columns)
    ensures h < i < h + |SectionLines(lines, h)| && HeaderAt(SectionLines(lines, h), i - h, columns)
  {
    hide HeaderAt, SectionLines, Title;
    InSectionIs(lines, h, i, named);
    SectionLine(lines, h, i, columns);
    assert RowAt(lines, i) by { CandidateIsRow(lines, i, named, columns); }
  }

  lemma CandidateIsRow(lines: seq<string>, i: nat, named: TitleTest, columns: Row)
    requires i < |lines| && Candidate(lines, i, named, columns)
    ensures RowAt(lines, i) && HeaderAt(lines, i, columns)
  {
  }

  lemma SectionHeader(lines: seq<string>, h: nat, j: nat, named: TitleTest, columns: Row)
    requires h < |lines| && Matched(lines, h, named)
    requires forall k :: 0 <= k < |lines| && k != h ==> !Matched(lines, k, named)
    requires j < |SectionLines(lines, h)| && HeaderAt(SectionLines(lines, h), j, columns)
    ensures h < h + j < |lines| && Candidate(lines, h + j, named, columns)
  {
    hide SectionLines;
    SectionLine(lines, h, h, columns);
    SectionLine(lines, h, h + j, columns);
    HeadingIsNoRow(lines[h]);
    InSectionIs(lines, h, h + j, named);
  }

  /** The rows that follow a line of the section are those of the whole text. */
  lemma SectionRows(lines: seq<string>, h: nat, from: nat, columns: Row)
    requires h < |lines| && AnyHeading(lines, h) && h <= from <= h + |SectionLines(lines, h)|
    ensures h + |SectionLines(lines, h)| <= |lines|
    ensures var s := SectionLines(lines, h);
      var e := RowEnd(s, from - h);
      h + e == RowEnd(lines, from) && RowCells(s, from - h, e) == RowCells(lines, from, h + e)
  {
    hide SectionLines, RowAt, HeaderAt, VisibleAt, Cells;
    var s := SectionLines(lines, h);
    SectionLine(lines, h, h, columns);
    var e := RowEnd(s, from - h);
    forall k | from <= k < h + e ensures s[k - h] == lines[k] && RowAt(lines, k) {
      SectionLine(lines, h, k, columns);
      assert RowAt(s, k - h);
    }
    if h + e < |lines| {
      SectionLine(lines, h, h + e, columns);
    }
    RowEndIs(lines, from, h + e);
  }

  lemma RowEndIs(lines: seq<string>, from: nat, e: nat)
    requires from <= e <= |lines| && (forall k :: from <= k < e ==> RowAt(lines, k)) && (e < |lines| ==> !RowAt(lines, e))
    ensures RowEnd(lines, from) == e
  {
    hide RowAt;
    var k := RowEnd(lines, from);
    assert k >= e && k <= e;
  }

  /** The reader succeeds only on a text with exactly one such table, and returns its rows. */
  lemma ReaderFinds(lines: seq<string>, named: TitleTest, columns: Row) returns (h: nat, i: nat, m: nat)
    requires StrictRows(lines, named, columns).Some?
    ensures TableAt(lines, h, i, m, named, columns)
    ensures StrictRows(lines, named, columns).value == RowCells(lines, i + 2, m)
  {
    hide SectionLines, VisibleAt, Cells, SeparatorRow, Headings, Headers, RowAt, HeaderAt, InSection, RowEnd, RowCells, Matched;
    h := Headings(lines, |lines|, named)[0];
    OnlyOf(lines, |lines|, named, h);
    MatchedIsHeading(lines, h, named);
    var s := SectionLines(lines, h);
    var j := Headers(s, |s|, columns)[0];
    OnlyHeader(s, |s|, columns, j);
    SectionHeader(lines, h, j, named, columns);
    i := h + j;
    SectionLine(lines, h, h, columns);
    SectionLine(lines, h, i + 1, columns);
    SectionRows(lines, h, i + 2, columns);
    m := h + RowEnd(s, j + 2);
    forall k | 0 <= k < |lines| && k != i ensures !Candidate(lines, k, named, columns) {
      if Candidate(lines, k, named, columns) {
        SectionTable(lines, h, k, named, columns);
      }
    }
    forall k | i + 2 <= k < m ensures RowAt(lines, k) && |Cells(lines[k])| == |columns| {
      assert RowCells(lines, i + 2, m)[k - (i + 2)] == Cells(lines[k]);
    }
  }

  lemma MatchedIsHeading(lines: seq<string>, h: nat, named: TitleTest)
    requires h < |lines| && Matched(lines, h, named)
    ensures AnyHeading(lines, h)
  {
  }

  /** The reader succeeds on every text with exactly one such table. */
  lemma ReaderTakes(lines: seq<string>, h: nat, i: nat, m: nat, named: TitleTest, columns: Row)
    requires TableAt(lines, h, i, m, named, columns)
    ensures StrictRows(lines, named, columns) == Some(RowCells(lines, i + 2, m))
  {
    hide SectionLines, VisibleAt, Cells, SeparatorRow, Headings, Headers, RowAt, HeaderAt, InSection, RowEnd, RowCells, Matched, Candidate, AnyHeading;
    OneHeading(lines, |lines|, named, h);
    MatchedIsHeading(lines, h, named);
    var s := SectionLines(lines, h);
    SectionTable(lines, h, i, named, columns);
    forall k | 0 <= k < |s| && k != i - h ensures !HeaderAt(s, k, columns) {
      if HeaderAt(s, k, columns) { SectionHeader(lines, h, k, named, columns); }
    }
    OneHeader(s, |s|, columns, i - h);
    TableInside(lines, h, i, m, named, columns);
    SectionLine(lines, h, h, columns);
    SectionLine(lines, h, i + 1, columns);
    SectionRows(lines, h, i + 2, columns);
    RowEndIs(lines, i + 2, m);
  }

  lemma TableInside(lines: seq<string>, h: nat, i: nat, m: nat, named: TitleTest, columns: Row)
    requires TableAt(lines, h, i, m, named, columns)
    ensures AnyHeading(lines, h) && i + 2 <= h + |SectionLines(lines, h)| && i + 1 <= NextHeading(lines, h + 1)
  {
    hide VisibleAt, Cells, SectionLines, SeparatorRow, HeaderAt, PipeRow, Title, InSection;
    InSectionIs(lines, h, i, named);
    SeparatorIsNoHeading(lines[i + 1], |columns|);
    CandidateIsRow(lines, i, named, columns);
    HeadingIsNoRow(lines[i]);
    SectionLine(lines, h, i, columns);
    SectionLine(lines, h, i + 1, columns);
  }

  /** The reader accepts a text exactly when it holds one unambiguous table. */
  lemma ReaderExact(lines: seq<string>, named: TitleTest, columns: Row)
    ensures StrictRows(lines, named, columns).Some? <==> exists h, i, m :: TableAt(lines, h, i, m, named, columns)
  {
    hide StrictRows, TableAt;
    if StrictRows(lines, named, columns).Some? {
      var h, i, m := ReaderFinds(lines, named, columns);
    }
    forall h, i, m | TableAt(lines, h, i, m, named, columns) ensures StrictRows(lines, named, columns).Some? {
      ReaderTakes(lines, h, i, m, named, columns);
    }
  }
}
