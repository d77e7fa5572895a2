/** Neutral front matter is exactly what makes a written verdict read back on every body: for any
    other front matter there is a body on which writer and reader disagree. */
module VerdictLaws {
  import opened Outcomes
  import opened Markdown
  import opened TableText
  import opened AcceptanceTable
  import opened Dates
  import opened VerdictLines
  import opened VerdictAgreement
  import opened VerdictRecord

  // ---- an empty table ----

  const HEADING := "## Verification"
  const DASHES: Row := ["-", "-", "-", "-", "-", "-"]

  function EmptyTable(): seq<string> {
    [HEADING, RowText(VERIFICATION_COLUMNS), RowText(DASHES)]
  }

  /** Lines without angle brackets that start with a bar or a number sign. */
  predicate Tame(line: string) {
    line != [] && line[0] in {'|', '#'} && '<' !in line && '-' != line[0] && '>' !in line
  }

  lemma TameNext(st: Scan, line: string)
    requires ScanOk(st) && Tame(line)
    ensures Next(st, line) == st && (Shows(st, line) <==> st == Plain)
  {
    assert OPEN_COMMENT[0] == '<' && CLOSE_COMMENT[2] == '>';
    if ContainsText(line, OPEN_COMMENT) {
      ContainedChar(line, OPEN_COMMENT, '<');
      assert false;
    }
    if ContainsText(line, CLOSE_COMMENT) {
      ContainedChar(line, CLOSE_COMMENT, '>');
      assert false;
    }
    assert FenceRun(line).None? by {
      assert Run(line, ' ') == 0 && line[0..] == line;
      assert Run(line, '`') == 0 && Run(line, '~') == 0;
    }
  }

  lemma {:induction false} TameAfter(st: Scan, lines: seq<string>)
    requires ScanOk(st) && forall k :: 0 <= k < |lines| ==> Tame(lines[k])
    ensures After(st, lines) == st
    decreases |lines|
  {
    hide Tame, Next;
    if lines != [] {
      TameNext(st, lines[0]);
      TameAfter(st, lines[1..]);
    }
  }

  // ---- the empty table is read as no rows, after anything tame that opens no section ----

  /** The title of `## text`. */
  lemma TitleOfText(line: string, text: string)
    requires line == "## " + text && Ended(text)
    ensures Title(line) == Some(text)
  {
    hide ShortestTitle;
    assert line[..2] == "##" && line[2] == ' ';
    var rest := line[2..];
    assert rest[0] == ' ' && rest[1..] == text;
    assert TrimLeft(text) == text;
    assert TrimLeft(rest) == TrimLeft(rest[1..]);
    WholeTitle(text, 1);
  }

  /** A text that neither starts nor ends in space, nor ends in a number sign. */
  predicate Ended(text: string) {
    text != [] && !IsSpace(text[0]) && !IsSpace(text[|text| - 1]) && text[|text| - 1] != '#'
  }

  lemma TitleOfHeading()
    ensures Title(HEADING) == Some("Verification") && Tame(HEADING)
  {
    hide Title;
    TitleOfText(HEADING, "Verification");
  }

  lemma {:induction false} TrimLeftKeepsEnd(s: string)
    requires s != [] && !IsSpace(s[|s| - 1])
    ensures var t := TrimLeft(s); t != [] && t[|t| - 1] == s[|s| - 1]
  {
    if IsSpace(s[0]) { TrimLeftKeepsEnd(s[1..]); }
  }

  lemma {:induction false} RunStops(s: string, c: char)
    requires s != [] && s[|s| - 1] != c
    ensures Run(s, c) < |s|
  {
    if s[0] == c { RunStops(s[1..], c); }
  }

  /** Such a text is its own shortest title. */
  lemma {:induction false} WholeTitle(s: string, from: nat)
    requires 1 <= from <= |s| && Ended(s)
    ensures ShortestTitle(s, from) == s
    decreases |s| - from
  {
    if from < |s| {
      var rest := s[from..];
      TrimLeftKeepsEnd(rest);
      var t := TrimLeft(rest);
      RunStops(t, '#');
      TrimLeftKeepsEnd(t[Run(t, '#')..]);
      WholeTitle(s, from + 1);
    } else {
      assert s[..from] == s;
    }
  }

  lemma TableLine(cells: Row)
    requires cells != [] && forall i :: 0 <= i < |cells| ==> CleanCell(cells[i]) && '<' !in cells[i] && '>' !in cells[i]
    ensures var row := RowText(cells);
      Tame(row) && Cells(row) == cells && PipeRow(row) && Title(row).None?
  {
    hide Cells, PipeRow, Title, Inner;
    CellsOfRow(cells);
    RowHasOnly(cells, '<');
    RowHasOnly(cells, '>');
    assert RowText(cells)[0] == '|';
  }

  lemma TableLines()
    ensures var header, dashes := RowText(VERIFICATION_COLUMNS), RowText(DASHES);
      && Tame(header) && Cells(header) == VERIFICATION_COLUMNS && PipeRow(header) && Title(header).None?
      && Tame(dashes) && Cells(dashes) == DASHES && PipeRow(dashes) && Title(dashes).None?
      && SeparatorRow(dashes, |VERIFICATION_COLUMNS|)
  {
    hide RowText, Cells, SeparatorRow, PipeRow, Title, Tame, CleanCell;
    ColumnsClean();
    TableLine(VERIFICATION_COLUMNS);
    TableLine(DASHES);
    DashesSeparate(DASHES);
  }

  lemma ColumnsClean()
    ensures forall i :: 0 <= i < 6 ==> CleanCell(VERIFICATION_COLUMNS[i]) && CleanCell(DASHES[i])
  {
    forall i | 0 <= i < 6 ensures CleanCell(VERIFICATION_COLUMNS[i]) && CleanCell(DASHES[i]) {
      Trimmed(VERIFICATION_COLUMNS[i]);
      Trimmed(DASHES[i]);
    }
  }

  lemma Trimmed(s: string)
    requires s != [] && !IsSpace(s[0]) && !IsSpace(s[|s| - 1])
    ensures Strip(s) == s
  {
  }

  lemma {:induction false} InnerHasOnly(cells: Row, c: char)
    requires cells != [] && c != ' ' && c != '|' && forall i :: 0 <= i < |cells| ==> c !in cells[i]
    ensures c !in Inner(cells)
  {
    if |cells| > 1 { InnerHasOnly(cells[1..], c); }
  }

  lemma RowHasOnly(cells: Row, c: char)
    requires cells != [] && c != ' ' && c != '|' && forall i :: 0 <= i < |cells| ==> c !in cells[i]
    ensures c !in RowText(cells)
  {
    InnerHasOnly(cells, c);
  }

  lemma DashesSeparate(dashes: Row)
    requires dashes != [] && forall i :: 0 <= i < |dashes| ==> dashes[i] == "-"
    ensures SeparatorRow(RowText(dashes), |dashes|)
  {
    hide Inner, Strip, SplitOn, DashCell;
    var t, inner := RowText(dashes), Inner(dashes);
    RowStripped(dashes);
    assert t[1..|t| - 1] == inner;
    SplitInner(dashes);
    DashIsDash();
  }

  lemma DashIsDash()
    ensures DashCell(" " + "-" + " ")
  {
    Trimmed("-");
    StripPadded("-");
  }

  /** Lines that hold no heading keep the section closed. */
  lemma {:induction false} NoSection(lines: seq<string>, k: nat, named: TitleTest)
    requires k <= |lines| && forall j :: 0 <= j < k ==> Title(lines[j]).None?
    ensures !InSection(lines, k, named)
  {
    hide Title;
    if k > 0 { NoSection(lines, k - 1, named); }
  }

  lemma EmptyTableAt(named: TitleTest)
    requires named("Verification")
    ensures TableAt(EmptyTable(), 0, 1, 3, named, VERIFICATION_COLUMNS)
  {
    hide Cells, SeparatorRow, PipeRow, Title, Tame, RowText, After, Next, Shows;
    var lines := EmptyTable();
    TitleOfHeading();
    TableLines();
    forall k | 0 <= k < 3 ensures VisibleAt(lines, k) {
      TameAfter(Plain, lines[..k]);
      TameNext(Plain, lines[k]);
    }
    HeadingIsNoRow(HEADING);
    assert Matched(lines, 0, named) && !Matched(lines, 1, named) && !Matched(lines, 2, named);
    assert InSection(lines, 1, named);
    assert !HeaderAt(lines, 2, VERIFICATION_COLUMNS) by { assert DASHES[0] != VERIFICATION_COLUMNS[0]; }
  }

  /** Rows in front of the heading do not change what the reader finds. */
  lemma RowsBeforeEmptyTable(front: seq<string>, named: TitleTest)
    requires named("Verification") && After(Plain, front) == Plain
    requires forall k :: 0 <= k < |front| ==> Title(front[k]).None?
    ensures StrictRows(front + EmptyTable(), named, VERIFICATION_COLUMNS) == Some([])
  {
    hide *;
    var lines := front + EmptyTable();
    EmptyTableAt(named);
    EmptyTableSize();
    RowsAreNeutral(front, named);
    forall k | 0 <= k < |front| ensures !Matched(lines, k, named) {
      NoHeadingLine(lines, k, named);
    }
    ShiftedTable(front, EmptyTable(), 0, 1, 3, named);
    ReaderTakes(lines, |front| + 0, |front| + 1, |front| + 3, named, VERIFICATION_COLUMNS);
  }

  lemma EmptyTableSize()
    ensures |EmptyTable()| == 3
  {
  }

  lemma NoHeadingLine(lines: seq<string>, k: nat, named: TitleTest)
    requires k < |lines| && Title(lines[k]).None?
    ensures !Matched(lines, k, named)
  {
  }

  lemma OutsideIsNoCandidate(lines: seq<string>, k: nat, named: TitleTest)
    requires k < |lines| && !InSection(lines, k, named)
    ensures !Candidate(lines, k, named, VERIFICATION_COLUMNS)
  {
    hide HeaderAt, InSection;
  }

  lemma RowsAreNeutral(front: seq<string>, named: TitleTest)
    requires After(Plain, front) == Plain && forall k :: 0 <= k < |front| ==> Title(front[k]).None?
    ensures Neutral(front, named)
  {
    hide *;
    NoSection(front, |front|, named);
    forall k | 0 <= k < |front| ensures !Candidate(front, k, named, VERIFICATION_COLUMNS) {
      NoSection(front, k, named);
      OutsideIsNoCandidate(front, k, named);
    }
    NeutralIs(front, named);
  }

  lemma NeutralIs(front: seq<string>, named: TitleTest)
    requires After(Plain, front) == Plain && !InSection(front, |front|, named)
    requires forall k :: 0 <= k < |front| ==> !Candidate(front, k, named, VERIFICATION_COLUMNS)
    ensures Neutral(front, named)
  {
    hide Candidate, InSection, After;
  }

  lemma ShiftedTable(front: seq<string>, body: seq<string>, h: nat, i: nat, m: nat, named: TitleTest)
    requires Neutral(front, named) && TableAt(body, h, i, m, named, VERIFICATION_COLUMNS)
    requires forall k :: 0 <= k < |front| ==> !Matched(front + body, k, named)
    ensures TableAt(front + body, |front| + h, |front| + i, |front| + m, named, VERIFICATION_COLUMNS)
  {
    hide Cells, SeparatorRow, RowAt, Candidate, Matched, VisibleAt, InSection, After;
    var lines, n := front + body, |front|;
    forall k | 0 <= k < |body|
      ensures SameLine(lines, n + k, body, k) && Matched(lines, n + k, named) == Matched(body, k, named)
      ensures RowAt(lines, n + k) == RowAt(body, k)
      ensures Candidate(lines, n + k, named, VERIFICATION_COLUMNS) == Candidate(body, k, named, VERIFICATION_COLUMNS)
    {
      NeutralLine(front, body, k, named);
    }
    forall k | 0 <= k < |lines| && k != n + h ensures !Matched(lines, k, named) {
      if k >= n { assert !Matched(body, k - n, named); }
    }
    forall k | 0 <= k < |lines| && k != n + i ensures !Candidate(lines, k, named, VERIFICATION_COLUMNS) {
      if k < n { CandidateInFront(front, body, k, named); } else { assert !Candidate(body, k - n, named, VERIFICATION_COLUMNS); }
    }
    forall k | n + i + 2 <= k < n + m ensures RowAt(lines, k) && |Cells(lines[k])| == |VERIFICATION_COLUMNS| {
      assert RowAt(body, k - n) && SameLine(lines, n + (k - n), body, k - n);
    }
    NeutralLine(front, body, i + 1, named);
  }

  // ---- front matter that is not neutral fails on some body ----

  /** The file after writing reads as an empty table, so the verdict is not found in it. */
  lemma NotFound(front: seq<string>, body: seq<string>, after: seq<string>, from: seq<string>, v: Verdict, named: TitleTest)
    requires FrontMatter(after) && AsDate(v.observed).Some?
    requires StrictRows(body, named, VERIFICATION_COLUMNS) == Some([]) && StrictRows(from, named, VERIFICATION_COLUMNS) == Some([])
    requires Written(front + body, v, named) == Some(BothBumped(after + from, v.observed))
    ensures !Agrees(front, body, v, named)
  {
    hide FrontMatter, AsDate, BothBumped, StrictRows, Reread, Written, VerdictCells;
    BothBumpedFront(after, from, v.observed);
    RereadIs(BothBumped(after, v.observed), from, named);
    assert |Updated([], VerdictCells(v))| == 1;
  }

  lemma EmptyTableRead(named: TitleTest)
    requires named("Verification")
    ensures StrictRows(EmptyTable(), named, VERIFICATION_COLUMNS) == Some([])
  {
    hide *;
    AfterNothing();
    RowsBeforeEmptyTable([], named);
    assert [] + EmptyTable() == EmptyTable();
  }

  lemma DelimiterIsNoRow(lines: seq<string>, k: nat)
    requires k < |lines| && lines[k] in {DELIMITER, HEADING}
    ensures !RowAt(lines, k)
  {
    if lines[k] == HEADING {
      TitleOfHeading();
      HeadingIsNoRow(HEADING);
    }
  }

  lemma RowIsNoDelimiter(cells: Row)
    requires cells != []
    ensures RowText(cells) != DELIMITER
  {
    assert RowText(cells)[0] == '|';
  }

  lemma SplicedFront(front: seq<string>, body: seq<string>, k: nat, x: nat, row: string)
    requires FrontMatter(front) && 1 <= k && k + x < |front| && x <= 1 && row != DELIMITER
    ensures FrontMatter(Splice(front, k, x, row))
    ensures Splice(front + body, k, x, row) == Splice(front, k, x, row) + body
  {
  }

  /** Where the writer goes when it finds a header in the front matter. */
  lemma FrontHeader(front: seq<string>, body: seq<string>, c: nat, named: TitleTest)
    requires FrontMatter(front) && c < |front| && Candidate(front, c, named, VERIFICATION_COLUMNS)
    requires body != [] && body[0] == HEADING
    ensures var lines := front + body;
      var d := FirstCandidate(lines, 0, named);
      d < |lines| && d + 2 <= |front| && var e := RowEnd(lines, d + 2); e < |front| || (e == |front| == d + 2)
  {
    hide Candidate, RowAt, After;
    var lines := front + body;
    CandidateInFront(front, body, c, named);
    var d := FirstCandidate(lines, 0, named);
    assert d <= c;
    DelimiterIsNoRow(lines, |front| - 1);
    DelimiterIsNoRow(lines, |front|);
    CandidateIsRow(lines, d, named, VERIFICATION_COLUMNS);
    var e := RowEnd(lines, d + 2);
    if d + 2 < |front| {
      assert e <= |front| - 1;
    }
  }

  lemma EmptyTableStarts()
    ensures |EmptyTable()| == 3 && EmptyTable()[0] == HEADING
  {
  }

  lemma HeaderInFront(front: seq<string>, c: nat, v: Verdict, named: TitleTest)
    requires FrontMatter(front) && CleanVerdict(v) && named("Verification")
    requires c < |front| && Candidate(front, c, named, VERIFICATION_COLUMNS)
    ensures !Agrees(front, EmptyTable(), v, named)
  {
    hide *;
    var lines, row, key := front + EmptyTable(), RowText(VerdictCells(v)), Decimal(v.index);
    CleanHasDate(v);
    EmptyTableRead(named);
    EmptyTableStarts();
    FrontHeader(front, EmptyTable(), c, named);
    var d := FirstCandidate(lines, 0, named);
    UnderIs(lines, d);
    var e := RowEnd(lines, d + 2);
    var k := FirstKeyed(lines, d + 2, e, key);
    PlacedIs(lines, d, key, row, d + 2, e, k);
    WrittenUnfolds(lines, v, named);
    RowIsNoDelimiter(VerdictCells(v));
    if e < |front| {
      var x := if k < e then 1 else 0;
      SplicedFront(front, EmptyTable(), k, x, row);
      NotFound(front, EmptyTable(), Splice(front, k, x, row), EmptyTable(), v, named);
    } else {
      SpliceAtEnd(front, EmptyTable(), row);
      VerdictRowIsTame(v);
      RowsBeforeEmptyTable([row], named);
      NotFound(front, EmptyTable(), front, [row] + EmptyTable(), v, named);
    }
  }

  lemma CleanHasDate(v: Verdict)
    requires CleanVerdict(v)
    ensures AsDate(v.observed).Some?
  {
    hide AsDate, CleanCell, ContainsText;
  }

  lemma UnderIs(lines: seq<string>, c: nat)
    requires c + 2 <= |lines|
    ensures Under(lines, c) == c + 2
  {
  }

  lemma SpliceAtEnd(front: seq<string>, body: seq<string>, row: string)
    ensures Splice(front + body, |front|, 0, row) == front + ([row] + body)
  {
  }

  lemma VerdictRowIsTame(v: Verdict)
    requires CleanVerdict(v)
    ensures var row := RowText(VerdictCells(v)); Title(row).None? && After(Plain, [row]) == Plain && Next(Plain, row) == Plain
  {
    hide RowText, Cells, VerdictCells, Shows, Next, PipeRow, Title, CleanRow;
    CleanVerdictRow(v);
    CleanRowIsData(VerdictCells(v));
    assert Inert(RowText(VerdictCells(v)));
    AfterOne(RowText(VerdictCells(v)));
  }

  lemma AfterOne(line: string)
    ensures After(Plain, [line]) == Next(Plain, line)
  {
    hide Next;
    var one := [line];
    assert one[1..] == [];
    assert After(Plain, one) == After(Next(Plain, line), one[1..]);
  }

  // an open section

  lemma SectionLeftOpen(front: seq<string>, v: Verdict, named: TitleTest)
    requires FrontMatter(front) && CleanVerdict(v) && named("Verification")
    requires After(Plain, front) == Plain && InSection(front, |front|, named)
    requires forall k :: 0 <= k < |front| ==> !Candidate(front, k, named, VERIFICATION_COLUMNS)
    ensures !Agrees(front, Table() + EmptyTable(), v, named)
  {
    hide *;
    var body, row, key := Table() + EmptyTable(), RowText(VerdictCells(v)), Decimal(v.index);
    CleanHasDate(v);
    TableIsTame(named);
    TableSize();
    EmptyTableSize();
    RowsBeforeEmptyTable(Table(), named);
    TableIsFirst();
    OpenSectionHeader(front, body, named);
    var lines, c := front + body, |front|;
    UnderIs(lines, c);
    var k := FirstKeyed(lines, c + 2, c + 2, key);
    PlacedIs(lines, c, key, row, c + 2, c + 2, k);
    WrittenUnfolds(lines, v, named);
    SpliceInside(front, Table(), EmptyTable(), row);
    VerdictRowIsTame(v);
    OneMore(Table(), row);
    RowsBeforeEmptyTable(Table() + [row], named);
    NotFound(front, body, front, (Table() + [row]) + EmptyTable(), v, named);
  }

  function Table(): seq<string> {
    [RowText(VERIFICATION_COLUMNS), RowText(DASHES)]
  }

  lemma TableSize()
    ensures |Table()| == 2
  {
  }

  lemma TableIsTame(named: TitleTest)
    ensures After(Plain, Table()) == Plain && forall k :: 0 <= k < |Table()| ==> Title(Table()[k]).None?
  {
    hide Cells, SeparatorRow, PipeRow, Title, Tame, RowText, After;
    TableLines();
    TameAfter(Plain, Table());
  }

  lemma SpliceInside(front: seq<string>, a: seq<string>, b: seq<string>, row: string)
    ensures Splice(front + (a + b), |front| + |a|, 0, row) == front + ((a + [row]) + b)
  {
  }

  lemma OneMore(a: seq<string>, row: string)
    requires After(Plain, a) == Plain && (forall k :: 0 <= k < |a| ==> Title(a[k]).None?) && Title(row).None? && Next(Plain, row) == Plain
    ensures After(Plain, a + [row]) == Plain && forall k :: 0 <= k < |a| + 1 ==> Title((a + [row])[k]).None?
  {
    hide Next, Title;
    AfterConcat(Plain, a, [row]);
    AfterOne(row);
  }

  /** A body that starts with a table outside its own section. */
  predicate TableFirst(body: seq<string>) {
    |body| >= 3 && body[0] == RowText(VERIFICATION_COLUMNS) && body[1] == RowText(DASHES) && body[2] == HEADING
  }

  lemma TableIsFirst()
    ensures TableFirst(Table() + EmptyTable()) && |Table() + EmptyTable()| == 5
  {
    hide RowText;
  }

  lemma TableHeaderShown(body: seq<string>)
    requires TableFirst(body)
    ensures HeaderAt(body, 0, VERIFICATION_COLUMNS)
  {
    hide Cells, SeparatorRow, PipeRow, Title, Tame, RowText, After, Shows;
    TableLines();
    AfterNothing();
    assert body[..0] == [];
    TameNext(Plain, body[0]);
  }

  lemma TableFirstAfter(front: seq<string>, body: seq<string>)
    requires TableFirst(body)
    ensures |front + body| >= |front| + 3 && (front + body)[|front| + 2] == HEADING
  {
    hide RowText;
  }

  lemma HeaderIsCandidate(lines: seq<string>, k: nat, named: TitleTest)
    requires k < |lines| && HeaderAt(lines, k, VERIFICATION_COLUMNS) && InSection(lines, k, named)
    ensures Candidate(lines, k, named, VERIFICATION_COLUMNS)
  {
    hide HeaderAt, InSection;
  }

  lemma OpenSectionHeader(front: seq<string>, body: seq<string>, named: TitleTest)
    requires After(Plain, front) == Plain && InSection(front, |front|, named) && TableFirst(body)
    requires forall k :: 0 <= k < |front| ==> !Candidate(front, k, named, VERIFICATION_COLUMNS)
    ensures var lines := front + body;
      FirstCandidate(lines, 0, named) == |front| && |lines| >= |front| + 3 && RowEnd(lines, |front| + 2) == |front| + 2
  {
    hide *;
    var lines := front + body;
    forall k | 0 <= k < |front| ensures !Candidate(lines, k, named, VERIFICATION_COLUMNS) {
      CandidateInFront(front, body, k, named);
    }
    SectionInFront(front, body, |front|, named);
    TableHeaderShown(body);
    TableFirstAfter(front, body);
    SuffixSame(front, body, 0);
    SameLineReads(lines, |front|, body, 0, named, VERIFICATION_COLUMNS);
    HeaderIsCandidate(lines, |front|, named);
    FirstCandidateIs(lines, |front|, named);
    DelimiterIsNoRow(lines, |front| + 2);
    RowEndIs(lines, |front| + 2, |front| + 2);
  }

  // a block left open

  lemma BlockLeftOpen(front: seq<string>, v: Verdict, named: TitleTest)
    requires FrontMatter(front) && CleanVerdict(v) && named("Verification") && After(Plain, front) != Plain
    requires forall k :: 0 <= k < |front| ==> !Candidate(front, k, named, VERIFICATION_COLUMNS)
    ensures !Agrees(front, EmptyTable(), v, named)
  {
    hide *;
    CleanHasDate(v);
    EmptyTableRead(named);
    EmptyTableIsTame();
    var lines := front + EmptyTable();
    forall k | 0 <= k < |lines| ensures !Candidate(lines, k, named, VERIFICATION_COLUMNS) {
      if k < |front| {
        CandidateInFront(front, EmptyTable(), k, named);
      } else {
        HiddenAfter(front, EmptyTable(), k - |front|, named);
      }
    }
    FirstCandidateIs(lines, |lines|, named);
    WrittenUnfolds(lines, v, named);
    NotWritten(front, EmptyTable(), v, named);
  }

  lemma NotWritten(front: seq<string>, body: seq<string>, v: Verdict, named: TitleTest)
    requires AsDate(v.observed).Some? && StrictRows(body, named, VERIFICATION_COLUMNS).Some?
    requires Written(front + body, v, named).None?
    ensures !Agrees(front, body, v, named)
  {
    hide AsDate, StrictRows, Written;
  }

  lemma HiddenAfter(front: seq<string>, body: seq<string>, k: nat, named: TitleTest)
    requires After(Plain, front) != Plain && k < |body| && forall j :: 0 <= j < k ==> Tame(body[j])
    ensures !Candidate(front + body, |front| + k, named, VERIFICATION_COLUMNS)
  {
    hide Cells, SeparatorRow, PipeRow, Title, Tame, RowText, After, InSection, Next;
    assert (front + body)[..|front| + k] == front + body[..k];
    AfterConcat(Plain, front, body[..k]);
    TameAfter(After(Plain, front), body[..k]);
  }

  lemma EmptyTableIsTame()
    ensures |EmptyTable()| == 3 && forall j :: 0 <= j < 3 ==> Tame(EmptyTable()[j])
  {
    hide Cells, SeparatorRow, PipeRow, Title, Tame, RowText;
    TitleOfHeading();
    TableLines();
  }

  /** Written verdicts read back on every body exactly when the front matter is neutral. */
  lemma AgreementExactly(front: seq<string>, v: Verdict, named: TitleTest)
    requires FrontMatter(front) && CleanVerdict(v) && named("Verification")
    ensures Neutral(front, named) <==> forall body :: Agrees(front, body, v, named)
  {
    hide FrontMatter, CleanVerdict, Candidate, Agrees, After, InSection;
    CleanHasDate(v);
    if Neutral(front, named) {
      forall body ensures Agrees(front, body, v, named) { NeutralAgrees(front, body, v, named); }
    } else if c :| 0 <= c < |front| && Candidate(front, c, named, VERIFICATION_COLUMNS) {
      HeaderInFront(front, c, v, named);
    } else if After(Plain, front) == Plain {
      SectionLeftOpen(front, v, named);
    } else {
      BlockLeftOpen(front, v, named);
    }
  }
}
