/** A documentation set that the done gate accepts although the verdict names a digest of nothing:
    the candidate in the record's front matter is a number of forty digits. */
module DoneGateWitness {
  import opened Outcomes
  import opened Markdown
  import opened TableText
  import opened AcceptanceTable
  import opened VerdictLines
  import opened VerdictLaws
  import opened VerdictWitness
  import opened Criteria
  import opened Sorting
  import opened DoneGate
  import opened DoneGateLaws
  import opened DoneGatePromises
  import opened DoneGateSound

  const FIVE_DASHES: Row := ["-", "-", "-", "-", "-"]
  const BUILDER_ROW: Row := ["1", "file", "x", "2024-01-01", "s"]
  const VERDICT_ROW: Row := ["1", "satisfied", "run1", "wrong", "2024-01-01", "ok"]
  const BUILDER_HEADING := "## Builder evidence"

  function Body(): (lines: seq<string>)
    ensures |lines| == 8
  {
    [BUILDER_HEADING, RowText(BUILDER_COLUMNS), RowText(FIVE_DASHES), RowText(BUILDER_ROW),
     HEADING, RowText(VERIFICATION_COLUMNS), RowText(DASHES), RowText(VERDICT_ROW)]
  }

  const ISSUE_HEADING := "## Acceptance"
  const CRITERION := "- [x] Done"

  function Digits(): (s: string)
    ensures |s| == 40 && forall i :: 0 <= i < 40 ==> s[i] == '1'
  {
    seq(40, _ => '1')
  }

  function IssueDoc(): Document {
    Document("issue.md", Issue, "done", "AR-01", Text(""), None, [], None, [ISSUE_HEADING, CRITERION])
  }

  function RecordDoc(): Document {
    Document(RecordPath("AR-01"), AcceptanceRecord, "active", "AR-01", Other(Digits()), Some(20240101), ["issue.md"], None, Body())
  }

  /** No commit exists, no source is found, and every digest is "right". */
  function Nowhere(): World {
    World((c, i, t, e) => "right", s => false, s => false, (k, s, c) => false, s => s)
  }

  function SectionTitles(): Titles {
    Titles(s => s == "Acceptance", s => s == "Builder evidence", s => s == "Verification")
  }

  // ---- the lines of the record ----

  lemma CellClean(cell: string)
    requires cell != [] && !IsSpace(cell[0]) && !IsSpace(cell[|cell| - 1]) && '|' !in cell && '<' !in cell && '>' !in cell
    ensures CellFine(cell)
  {
    Trimmed(cell);
  }

  predicate CellFine(cell: string) {
    CleanCell(cell) && '<' !in cell && '>' !in cell
  }

  lemma BuilderColumnsClean()
    ensures forall i :: 0 <= i < 5 ==> CellFine(BUILDER_COLUMNS[i])
  {
    forall i | 0 <= i < 5 ensures CellFine(BUILDER_COLUMNS[i]) { CellClean(BUILDER_COLUMNS[i]); }
  }

  lemma BuilderRowClean()
    ensures forall i :: 0 <= i < 5 ==> CellFine(BUILDER_ROW[i]) && CellFine(FIVE_DASHES[i])
  {
    forall i | 0 <= i < 5 ensures CellFine(BUILDER_ROW[i]) && CellFine(FIVE_DASHES[i]) {
      CellClean(BUILDER_ROW[i]);
      CellClean(FIVE_DASHES[i]);
    }
  }

  lemma VerdictRowClean()
    ensures forall i :: 0 <= i < 6 ==> CellFine(VERDICT_ROW[i])
  {
    forall i | 0 <= i < 6 ensures CellFine(VERDICT_ROW[i]) { CellClean(VERDICT_ROW[i]); }
  }

  /** A line of the table: tame, a row with these cells, and no heading. */
  predicate RowLine(line: string, cells: Row) {
    Tame(line) && Cells(line) == cells && PipeRow(line) && Title(line).None?
  }

  predicate HeadingLine(line: string, title: string) {
    Tame(line) && Title(line) == Some(title) && !PipeRow(line)
  }

  lemma IsRowLine(cells: Row)
    requires cells != [] && forall i :: 0 <= i < |cells| ==> CellFine(cells[i])
    ensures RowLine(RowText(cells), cells)
  {
    hide RowText, Cells, PipeRow, Title, Tame, CleanCell;
    TableLine(cells);
  }

  lemma IsHeadingLine(line: string, title: string)
    requires line == "## " + title && Ended(title) && '<' !in title && '>' !in title
    ensures HeadingLine(line, title)
  {
    TitleOfText(line, title);
    HeadingIsNoRow(line);
  }

  predicate BodyTables(b: seq<string>) {
    && |b| == 8
    && HeadingLine(b[0], "Builder evidence") && RowLine(b[1], BUILDER_COLUMNS) && RowLine(b[2], FIVE_DASHES)
    && RowLine(b[3], BUILDER_ROW) && HeadingLine(b[4], "Verification") && RowLine(b[5], VERIFICATION_COLUMNS)
    && RowLine(b[6], DASHES) && RowLine(b[7], VERDICT_ROW)
    && SeparatorRow(b[2], 5) && SeparatorRow(b[6], 6)
  }

  lemma BodyLines()
    ensures BodyTables(Body())
  {
    hide RowText, RowLine, HeadingLine, CellFine, SeparatorRow, Title, Ended;
    BuilderColumnsClean();
    BuilderRowClean();
    VerdictRowClean();
    VerificationColumnsClean();
    IsRowLine(BUILDER_COLUMNS);
    IsRowLine(FIVE_DASHES);
    IsRowLine(BUILDER_ROW);
    IsRowLine(VERIFICATION_COLUMNS);
    IsRowLine(DASHES);
    IsRowLine(VERDICT_ROW);
    DashesSeparate(FIVE_DASHES);
    DashesSeparate(DASHES);
    BodyHeadings();
  }

  lemma VerificationColumnsClean()
    ensures forall i :: 0 <= i < 6 ==> CellFine(VERIFICATION_COLUMNS[i]) && CellFine(DASHES[i])
  {
    hide CleanCell;
    ColumnsClean();
  }

  lemma BodyHeadings()
    ensures HeadingLine(BUILDER_HEADING, "Builder evidence") && HeadingLine(HEADING, "Verification")
  {
    hide HeadingLine;
    assert BUILDER_HEADING == "## " + "Builder evidence" && HEADING == "## " + "Verification";
    IsHeadingLine(BUILDER_HEADING, "Builder evidence");
    IsHeadingLine(HEADING, "Verification");
  }

  lemma {:induction false} TameIsVisible(lines: seq<string>, k: nat)
    requires k < |lines| && forall j :: 0 <= j < |lines| ==> Tame(lines[j])
    ensures VisibleAt(lines, k)
  {
    hide Tame, After, Shows, Next;
    TameAfter(Plain, lines[..k]);
    TameNext(Plain, lines[k]);
  }

  /** Eight visible lines with a heading at `h` and a table of one row under it, the only heading
      with that title and the only header with these columns. */
  predicate Section(b: seq<string>, h: nat, named: TitleTest, columns: Row, row: Row) {
    && h in {0, 4} && |b| == 8 && |row| == |columns|
    && (forall j :: 0 <= j < 8 ==> VisibleAt(b, j))
    && Title(b[h]).Some? && named(Title(b[h]).value)
    && (forall j :: 0 <= j < 8 && j != h && Title(b[j]).Some? ==> !named(Title(b[j]).value))
    && (forall j :: 0 <= j < 8 && j != h + 1 ==> !PipeRow(b[j]) || Cells(b[j]) != columns)
    && PipeRow(b[h + 1]) && Cells(b[h + 1]) == columns && SeparatorRow(b[h + 2], |columns|)
    && PipeRow(b[h + 3]) && Cells(b[h + 3]) == row && !PipeRow(b[4])
  }

  lemma SectionTable(b: seq<string>, h: nat, named: TitleTest, columns: Row, row: Row)
    requires Section(b, h, named, columns, row)
    ensures TableAt(b, h, h + 1, h + 4, named, columns)
  {
    hide Title, PipeRow, Cells, SeparatorRow, VisibleAt;
    assert InSection(b, h + 1, named) by {
      assert Matched(b, h, named);
      SectionStep(b, h, named);
    }
    hide InSection;
    forall k | 0 <= k < |b| && k != h ensures !Matched(b, k, named) { }
    forall k | 0 <= k < |b| && k != h + 1 ensures !Candidate(b, k, named, columns) { }
  }

  lemma SectionRead(b: seq<string>, h: nat, named: TitleTest, columns: Row, row: Row)
    requires Section(b, h, named, columns, row)
    ensures StrictRows(b, named, columns) == Some([row])
  {
    hide Title, PipeRow, SeparatorRow, VisibleAt, Cells, StrictRows, TableAt;
    SectionTable(b, h, named, columns, row);
    ReaderTakes(b, h, h + 1, h + 4, named, columns);
    assert RowCells(b, h + 3, h + 4) == [row];
  }

  lemma BodySeen()
    ensures forall j :: 0 <= j < 8 ==> VisibleAt(Body(), j)
  {
    hide Title, PipeRow, Cells, SeparatorRow, Tame, VisibleAt, Body;
    BodyLines();
    forall k | 0 <= k < 8 ensures VisibleAt(Body(), k) { TameIsVisible(Body(), k); }
  }

  lemma BodySections()
    ensures Section(Body(), 0, SectionTitles().builder, BUILDER_COLUMNS, BUILDER_ROW)
    ensures Section(Body(), 4, SectionTitles().verification, VERIFICATION_COLUMNS, VERDICT_ROW)
  {
    hide Title, PipeRow, Cells, SeparatorRow, Tame, VisibleAt, Body;
    BodyLines();
    BodySeen();
    ColumnsDiffer();
    assert "Builder evidence"[0] == 'B' && "Verification"[0] == 'V';
  }

  lemma ColumnsDiffer()
    ensures VERIFICATION_COLUMNS != DASHES && VERDICT_ROW != VERIFICATION_COLUMNS
    ensures FIVE_DASHES != BUILDER_COLUMNS && BUILDER_ROW != BUILDER_COLUMNS
  {
    assert VERIFICATION_COLUMNS[0] == "Criterion" && DASHES[0] == "-" && VERDICT_ROW[0] == "1";
    assert BUILDER_COLUMNS[0] == "Criterion" && FIVE_DASHES[0] == "-" && BUILDER_ROW[0] == "1";
    assert "Criterion"[0] == 'C' && "-"[0] == '-' && "1"[0] == '1';
  }

  /** Both tables of the record are read. */
  lemma TablesRead()
    ensures BuilderTable(RecordDoc(), SectionTitles()) == Some([BUILDER_ROW])
    ensures VerificationTable(RecordDoc(), SectionTitles()) == Some([VERDICT_ROW])
  {
    hide Section, StrictRows, Body;
    BodySections();
    SectionRead(Body(), 0, SectionTitles().builder, BUILDER_COLUMNS, BUILDER_ROW);
    SectionRead(Body(), 4, SectionTitles().verification, VERIFICATION_COLUMNS, VERDICT_ROW);
  }

  // ---- the issue ----

  lemma {:induction false} NoTabs(line: string, column: nat)
    requires '\t' !in line
    ensures ExpandTabs(line, column) == line
  {
    if line != [] {
      NoTabs(line[1..], column + 1);
      assert [line[0]] + line[1..] == line;
    }
  }

  lemma LeadingSpace(s: string)
    requires s != [] && !IsSpace(s[0])
    ensures TrimLeft(" " + s) == s && TrimLeft(s) == s
  {
    assert (" " + s)[1..] == s;
  }

  lemma BoxOfCriterion()
    ensures AfterBox(CRITERION) == Some(" Done")
  {
    hide TrimLeft, DigitRun;
    var box := "[x] Done";
    LeadingSpace(box);
    assert CRITERION[1..] == " " + box;
    assert AfterBullet(CRITERION) == Some(" " + box);
    assert box[3..] == " Done";
  }

  lemma TextOfCriterion()
    ensures CriterionText(CRITERION) == Some("Done")
  {
    hide TrimLeft, AfterBox;
    BoxOfCriterion();
    LeadingSpace("Done");
    assert " " + "Done" == " Done";
  }

  /** A line without tabs or blanks at its ends that is shown. */
  predicate PlainLine(line: string) {
    ExpandTabs(line, 0) == line && Strip(line) != [] && Shows(Plain, line) && Next(Plain, line) == Plain
  }

  lemma IsPlainLine(line: string)
    requires line != [] && line[0] !in {' ', '`', '~'} && '<' !in line && '\t' !in line
    requires !IsSpace(line[0]) && !IsSpace(line[|line| - 1])
    ensures PlainLine(line)
  {
    hide ExpandTabs, Strip, Shows, Next;
    NoTabs(line, 0);
    Trimmed(line);
    PlainShown(line);
    ShownIsInert(Plain, line);
  }

  lemma CriterionLine()
    ensures CriterionText(CRITERION) == Some("Done") && PlainLine(CRITERION) && Title(CRITERION).None?
  {
    hide CriterionText, PlainLine;
    TextOfCriterion();
    IsPlainLine(CRITERION);
    assert CRITERION[..2][0] == '-';
  }

  lemma PlainShown(line: string)
    requires line != [] && line[0] !in {' ', '`', '~'} && '<' !in line
    ensures Shows(Plain, line)
  {
    assert OPEN_COMMENT[0] == '<';
    if ContainsText(line, OPEN_COMMENT) { ContainedChar(line, OPEN_COMMENT, '<'); }
    assert Run(line, ' ') == 0 && line[0..] == line && Run(line, '`') == 0 && Run(line, '~') == 0;
  }

  lemma HeadingIsNoMarker()
    ensures CriterionText(ISSUE_HEADING).None? && !AnyMarker(ISSUE_HEADING)
  {
    assert DigitRun(ISSUE_HEADING) == 0;
    assert AfterBullet(ISSUE_HEADING).None?;
    assert TrimLeft(ISSUE_HEADING) == ISSUE_HEADING;
  }

  lemma IssueHeadingLine()
    ensures Title(ISSUE_HEADING) == Some("Acceptance") && PlainLine(ISSUE_HEADING)
    ensures CriterionText(ISSUE_HEADING).None? && !AnyMarker(ISSUE_HEADING)
  {
    hide Title, PlainLine, CriterionText, AnyMarker;
    assert ISSUE_HEADING == "## " + "Acceptance";
    TitleOfText(ISSUE_HEADING, "Acceptance");
    IsPlainLine(ISSUE_HEADING);
    HeadingIsNoMarker();
  }

  function IssueBody(): seq<string> {
    [ISSUE_HEADING, CRITERION]
  }

  lemma IssueShown()
    ensures VisibleAt(IssueBody(), 0) && VisibleAt(IssueBody(), 1)
  {
    hide Title, Shows, Next, CriterionText, AnyMarker, ExpandTabs, Strip, After;
    var b := IssueBody();
    IssueHeadingLine();
    CriterionLine();
    AfterNothing();
    AfterNext(b, 0);
  }

  lemma IssueLines(named: TitleTest)
    requires named("Acceptance")
    ensures Headings(IssueBody(), 2, named) == [0] && SectionLines(IssueBody(), 0) == IssueBody()
  {
    hide Title, VisibleAt, CriterionText, AnyMarker, PlainLine;
    var b := IssueBody();
    IssueHeadingLine();
    CriterionLine();
    IssueShown();
    assert Matched(b, 0, named) && !AnyHeading(b, 1) && !Matched(b, 1, named);
    hide AnyHeading, Matched;
    OneHeading(b, 2, named, 0);
    assert NextHeading(b, 1) == 2;
    assert b[0..2] == b && b[1] != [];
  }

  lemma IssueCriteriaAre()
    ensures CriteriaOf(IssueBody()) == (["Done"], [])
  {
    hide Title, Shows, Next, VisibleAt, CriterionText, AnyMarker, ExpandTabs, Strip, After;
    var b := IssueBody();
    IssueHeadingLine();
    CriterionLine();
    IssueShown();
    assert Scanned(b, 0) == Found([], [], false);
    assert Scanned(b, 1) == Found([], [], false);
    assert [] + ["Done"] == ["Done"];
    assert Scanned(b, 2) == Found(["Done"], [], true);
  }

  lemma IssueRead()
    ensures IssueCriteria(IssueDoc(), SectionTitles().acceptance) == (Some(["Done"]), [])
  {
    hide Title, VisibleAt, CriteriaOf, SectionLines, Headings;
    IssueLines(SectionTitles().acceptance);
    IssueCriteriaAre();
    assert IssueDoc().body == IssueBody();
  }

  // ---- the rows ----

  function Judge(): Judging {
    Judging(Nowhere(), ["Done"], None, Some(20240101))
  }

  const THE_BUILDER_ROW := BuilderRow("1", "file", "x", "2024-01-01", "s")
  const THE_VERDICT_ROW := VerdictRow("1", "satisfied", "run1", "wrong", "2024-01-01", "ok")

  lemma FirstCriterion()
    ensures CriterionIndex("1", 1) == Some(1)
  {
    assert "1"[..0] == "";
    assert Number("1") == Some(1);
  }

  lemma Words()
    ensures Unticked("x") == "x" && Unticked("run1") == "run1" && Unticked("wrong") == "wrong"
  {
  }

  lemma DatesFine()
    ensures DateFaults("2024-01-01", 1, Some(20240101)) == []
  {
    hide AsDate;
    VerdictDate();
  }

  lemma BuilderRowFine()
    ensures BuilderFaults(THE_BUILDER_ROW, 1, Judge()) == []
  {
    hide DateFaults, Unticked;
    Words();
    DatesFine();
  }

  lemma BuilderScanned()
    ensures var st := BuilderScan([THE_BUILDER_ROW], 1, Judge());
      st == Built(map[1 := [THE_BUILDER_ROW]], []) && GroupFaults(st.groups, 1) == []
  {
    hide BuilderFaults, CriterionIndex;
    BuilderRowFine();
    FirstCriterion();
    var rows: seq<BuilderRow> := [THE_BUILDER_ROW];
    var groups: map<nat, seq<BuilderRow>> := map[1 := rows];
    assert BuilderScan(rows, 0, Judge()) == Built(map[], []);
    assert BuilderScan(rows, 1, Judge()) == BuilderStep(Built(map[], []), rows[0], Judge());
    assert [] + rows == rows;
    assert GroupFaults(groups, 0) == [];
  }

  lemma VerdictRowFine()
    ensures VerdictFaults(THE_VERDICT_ROW, 1, Some([THE_BUILDER_ROW]), Judge()) == []
  {
    hide DateFaults, Unticked, EvidenceDigest;
    DatesFine();
  }

  lemma RunFine()
    ensures RunIdText("run1")
  {
  }

  lemma VerdictScanned()
    ensures VerdictScan([THE_VERDICT_ROW], 1, map[1 := [THE_BUILDER_ROW]], Judge())
         == Judged(map[1 := THE_VERDICT_ROW], map["run1" := 1], [])
  {
    hide VerdictFaults, CriterionIndex, RunIdText, Unticked;
    VerdictRowFine();
    FirstCriterion();
    RunFine();
    Words();
    var groups: map<nat, seq<BuilderRow>> := map[1 := [THE_BUILDER_ROW]];
    assert Builder(groups, 1) == Some([THE_BUILDER_ROW]);
    assert VerdictScan([THE_VERDICT_ROW], 0, groups, Judge()) == Judged(map[], map[], []);
  }

  // ---- the record and the gate ----

  function State(): RecordState {
    RecordState(["Done"], map[1 := [THE_BUILDER_ROW]], map[1 := THE_VERDICT_ROW], None)
  }

  lemma RowsAre()
    ensures BuilderRows([BUILDER_ROW]) == [THE_BUILDER_ROW] && VerdictRows([VERDICT_ROW]) == [THE_VERDICT_ROW]
  {
  }

  lemma SchemaIsClean()
    ensures SchemaFaults(RecordDoc()) == []
  {
    hide Body;
    assert "AR-01"[..3] == "AR-" && "AR-01"[3..] == "01";
    TwoDigits("01", 0, 1);
  }

  lemma RecordIsClean()
    ensures RecordFaults(RecordDoc(), IssueDoc(), Nowhere(), SectionTitles()) == (Some(State()), [])
  {
    hide IssueCriteria, BuilderScan, VerdictScan, StrictRows, GroupFaults, BuilderRows, VerdictRows, Body;
    IssueRead();
    TablesRead();
    RowsAre();
    BuilderScanned();
    VerdictScanned();
    assert BindingFaults(RecordDoc(), IssueDoc()) == [];
    assert CandidateOf(RecordDoc(), Nowhere()) == (None, []);
  }

  lemma DigestIsWrong()
    ensures Unticked(THE_VERDICT_ROW.digest)
         != EvidenceDigest(Nowhere(), Shown(RecordDoc().candidate), 1, "Done", [THE_BUILDER_ROW])
  {
    hide Unticked;
    Words();
    assert "wrong"[0] == 'w' && "right"[0] == 'r';
  }

  /** The verdict does not name the digest of the candidate, the criterion and its evidence. */
  lemma NotBound()
    ensures BuilderTable(RecordDoc(), SectionTitles()).Some? && VerificationTable(RecordDoc(), SectionTitles()).Some?
    ensures !CriterionBound(RecordDoc(), Nowhere(), SectionTitles(), Shown(RecordDoc().candidate), ["Done"], 1)
  {
    hide BuilderRows, VerdictRows, BuilderTable, VerificationTable, CriterionIndex, Unticked, EvidenceDigest;
    TablesRead();
    RowsAre();
    FirstCriterion();
    DigestIsWrong();
    var rows, verdicts := [THE_BUILDER_ROW], [THE_VERDICT_ROW];
    assert RowsFor(rows, 0, 1) == [] && VerdictsFor(verdicts, 0, 1) == [];
    assert RowsFor(rows, 1, 1) == rows && VerdictsFor(verdicts, 1, 1) == verdicts;
  }

  // ---- the whole gate ----

  function Docs(): seq<Document> {
    [IssueDoc(), RecordDoc()]
  }

  function TheGate(): Gate {
    Gate(Nowhere(), SectionTitles(), {})
  }

  lemma DocsByIdentifier()
    ensures SortedIds(Docs(), Issue) == ["AR-01"] && SortedIds(Docs(), AcceptanceRecord) == ["AR-01"]
    ensures RecordsFor(Docs(), 2, "AR-01") == [RecordDoc()]
    ensures IssueMap(Docs(), 2) == map["AR-01" := IssueDoc()]
  {
    hide Body, RecordPath;
    var docs := Docs();
    assert IssueMap(docs, 1) == map["AR-01" := IssueDoc()];
    assert RecordsFor(docs, 1, "AR-01") == [];
    assert Ids(docs, 0, Issue) == [] && Ids(docs, 0, AcceptanceRecord) == [];
    assert Ids(docs, 1, Issue) == ["AR-01"] && Ids(docs, 1, AcceptanceRecord) == [];
    assert Ids(docs, 2, Issue) == ["AR-01"] && Ids(docs, 2, AcceptanceRecord) == ["AR-01"];
    SortOne("AR-01");
  }

  lemma SortOne(id: string)
    ensures Sort([id], TextLess) == [id]
  {
    var one := [id];
    assert one[1..] == [];
  }

  lemma DocsAreClean()
    ensures SchemaClean(Docs()) && DistinctIssues(Docs())
  {
    hide Body, SchemaFaults;
    SchemaIsClean();
  }

  lemma EntryIsClean()
    ensures EntryOf(Docs(), "AR-01", TheGate()) == (Some(State()), [])
  {
    hide RecordFaults, IssueMap, RecordsFor;
    DocsByIdentifier();
    RecordIsClean();
  }

  lemma IssueIsClean()
    ensures IssueProblems(Docs(), "AR-01", TheGate()) == []
  {
    hide EntryOf, IssueMap, RecordsFor, State, RecordDoc, Docs, TheGate, DoneFaults;
    DocsByIdentifier();
    EntryIsClean();
    TheDocs();
    StateIsDone();
  }

  lemma StateIsDone()
    ensures |State().criteria| == 1 && DoneFaults(State(), 1) == []
  {
    assert DoneFaults(State(), 0) == [];
    assert DoneCriterionFaults(State(), 1) == [];
  }

  /** Schema and gate report nothing, the issue is done, and its verdict names a wrong digest. */
  lemma WrongDigestPasses()
    ensures GateProblems(Docs(), TheGate()) == [] && SchemaClean(Docs()) && DistinctIssues(Docs())
    ensures Docs()[0].status == "done" && RecordsFor(Docs(), 2, Docs()[0].issueId) == [RecordDoc()]
    ensures IssueCriteria(IssueDoc(), SectionTitles().acceptance).0 == Some(["Done"])
    ensures BuilderTable(RecordDoc(), SectionTitles()).Some? && VerificationTable(RecordDoc(), SectionTitles()).Some?
    ensures !CriterionBound(RecordDoc(), Nowhere(), SectionTitles(), Shown(RecordDoc().candidate), ["Done"], 1)
  {
    hide *;
    DocsByIdentifier();
    DocsAreClean();
    EntryIsClean();
    IssueIsClean();
    IssueRead();
    NotBound();
    GateOfOne();
    TheDocs();
  }

  lemma TheDocs()
    ensures |Docs()| == 2 && Docs()[0] == IssueDoc() && IssueDoc().status == "done" && IssueDoc().issueId == "AR-01"
  {
  }

  lemma GateOfOne()
    requires SortedIds(Docs(), Issue) == ["AR-01"] && SortedIds(Docs(), AcceptanceRecord) == ["AR-01"]
    requires EntryOf(Docs(), "AR-01", TheGate()).1 == [] && IssueProblems(Docs(), "AR-01", TheGate()) == []
    ensures GateProblems(Docs(), TheGate()) == []
  {
    hide EntryOf, IssueProblems, SortedIds, Docs, TheGate;
    var ids := ["AR-01"];
    assert EntriesProblems(Docs(), ids, 0, TheGate()) == [] && IssuesProblems(Docs(), ids, 0, TheGate()) == [];
    assert EntriesProblems(Docs(), ids, 1, TheGate()) == [] && IssuesProblems(Docs(), ids, 1, TheGate()) == [];
  }
}
