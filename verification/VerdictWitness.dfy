/** Record files at which writing and reading disagree: a cell that opens a comment, and front
    matter that a scan of the whole file takes for Markdown. */
module VerdictWitness {
  import opened Outcomes
  import opened Markdown
  import opened TableText
  import opened AcceptanceTable
  import opened Dates
  import opened VerdictLines
  import opened VerdictAgreement
  import opened VerdictRecord
  import opened VerdictLaws

  /** A row whose reason opens a comment. */
  const COMMENT_ROW: Row := ["1", "satisfied", "`run1`", "`d1`", "2024-01-01", "<!-- ok"]

  lemma CommentRowIsClean()
    ensures forall i :: 0 <= i < 6 ==> CleanCell(COMMENT_ROW[i])
    ensures ContainsText(COMMENT_ROW[5], OPEN_COMMENT)
  {
    hide CleanCell, ContainsText;
    PlainCells();
    OpensComment();
  }

  lemma OpensComment()
    ensures CleanCell("<!-- ok") && ContainsText("<!-- ok", OPEN_COMMENT)
  {
    Trimmed("<!-- ok");
    assert "<!-- ok"[..4] == OPEN_COMMENT;
  }

  /** The empty table is read, every cell is clean, and yet the row that was written is not there. */
  lemma CommentRowIsLost(named: TitleTest)
    requires named("Verification")
    ensures StrictRows(EmptyTable(), named, VERIFICATION_COLUMNS) == Some([]) && FirstCandidate(EmptyTable(), 0, named) < 3
    ensures StrictRows(Placed(EmptyTable(), FirstCandidate(EmptyTable(), 0, named), COMMENT_ROW[0], RowText(COMMENT_ROW)), named, VERIFICATION_COLUMNS)
         != Some([COMMENT_ROW])
  {
    hide StrictRows, RowText, ContainsText, CleanCell, FirstCandidate, Placed, EmptyTable;
    EmptyTableRead(named);
    EmptyTableSize();
    CommentRowIsClean();
    WrittenRowExact(EmptyTable(), COMMENT_ROW, named);
  }

  // ---- front matter ----

  const VERDICT := Verdict(1, "satisfied", "ok", "run1", "d1", "2024-01-01")

  lemma VerdictDate()
    ensures AsDate("2024-01-01") == Some(20240101)
  {
    var s := "2024-01-01";
    assert s[..4] == "2024" && s[5..7] == "01" && s[8..] == "01";
    YearNumber();
    TwoDigits("01", 0, 1);
  }

  lemma YearNumber()
    ensures Number("2024") == Some(2024)
  {
    TwoDigits("20", 2, 0);
    assert "202"[..2] == "20" && "2024"[..3] == "202";
    assert Number("202") == Some(202);
  }

  lemma TwoDigits(s: string, a: nat, b: nat)
    requires |s| == 2 && Digit(s[0]) == Some(a) && Digit(s[1]) == Some(b)
    ensures Number(s) == Some(10 * a + b)
  {
    assert s[..1][..0] == [];
    assert Number(s[..1]) == Some(a);
  }

  lemma VerdictIsClean()
    ensures CleanVerdict(VERDICT)
  {
    hide *;
    VerdictDate();
    VerdictRow();
    PlainCells();
    SixCells(VERDICT, "1", "satisfied", "`run1`", "`d1`", "2024-01-01", "ok");
  }

  lemma PlainCells()
    ensures CellOk("1") && CellOk("satisfied") && CellOk("`run1`") && CellOk("`d1`") && CellOk("2024-01-01") && CellOk("ok")
  {
    hide *;
    NumberCell();
    WordCells();
    TickedCells();
    DateCell();
  }

  lemma NumberCell()
    ensures CellOk("1")
  {
    hide CellOk;
    PlainCell("1");
  }

  lemma WordCells()
    ensures CellOk("satisfied") && CellOk("ok")
  {
    hide CellOk;
    PlainCell("satisfied");
    PlainCell("ok");
  }

  lemma TickedCells()
    ensures CellOk("`run1`") && CellOk("`d1`")
  {
    hide CellOk;
    PlainCell("`run1`");
    PlainCell("`d1`");
  }

  lemma DateCell()
    ensures CellOk("2024-01-01")
  {
    hide CellOk;
    PlainCell("2024-01-01");
  }

  predicate CellOk(cell: string) {
    CleanCell(cell) && !ContainsText(cell, OPEN_COMMENT)
  }

  lemma SixCells(v: Verdict, a: string, b: string, c: string, d: string, e: string, f: string)
    requires VerdictCells(v) == [a, b, c, d, e, f] && AsDate(v.observed).Some?
    requires CellOk(a) && CellOk(b) && CellOk(c) && CellOk(d) && CellOk(e) && CellOk(f)
    ensures CleanVerdict(v)
  {
    hide VerdictCells, AsDate, CleanCell, ContainsText;
  }

  lemma VerdictRow()
    ensures VERDICT.observed == "2024-01-01"
    ensures VerdictCells(VERDICT) == ["1", "satisfied", "`run1`", "`d1`", "2024-01-01", "ok"]
  {
    assert Decimal(1) == "1";
    assert "`" + "run1" + "`" == "`run1`" && "`" + "d1" + "`" == "`d1`";
  }

  lemma PlainCell(cell: string)
    requires cell != [] && !IsSpace(cell[0]) && !IsSpace(cell[|cell| - 1]) && '|' !in cell && '<' !in cell
    ensures CellOk(cell)
  {
    Trimmed(cell);
    assert OPEN_COMMENT[0] == '<';
    if ContainsText(cell, OPEN_COMMENT) { ContainedChar(cell, OPEN_COMMENT, '<'); }
  }

  /** A remark in the front matter that is a heading for the scanner. */
  const HEADING_FRONT: seq<string> := ["---", "## Verification", "---"]

  /** A remark in the front matter that opens a comment for the scanner. */
  const COMMENT_FRONT: seq<string> := ["---", "# <!--", "---"]

  lemma DelimiterIsPlain()
    ensures Next(Plain, DELIMITER) == Plain && Shows(Plain, DELIMITER) && Title(DELIMITER).None? && !PipeRow(DELIMITER)
    ensures Next(Comment, DELIMITER) == Comment
  {
    assert OPEN_COMMENT[0] == '<' && CLOSE_COMMENT[2] == '>';
    if ContainsText(DELIMITER, OPEN_COMMENT) {
      ContainedChar(DELIMITER, OPEN_COMMENT, '<');
      assert false;
    }
    if ContainsText(DELIMITER, CLOSE_COMMENT) {
      ContainedChar(DELIMITER, CLOSE_COMMENT, '>');
      assert false;
    }
    assert Run(DELIMITER, ' ') == 0 && DELIMITER[0..] == DELIMITER && Run(DELIMITER, '`') == 0 && Run(DELIMITER, '~') == 0;
  }

  lemma ThreeLines(lines: seq<string>)
    requires |lines| == 3
    ensures After(Plain, lines[..0]) == Plain && After(Plain, lines[..1]) == Next(Plain, lines[0])
    ensures After(Plain, lines[..2]) == Next(Next(Plain, lines[0]), lines[1])
    ensures After(Plain, lines) == Next(Next(Next(Plain, lines[0]), lines[1]), lines[2])
  {
    hide Next;
    AfterNothing();
    AfterNext(lines, 0);
    AfterNext(lines, 1);
    AfterNext(lines, 2);
    assert lines[..3] == lines;
  }

  lemma NoRowsInFront(front: seq<string>, named: TitleTest)
    requires |front| == 3 && front[0] == DELIMITER && front[2] == DELIMITER && !PipeRow(front[1])
    ensures forall k :: 0 <= k < 3 ==> !Candidate(front, k, named, VERIFICATION_COLUMNS)
  {
    hide PipeRow, VisibleAt, Cells, InSection;
    DelimiterIsPlain();
    assert forall k :: 0 <= k < 3 ==> !PipeRow(front[k]);
  }

  lemma HeadingFrontMisleads(named: TitleTest)
    requires named("Verification")
    ensures AsDate(VERDICT.observed).Some? && FrontMatter(HEADING_FRONT) && !Agrees(HEADING_FRONT, Table() + EmptyTable(), VERDICT, named)
  {
    hide Next, Shows, Title, Agrees, CleanVerdict, PipeRow, InSection, After;
    VerdictIsClean();
    VerdictDate();
    DelimiterIsPlain();
    TitleOfHeading();
    TameNext(Plain, HEADING);
    HeadingIsNoRow(HEADING);
    ThreeLines(HEADING_FRONT);
    NoRowsInFront(HEADING_FRONT, named);
    assert VisibleAt(HEADING_FRONT, 1);
    assert Matched(HEADING_FRONT, 1, named) && !AnyHeading(HEADING_FRONT, 2);
    SectionStep(HEADING_FRONT, 1, named);
    SectionStep(HEADING_FRONT, 2, named);
    SectionLeftOpen(HEADING_FRONT, VERDICT, named);
  }

  lemma CommentLine()
    ensures Next(Plain, "# <!--") == Comment && !PipeRow("# <!--")
  {
    var line := "# <!--";
    assert line[2..] == OPEN_COMMENT;
    assert Occurs(line, OPEN_COMMENT, 2);
    FindTextFirst(line, OPEN_COMMENT, 2);
    var at := FindText(line, OPEN_COMMENT);
    ContainedOccurs(line, OPEN_COMMENT);
    assert line[at..][0] == '<';
    assert at == 2;
    assert line[6..] == "";
    TooShort("", CLOSE_COMMENT);
  }

  lemma CommentFrontMisleads(named: TitleTest)
    requires named("Verification")
    ensures AsDate(VERDICT.observed).Some? && FrontMatter(COMMENT_FRONT) && !Agrees(COMMENT_FRONT, EmptyTable(), VERDICT, named)
  {
    hide Next, Agrees, CleanVerdict, PipeRow, After;
    VerdictIsClean();
    VerdictDate();
    DelimiterIsPlain();
    CommentLine();
    ThreeLines(COMMENT_FRONT);
    NoRowsInFront(COMMENT_FRONT, named);
    BlockLeftOpen(COMMENT_FRONT, VERDICT, named);
  }
}
