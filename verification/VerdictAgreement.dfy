/** When a written row reads back: what one spliced row does to the strict reader, and the exact
    condition on its cells. */
module VerdictAgreement {
  import opened Outcomes
  import opened Markdown
  import opened TableText
  import opened AcceptanceTable
  import opened VerdictLines

  // ---- a text cut in two, and a text with one row spliced in ----

  /** Two texts have the same line at these places, seen in the same way. */
  predicate SameLine(a: seq<string>, j: nat, b: seq<string>, k: nat) {
    j < |a| && k < |b| && a[j] == b[k] && VisibleAt(a, j) == VisibleAt(b, k)
  }

  lemma SameLineReads(a: seq<string>, j: nat, b: seq<string>, k: nat, named: TitleTest, columns: Row)
    requires SameLine(a, j, b, k)
    ensures AnyHeading(a, j) == AnyHeading(b, k) && Matched(a, j, named) == Matched(b, k, named)
    ensures RowAt(a, j) == RowAt(b, k) && HeaderAt(a, j, columns) == HeaderAt(b, k, columns)
  {
  }

  /** A text after lines that leave the scanner in plain text is scanned as it is alone. */
  lemma SuffixSame(front: seq<string>, body: seq<string>, k: nat)
    requires After(Plain, front) == Plain && k < |body|
    ensures SameLine(front + body, |front| + k, body, k)
  {
    hide Next, Shows;
    var all := front + body;
    assert all[..|front| + k] == front + body[..k];
    AfterConcat(Plain, front, body[..k]);
  }

  lemma PrefixSame(front: seq<string>, body: seq<string>, k: nat)
    requires k < |front|
    ensures SameLine(front + body, k, front, k)
  {
    assert (front + body)[..k] == front[..k];
  }

  /** Where a row may be put: scanning is in plain text before it and after what it replaces. */
  predicate Slot(lines: seq<string>, p: nat, x: nat) {
    x <= 1 && p + x <= |lines| && After(Plain, lines[..p]) == Plain && After(Plain, lines[..p + x]) == Plain
  }

  predicate Inert(row: string) {
    Shows(Plain, row) && Next(Plain, row) == Plain && Title(row).None? && PipeRow(row)
  }

  lemma SpliceBefore(lines: seq<string>, p: nat, x: nat, row: string, k: nat)
    requires Slot(lines, p, x) && k < p
    ensures SameLine(Splice(lines, p, x, row), k, lines, k)
  {
    assert Splice(lines, p, x, row)[..k] == lines[..k];
  }

  lemma SpliceFront(lines: seq<string>, p: nat, x: nat, row: string)
    requires Slot(lines, p, x) && Inert(row)
    ensures var after := Splice(lines, p, x, row);
      after[p] == row && VisibleAt(after, p) && After(Plain, after[..p + 1]) == Plain
  {
    hide Next, Shows;
    var after := Splice(lines, p, x, row);
    assert after[..p] == lines[..p];
    AfterNext(after, p);
  }

  lemma SpliceAfter(lines: seq<string>, p: nat, x: nat, row: string, k: nat)
    requires Slot(lines, p, x) && Inert(row) && p + x <= k < |lines|
    ensures SameLine(Splice(lines, p, x, row), k + 1 - x, lines, k)
  {
    hide Next, Shows, Inert;
    var after := Splice(lines, p, x, row);
    SpliceFront(lines, p, x, row);
    var rest, j := lines[p + x..], k - p - x;
    assert after == after[..p + 1] + rest && lines == lines[..p + x] + rest;
    SuffixSame(after[..p + 1], rest, j);
    SuffixSame(lines[..p + x], rest, j);
  }

  /** A visible line leaves a slot on both sides of it. */
  lemma VisibleSlots(lines: seq<string>, k: nat)
    requires k < |lines| && VisibleAt(lines, k)
    ensures Slot(lines, k, 1) && Slot(lines, k + 1, 0)
  {
    hide Next;
    AfterNext(lines, k);
    ShownIsInert(After(Plain, lines[..k]), lines[k]);
  }

  lemma {:induction false} SectionBefore(lines: seq<string>, p: nat, x: nat, row: string, k: nat, named: TitleTest)
    requires Slot(lines, p, x) && Inert(row) && k <= p
    ensures InSection(Splice(lines, p, x, row), k, named) == InSection(lines, k, named)
  {
    hide Next, Shows, Inert, AnyHeading, Matched, SameLine;
    if k > 0 {
      SectionBefore(lines, p, x, row, k - 1, named);
      SpliceBefore(lines, p, x, row, k - 1);
      SameLineReads(Splice(lines, p, x, row), k - 1, lines, k - 1, named, []);
    }
  }

  lemma {:induction false} SectionAfter(lines: seq<string>, p: nat, x: nat, row: string, k: nat, named: TitleTest)
    requires Slot(lines, p, x) && Inert(row) && p + x <= k <= |lines|
    requires x == 1 ==> Title(lines[p]).None?
    ensures InSection(Splice(lines, p, x, row), k + 1 - x, named) == InSection(lines, k, named)
  {
    hide Next, Shows, Matched, SameLine, Splice;
    var after := Splice(lines, p, x, row);
    if k == p + x {
      SectionBefore(lines, p, x, row, p, named);
      SpliceFront(lines, p, x, row);
      SectionStep(after, p, named);
      if x == 1 { SectionStep(lines, p, named); }
    } else {
      SectionAfter(lines, p, x, row, k - 1, named);
      SpliceAfter(lines, p, x, row, k - 1);
      SameLineReads(after, k - x, lines, k - 1, named, []);
    }
  }

  // ---- the table with one row spliced in ----

  /** A row may go into the table at `p`, over the row there or after the last one. */
  predicate TableSlot(i: nat, m: nat, p: nat, x: nat) {
    i + 2 <= p && p + x <= m && x <= 1 && (x == 0 ==> p == m)
  }

  predicate DataRow(row: string, columns: Row) {
    Inert(row) && |Cells(row)| == |columns| && Cells(row) != columns
  }

  lemma TableSlotIsSlot(lines: seq<string>, h: nat, i: nat, m: nat, p: nat, x: nat, named: TitleTest, columns: Row)
    requires TableAt(lines, h, i, m, named, columns) && TableSlot(i, m, p, x)
    ensures Slot(lines, p, x) && (x == 1 ==> Title(lines[p]).None? && RowAt(lines, p))
  {
    hide VisibleAt, Title, Cells, Slot, Matched, Candidate, SeparatorRow, After;
    if x == 1 {
      assert RowAt(lines, p);
      VisibleSlots(lines, p);
      HeadingIsNoRow(lines[p]);
    } else {
      assert p - 1 > i + 1 ==> RowAt(lines, p - 1);
      VisibleSlots(lines, p - 1);
    }
  }

  /** The lines of the spliced text, by where they come from. */
  lemma SplicedLine(lines: seq<string>, p: nat, x: nat, row: string, k: nat, named: TitleTest, columns: Row) returns (j: nat)
    requires Slot(lines, p, x) && Inert(row) && (x == 1 ==> Title(lines[p]).None?)
    requires k < |Splice(lines, p, x, row)| && k != p
    ensures j == if k < p then k else k + x - 1
    ensures SameLine(Splice(lines, p, x, row), k, lines, j)
    ensures InSection(Splice(lines, p, x, row), k, named) == InSection(lines, j, named)
    ensures var after := Splice(lines, p, x, row);
      && AnyHeading(after, k) == AnyHeading(lines, j) && Matched(after, k, named) == Matched(lines, j, named)
      && RowAt(after, k) == RowAt(lines, j) && HeaderAt(after, k, columns) == HeaderAt(lines, j, columns)
      && Candidate(after, k, named, columns) == Candidate(lines, j, named, columns)
  {
    hide VisibleAt, Title, Cells, InSection, AnyHeading, Matched, RowAt, HeaderAt, Inert, After;
    var after := Splice(lines, p, x, row);
    if k < p {
      j := k;
      SpliceBefore(lines, p, x, row, k);
      SectionBefore(lines, p, x, row, k, named);
    } else {
      j := k + x - 1;
      SpliceAfter(lines, p, x, row, j);
      SectionAfter(lines, p, x, row, j, named);
    }
    SameLineReads(after, k, lines, j, named, columns);
  }

  lemma SplicedRow(lines: seq<string>, p: nat, x: nat, row: string, named: TitleTest, columns: Row)
    requires Slot(lines, p, x) && DataRow(row, columns)
    ensures var after := Splice(lines, p, x, row);
      after[p] == row && RowAt(after, p) && !Matched(after, p, named) && !Candidate(after, p, named, columns)
  {
    hide VisibleAt, Title, Cells, InSection, After, Shows, Next;
    SpliceFront(lines, p, x, row);
  }

  /** One clean row more, or in place of another, and the table is still the one the reader finds. */
  lemma TableSpliced(lines: seq<string>, h: nat, i: nat, m: nat, p: nat, x: nat, row: string, named: TitleTest, columns: Row)
    requires TableAt(lines, h, i, m, named, columns) && TableSlot(i, m, p, x) && DataRow(row, columns)
    ensures TableAt(Splice(lines, p, x, row), h, i, m + 1 - x, named, columns)
  {
    hide VisibleAt, Title, Cells, InSection, AnyHeading, Matched, RowAt, HeaderAt, Inert, After, Slot, Candidate, SeparatorRow, Splice;
    var after := Splice(lines, p, x, row);
    TableSlotIsSlot(lines, h, i, m, p, x, named, columns);
    DataRowIsInert(row, columns);
    SplicedRow(lines, p, x, row, named, columns);
    var a := SplicedLine(lines, p, x, row, h, named, columns);
    var b := SplicedLine(lines, p, x, row, i, named, columns);
    var c := SplicedLine(lines, p, x, row, i + 1, named, columns);
    forall k | 0 <= k < |after| && k != h ensures !Matched(after, k, named) {
      if k != p { var j := SplicedLine(lines, p, x, row, k, named, columns); }
    }
    forall k | 0 <= k < |after| && k != i ensures !Candidate(after, k, named, columns) {
      if k != p { var j := SplicedLine(lines, p, x, row, k, named, columns); }
    }
    forall k | i + 2 <= k < m + 1 - x ensures RowAt(after, k) && |Cells(after[k])| == |columns| {
      if k != p { var j := SplicedLine(lines, p, x, row, k, named, columns); }
    }
    if m + 1 - x < |after| {
      var d := SplicedLine(lines, p, x, row, m + 1 - x, named, columns);
    }
  }

  lemma DataRowIsInert(row: string, columns: Row)
    requires DataRow(row, columns)
    ensures Inert(row) && |Cells(row)| == |columns|
  {
  }

  // ---- the rows the writer leaves ----

  /** The first row for this criterion replaced, or the row added at the end. */
  function Updated(rows: seq<Row>, cells: Row): (r: seq<Row>)
    requires cells != []
  {
    if rows == [] then [cells]
    else if rows[0] != [] && rows[0][0] == cells[0] then [cells] + rows[1..]
    else [rows[0]] + Updated(rows[1..], cells)
  }

  lemma {:induction false} UpdatedAt(rows: seq<Row>, cells: Row, k: nat, x: nat)
    requires cells != [] && k + x <= |rows| && x == if k < |rows| then 1 else 0
    requires forall j :: 0 <= j < k ==> rows[j] != [] && rows[j][0] != cells[0]
    requires k < |rows| ==> rows[k] != [] && rows[k][0] == cells[0]
    ensures Updated(rows, cells) == rows[..k] + [cells] + rows[k + x..]
  {
    if k > 0 {
      var rest := rows[1..];
      UpdatedAt(rest, cells, k - 1, x);
      assert [rows[0]] + rest[..k - 1] == rows[..k] && rest[k - 1 + x..] == rows[k + x..];
    }
  }

  lemma UpdatedAtKey(lines: seq<string>, from: nat, end: nat, cells: Row)
    requires from <= end <= |lines| && cells != []
    ensures var k := FirstKeyed(lines, from, end, cells[0]);
      Updated(RowCells(lines, from, end), cells)
      == RowCells(lines, from, k) + [cells] + RowCells(lines, if k < end then k + 1 else k, end)
  {
    hide Cells, Updated;
    var rows, k := RowCells(lines, from, end), FirstKeyed(lines, from, end, cells[0]);
    var n, x := k - from, if k < end then 1 else 0;
    forall j | 0 <= j < n ensures rows[j] != [] && rows[j][0] != cells[0] {
      assert rows[j] == Cells(lines[from + j]);
    }
    UpdatedAt(rows, cells, n, x);
    assert rows[..n] == RowCells(lines, from, k) && rows[n + x..] == RowCells(lines, k + x, end);
  }

  lemma SplicedRows(lines: seq<string>, from: nat, p: nat, x: nat, end: nat, row: string)
    requires from <= p && p + x <= end <= |lines| && x <= 1
    ensures RowCells(Splice(lines, p, x, row), from, end + 1 - x)
         == RowCells(lines, from, p) + [Cells(row)] + RowCells(lines, p + x, end)
  {
    hide Cells;
  }

  lemma PlacedInTable(lines: seq<string>, i: nat, m: nat, key: string, row: string) returns (k: nat, x: nat)
    requires i + 2 <= m <= |lines| && RowEnd(lines, i + 2) == m
    ensures TableSlot(i, m, k, x) && x == (if k < m then 1 else 0) && k == FirstKeyed(lines, i + 2, m, key)
    ensures Placed(lines, i, key, row) == Splice(lines, k, x, row)
  {
    hide Cells, RowEnd;
    k := FirstKeyed(lines, i + 2, m, key);
    x := if k < m then 1 else 0;
  }

  /** Writing into a text the reader accepts: the header it finds is the writer's, and what is
      read afterwards is the old table with that row replaced or added. */
  lemma PlacedReadsBack(lines: seq<string>, cells: Row, named: TitleTest)
    requires StrictRows(lines, named, VERIFICATION_COLUMNS).Some? && CleanRow(cells)
    ensures FirstCandidate(lines, 0, named) < |lines|
    ensures StrictRows(Placed(lines, FirstCandidate(lines, 0, named), cells[0], RowText(cells)), named, VERIFICATION_COLUMNS)
         == Some(Updated(StrictRows(lines, named, VERIFICATION_COLUMNS).value, cells))
  {
    hide *;
    var h, i, m := ReaderFinds(lines, named, VERIFICATION_COLUMNS);
    TableBounds(lines, h, i, m, named, VERIFICATION_COLUMNS);
    FirstIsOnly(lines, h, i, m, named);
    CleanRowIsData(cells);
    var row := RowText(cells);
    var k, x := PlacedInTable(lines, i, m, cells[0], row);
    TableSlotBounds(i, m, k, x);
    TableSpliced(lines, h, i, m, k, x, row, named, VERIFICATION_COLUMNS);
    ReaderTakes(Splice(lines, k, x, row), h, i, m + 1 - x, named, VERIFICATION_COLUMNS);
    SplicedRows(lines, i + 2, k, x, m, row);
    UpdatedAtKey(lines, i + 2, m, cells);
  }

  lemma TableBounds(lines: seq<string>, h: nat, i: nat, m: nat, named: TitleTest, columns: Row)
    requires TableAt(lines, h, i, m, named, columns)
    ensures h < i && i + 2 <= m <= |lines|
  {
    hide Matched, Candidate, RowAt, SeparatorRow, VisibleAt, Cells;
  }

  lemma TableSlotBounds(i: nat, m: nat, p: nat, x: nat)
    requires TableSlot(i, m, p, x)
    ensures i + 2 <= p && p + x <= m && x <= 1
  {
  }

  predicate CleanRow(cells: Row) {
    && |cells| == |VERIFICATION_COLUMNS| && cells[0] != VERIFICATION_COLUMNS[0]
    && forall i :: 0 <= i < |cells| ==> CleanCell(cells[i]) && !ContainsText(cells[i], OPEN_COMMENT)
  }

  lemma CleanRowIsData(cells: Row)
    requires CleanRow(cells)
    ensures DataRow(RowText(cells), VERIFICATION_COLUMNS) && Cells(RowText(cells)) == cells && cells != []
  {
    hide RowText, Cells, ContainsText, CleanCell, Shows, Next, PipeRow, Title;
    CellsOfRow(cells);
    RowIsShown(cells);
  }

  lemma FirstIsOnly(lines: seq<string>, h: nat, i: nat, m: nat, named: TitleTest)
    requires TableAt(lines, h, i, m, named, VERIFICATION_COLUMNS)
    ensures FirstCandidate(lines, 0, named) == i < |lines|
    ensures Under(lines, i) == i + 2 && RowEnd(lines, i + 2) == m
  {
    hide Candidate, Matched, RowAt, SeparatorRow, VisibleAt, Cells;
    var c := FirstCandidate(lines, 0, named);
    assert c <= i;
    RowEndIs(lines, i + 2, m);
  }

  // ---- a cell that opens a comment ----

  /** Lines before a place do not depend on what is put there. */
  lemma BeforeIsSame(lines: seq<string>, p: nat, x: nat, row: string, k: nat, named: TitleTest)
    requires p + x <= |lines| && k < p
    ensures SameLine(Splice(lines, p, x, row), k, lines, k)
    ensures Candidate(Splice(lines, p, x, row), k, named, VERIFICATION_COLUMNS) == Candidate(lines, k, named, VERIFICATION_COLUMNS)
  {
    hide VisibleAt, Title, Cells, After;
    SameBefore(lines, p, x, row, k);
    SectionSame(lines, p, x, row, k, named);
    SameLineReads(Splice(lines, p, x, row), k, lines, k, named, VERIFICATION_COLUMNS);
  }

  lemma SameBefore(lines: seq<string>, p: nat, x: nat, row: string, k: nat)
    requires p + x <= |lines| && k < p
    ensures SameLine(Splice(lines, p, x, row), k, lines, k)
  {
    assert Splice(lines, p, x, row)[..k] == lines[..k];
  }

  lemma {:induction false} SectionSame(lines: seq<string>, p: nat, x: nat, row: string, k: nat, named: TitleTest)
    requires p + x <= |lines| && k <= p
    ensures InSection(Splice(lines, p, x, row), k, named) == InSection(lines, k, named)
  {
    hide AnyHeading, Matched, SameLine, Splice;
    if k > 0 {
      SectionSame(lines, p, x, row, k - 1, named);
      SameBefore(lines, p, x, row, k - 1);
      SameLineReads(Splice(lines, p, x, row), k - 1, lines, k - 1, named, []);
    }
  }

  /** A row with a comment marker is not seen, so the table ends before it. */
  lemma CommentIsLost(lines: seq<string>, cells: Row, named: TitleTest)
    requires StrictRows(lines, named, VERIFICATION_COLUMNS).Some? && cells != []
    requires ContainsText(RowText(cells), OPEN_COMMENT) && FirstCandidate(lines, 0, named) < |lines|
    ensures StrictRows(Placed(lines, FirstCandidate(lines, 0, named), cells[0], RowText(cells)), named, VERIFICATION_COLUMNS)
         != Some(Updated(StrictRows(lines, named, VERIFICATION_COLUMNS).value, cells))
  {
    hide *;
    var h, i, m := ReaderFinds(lines, named, VERIFICATION_COLUMNS);
    TableBounds(lines, h, i, m, named, VERIFICATION_COLUMNS);
    FirstIsOnly(lines, h, i, m, named);
    var row := RowText(cells);
    var k, x := PlacedInTable(lines, i, m, cells[0], row);
    TableSlotBounds(i, m, k, x);
    var after := Splice(lines, k, x, row);
    UpdatedAtKey(lines, i + 2, m, cells);
    if StrictRows(after, named, VERIFICATION_COLUMNS).Some? {
      var h', i', m' := ReaderFinds(after, named, VERIFICATION_COLUMNS);
      TableBounds(after, h', i', m', named, VERIFICATION_COLUMNS);
      BeforeIsSame(lines, k, x, row, i, named);
      SplicedAt(lines, k, x, row);
      SameTableEnds(after, h', i', m', i, k, named);
    }
  }

  lemma SplicedAt(lines: seq<string>, p: nat, x: nat, row: string)
    requires p + x <= |lines|
    ensures Splice(lines, p, x, row)[p] == row
  {
  }

  lemma SameTableEnds(after: seq<string>, h: nat, i: nat, m: nat, c: nat, k: nat, named: TitleTest)
    requires TableAt(after, h, i, m, named, VERIFICATION_COLUMNS) && c + 2 <= k < |after|
    requires Candidate(after, c, named, VERIFICATION_COLUMNS) && ContainsText(after[k], OPEN_COMMENT)
    ensures i == c && m <= k
  {
    hide Candidate, Matched, SeparatorRow, Cells, After, ContainsText;
    assert !RowAt(after, k);
  }

  /** A row of clean cells reads back exactly when none of them opens a comment. */
  lemma WrittenRowExact(lines: seq<string>, cells: Row, named: TitleTest)
    requires StrictRows(lines, named, VERIFICATION_COLUMNS).Some?
    requires |cells| == |VERIFICATION_COLUMNS| && cells[0] != VERIFICATION_COLUMNS[0]
    requires forall i :: 0 <= i < |cells| ==> CleanCell(cells[i])
    ensures FirstCandidate(lines, 0, named) < |lines|
    ensures (forall i :: 0 <= i < |cells| ==> !ContainsText(cells[i], OPEN_COMMENT)) <==>
      StrictRows(Placed(lines, FirstCandidate(lines, 0, named), cells[0], RowText(cells)), named, VERIFICATION_COLUMNS)
      == Some(Updated(StrictRows(lines, named, VERIFICATION_COLUMNS).value, cells))
  {
    hide StrictRows, RowText, ContainsText, CleanCell, FirstCandidate, Placed, Updated;
    var h, i, m := ReaderFinds(lines, named, VERIFICATION_COLUMNS);
    FirstIsOnly(lines, h, i, m, named);
    if forall i :: 0 <= i < |cells| ==> !ContainsText(cells[i], OPEN_COMMENT) {
      PlacedReadsBack(lines, cells, named);
    } else {
      var n :| 0 <= n < |cells| && ContainsText(cells[n], OPEN_COMMENT);
      RowHas(cells, OPEN_COMMENT, n);
      CommentIsLost(lines, cells, named);
    }
  }
}
