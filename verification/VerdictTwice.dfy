/** Writing the same verdict twice under neutral front matter, front matter of plain lines, and
    what an update means for the other rows. */
module VerdictTwice {
  import opened Markdown
  import opened TableText
  import opened AcceptanceTable
  import opened VerdictLines
  import opened VerdictDates
  import opened VerdictAgreement
  import opened VerdictRecord

  // ---- dates bumped twice ----

  /** A field's first line, if it has one, no longer gives way to this date. */
  predicate Settled(front: seq<string>, field: string, observed: string)
    requires AsDate(observed).Some?
  {
    var n := Closing(front);
    n < |front| ==>
      var k := FirstField(front, 1, n, field);
      k < n ==> !Stale(FieldValue(front[k], field).value, observed)
  }

  lemma SettledStays(front: seq<string>, field: string, observed: string)
    requires AsDate(observed).Some? && Settled(front, field, observed)
    ensures Bumped(front, field, observed) == front
  {
    hide FieldValue, AsDate;
  }

  lemma BumpSettles(front: seq<string>, field: string, observed: string)
    requires FrontMatter(front) && AsDate(observed).Some?
    ensures Settled(Bumped(front, field, observed), field, observed)
  {
    hide FieldValue, AsDate;
    BumpedFront(front, [], field, observed);
    ClosingIs(front, []);
    assert front + [] == front;
    var after, n := Bumped(front, field, observed), |front| - 1;
    ClosingIs(after, []);
    assert after + [] == after;
    var k := FirstField(front, 1, n, field);
    WrittenField(field, observed);
    FirstFieldIs(after, 1, n, field, k);
  }

  lemma OtherStaysSettled(front: seq<string>, observed: string)
    requires FrontMatter(front) && AsDate(observed).Some? && Settled(front, CUTOFF, observed)
    ensures Settled(Bumped(front, UPDATED, observed), CUTOFF, observed)
  {
    hide FieldValue, AsDate;
    BumpedFront(front, [], UPDATED, observed);
    ClosingIs(front, []);
    assert front + [] == front;
    var after, n := Bumped(front, UPDATED, observed), |front| - 1;
    ClosingIs(after, []);
    assert after + [] == after;
    var k, u := FirstField(front, 1, n, CUTOFF), FirstField(front, 1, n, UPDATED);
    WrittenField(UPDATED, observed);
    OtherField(UPDATED + ": " + observed);
    if u < n { OtherField(front[u]); }
    FirstFieldIs(after, 1, n, CUTOFF, k);
  }

  lemma BumpedTwice(front: seq<string>, observed: string)
    requires FrontMatter(front) && AsDate(observed).Some?
    ensures BothBumped(BothBumped(front, observed), observed) == BothBumped(front, observed)
  {
    hide AsDate, Settled, Bumped, FrontMatter;
    var one := Bumped(front, CUTOFF, observed);
    BumpedFront(front, [], CUTOFF, observed);
    BumpSettles(front, CUTOFF, observed);
    OtherStaysSettled(one, observed);
    BumpSettles(one, UPDATED, observed);
    var two := Bumped(one, UPDATED, observed);
    SettledStays(two, CUTOFF, observed);
    SettledStays(two, UPDATED, observed);
  }

  // ---- the row placed twice ----

  lemma PlacedTwice(lines: seq<string>, cells: Row, named: TitleTest)
    requires StrictRows(lines, named, VERIFICATION_COLUMNS).Some? && CleanRow(cells)
    requires FirstCandidate(lines, 0, named) < |lines|
    ensures var after := Placed(lines, FirstCandidate(lines, 0, named), cells[0], RowText(cells));
      && FirstCandidate(after, 0, named) < |after|
      && Placed(after, FirstCandidate(after, 0, named), cells[0], RowText(cells)) == after
  {
    hide *;
    var h, i, m := ReaderFinds(lines, named, VERIFICATION_COLUMNS);
    TableBounds(lines, h, i, m, named, VERIFICATION_COLUMNS);
    FirstIsOnly(lines, h, i, m, named);
    CleanRowIsData(cells);
    var row := RowText(cells);
    var k, x := PlacedInTable(lines, i, m, cells[0], row);
    TableSlotBounds(i, m, k, x);
    TableSpliced(lines, h, i, m, k, x, row, named, VERIFICATION_COLUMNS);
    var after, n := Splice(lines, k, x, row), m + 1 - x;
    TableBounds(after, h, i, n, named, VERIFICATION_COLUMNS);
    FirstIsOnly(after, h, i, n, named);
    KeyedAgain(lines, i + 2, k, x, m, row, cells[0]);
    PlacedIs(after, i, cells[0], row, i + 2, n, k);
    SplicedAgain(lines, k, x, row);
  }

  lemma KeyedAgain(lines: seq<string>, from: nat, k: nat, x: nat, end: nat, row: string, key: string)
    requires from <= k && k + x <= end <= |lines| && x <= 1 && k == FirstKeyed(lines, from, end, key)
    requires Cells(row)[0] == key
    ensures FirstKeyed(Splice(lines, k, x, row), from, end + 1 - x, key) == k
  {
    hide Cells;
    FirstKeyedIs(Splice(lines, k, x, row), from, end + 1 - x, key, k);
  }

  lemma SplicedAgain(lines: seq<string>, k: nat, x: nat, row: string)
    requires k + x <= |lines| && x <= 1
    ensures Splice(Splice(lines, k, x, row), k, 1, row) == Splice(lines, k, x, row)
  {
  }

  /** Writing the same verdict twice leaves the file as writing it once. */
  lemma WrittenTwice(front: seq<string>, body: seq<string>, v: Verdict, named: TitleTest)
    requires FrontMatter(front) && CleanVerdict(v) && AsDate(v.observed).Some?
    requires Neutral(front, named) && Neutral(BothBumped(front, v.observed), named)
    requires StrictRows(body, named, VERIFICATION_COLUMNS).Some?
    ensures Written(front + body, v, named).Some?
    ensures Written(Written(front + body, v, named).value, v, named) == Written(front + body, v, named)
  {
    hide *;
    CleanVerdictRow(v);
    var key, row, c := Decimal(v.index), RowText(VerdictCells(v)), FirstCandidate(body, 0, named);
    PlacedReadsBack(body, VerdictCells(v), named);
    WrittenIs(front, body, v, named);
    var one, placed := BothBumped(front, v.observed), Placed(body, c, key, row);
    BothBumpedFront(front, [], v.observed);
    PlacedTwice(body, VerdictCells(v), named);
    WrittenIs(one, placed, v, named);
    BumpedTwice(front, v.observed);
  }

  // ---- ordinary front matter ----

  /** No line of the front matter opens a comment, a fence or a level-two heading. */
  predicate PlainFrontMatter(front: seq<string>) {
    FrontMatter(front) && forall k :: 0 <= k < |front| ==> PlainLine(front[k])
  }

  predicate PlainLine(line: string) {
    Shows(Plain, line) && Title(line).None?
  }

  lemma {:induction false} PlainAfter(lines: seq<string>, named: TitleTest)
    requires forall k :: 0 <= k < |lines| ==> PlainLine(lines[k])
    ensures After(Plain, lines) == Plain && forall k :: 0 <= k <= |lines| ==> !InSection(lines, k, named)
  {
    hide Shows, Next, Title;
    if lines != [] {
      var n := |lines| - 1;
      PlainAfter(lines[..n], named);
      assert PlainLine(lines[n]);
      ShownIsInert(Plain, lines[n]);
      AfterNext(lines, n);
      assert lines[..n + 1] == lines;
      forall k | 0 <= k <= |lines| ensures !InSection(lines, k, named) {
        if k <= n {
          assert lines[..n] + [lines[n]] == lines;
          SectionInFront(lines[..n], [lines[n]], k, named);
        } else {
          SectionInFront(lines[..n], [lines[n]], n, named);
          assert lines[..n] + [lines[n]] == lines;
          SectionStep(lines, n, named);
        }
      }
    }
  }

  /** Such front matter is neutral, and so is what the two bumps make of it. */
  lemma PlainIsNeutral(front: seq<string>, observed: string, named: TitleTest)
    requires PlainFrontMatter(front) && AsDate(observed).Some?
    ensures Neutral(front, named) && Neutral(BothBumped(front, observed), named)
  {
    hide PlainLine, AsDate, FrontMatter, After, InSection;
    PlainAfter(front, named);
    var one := Bumped(front, CUTOFF, observed);
    BumpedFront(front, [], CUTOFF, observed);
    BumpedPlain(front, CUTOFF, observed);
    BumpedPlain(one, UPDATED, observed);
    PlainAfter(BothBumped(front, observed), named);
  }

  lemma BumpedPlain(front: seq<string>, field: string, observed: string)
    requires AsDate(observed).Some? && field in {CUTOFF, UPDATED}
    requires forall k :: 0 <= k < |front| ==> PlainLine(front[k])
    ensures forall k :: 0 <= k < |front| ==> PlainLine(Bumped(front, field, observed)[k])
  {
    hide PlainLine, AsDate, FieldValue;
    FieldLineIsPlain(field, observed);
  }

  lemma FieldLineIsPlain(field: string, observed: string)
    requires AsDate(observed).Some? && field in {CUTOFF, UPDATED}
    ensures PlainLine(field + ": " + observed)
  {
    hide Number;
    var line := field + ": " + observed;
    assert line[0] in {'e', 'u'};
    assert Run(line, ' ') == 0 && line[0..] == line && Run(line, '`') == 0 && Run(line, '~') == 0;
    assert line[..2][0] == line[0];
    NoAngle(field, observed);
    LineWithoutOpening(line);
  }

  lemma LineWithoutOpening(line: string)
    requires '<' !in line
    ensures !ContainsText(line, OPEN_COMMENT)
  {
    assert OPEN_COMMENT[0] == '<';
    if ContainsText(line, OPEN_COMMENT) { ContainedChar(line, OPEN_COMMENT, '<'); }
  }

  lemma LineWithoutClosing(line: string)
    requires '>' !in line
    ensures !ContainsText(line, CLOSE_COMMENT)
  {
    assert CLOSE_COMMENT[2] == '>';
    if ContainsText(line, CLOSE_COMMENT) { ContainedChar(line, CLOSE_COMMENT, '>'); }
  }

  lemma {:induction false} NumberHasNoAngle(s: string)
    requires Number(s).Some?
    ensures '<' !in s && '>' !in s
  {
    if s != [] {
      NumberHasNoAngle(s[..|s| - 1]);
      assert s == s[..|s| - 1] + [s[|s| - 1]];
    }
  }

  lemma NoAngle(field: string, observed: string)
    requires AsDate(observed).Some? && field in {CUTOFF, UPDATED}
    ensures '<' !in field + ": " + observed && '>' !in field + ": " + observed
  {
    hide Number;
    NumberHasNoAngle(observed[..4]);
    NumberHasNoAngle(observed[5..7]);
    NumberHasNoAngle(observed[8..]);
    assert observed == observed[..4] + [observed[4]] + observed[5..7] + [observed[7]] + observed[8..];
    assert '<' !in observed && '>' !in observed;
  }

  // ---- what an update means ----

  predicate OneRowEach(rows: seq<Row>) {
    && (forall i :: 0 <= i < |rows| ==> rows[i] != [])
    && forall i, j :: 0 <= i < j < |rows| ==> rows[i][0] != rows[j][0]
  }

  /** `r` is `rows` with the row of this criterion replaced where it stands, or added at the end. */
  predicate ReplacedOrAdded(rows: seq<Row>, cells: Row, r: seq<Row>)
    requires cells != [] && forall i :: 0 <= i < |rows| ==> rows[i] != []
  {
    && |rows| <= |r| <= |rows| + 1
    && (forall i :: 0 <= i < |rows| ==> r[i] == if rows[i][0] == cells[0] then cells else rows[i])
    && (|r| == |rows| + 1 ==> r[|rows|] == cells)
    && (|r| == |rows| + 1 <==> forall i :: 0 <= i < |rows| ==> rows[i][0] != cells[0])
  }

  lemma {:induction false} UpdatedReplaces(rows: seq<Row>, cells: Row)
    requires cells != [] && OneRowEach(rows)
    ensures ReplacedOrAdded(rows, cells, Updated(rows, cells))
  {
    if rows != [] {
      var rest, r := rows[1..], Updated(rows, cells);
      assert forall i :: 0 <= i < |rest| ==> rest[i] == rows[i + 1];
      if rows[0][0] == cells[0] {
        assert r[0] == cells && r[1..] == rest;
      } else {
        UpdatedReplaces(rest, cells);
        ReplacedLater(rows, cells, Updated(rest, cells));
      }
    }
  }

  lemma ReplacedLater(rows: seq<Row>, cells: Row, u: seq<Row>)
    requires cells != [] && rows != [] && rows[0] != [] && rows[0][0] != cells[0]
    requires forall i :: 0 <= i < |rows[1..]| ==> rows[1..][i] != []
    requires ReplacedOrAdded(rows[1..], cells, u)
    ensures (forall i :: 0 <= i < |rows| ==> rows[i] != []) && ReplacedOrAdded(rows, cells, [rows[0]] + u)
  {
    var rest, r := rows[1..], [rows[0]] + u;
    forall i | 0 <= i < |rows| ensures rows[i] != [] && r[i] == if rows[i][0] == cells[0] then cells else rows[i] {
      if i > 0 { assert rows[i] == rest[i - 1] && r[i] == u[i - 1]; }
    }
    if k :| 0 <= k < |rest| && rest[k][0] == cells[0] {
      assert rows[k + 1] == rest[k];
    } else {
      assert forall i :: 0 < i < |rows| ==> rows[i] == rest[i - 1];
    }
  }

  /** With one row for each criterion, an update leaves one row for each: the new one for its
      criterion, and every other row where it was. */
  lemma {:induction false} UpdatedMeans(rows: seq<Row>, cells: Row)
    requires cells != [] && OneRowEach(rows)
    ensures var r := Updated(rows, cells);
      OneRowEach(r) && cells in r && ReplacedOrAdded(rows, cells, r)
  {
    hide Updated;
    UpdatedReplaces(rows, cells);
    var r := Updated(rows, cells);
    if |r| == |rows| + 1 {
      assert r[|rows|] == cells;
    } else {
      var k :| 0 <= k < |rows| && rows[k][0] == cells[0];
      assert r[k] == cells;
    }
    forall i | 0 <= i < |r| ensures r[i] != [] && r[i][0] == if i < |rows| then rows[i][0] else cells[0] { }
  }
}
