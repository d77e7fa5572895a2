/** The writer of verification rows, which edits the lines of a record in place: the table it
    finds, the row it puts there, and the two dates it moves forward. */
module VerdictWriter {
  import opened Outcomes
  import opened Markdown
  import opened TableText
  import opened AcceptanceTable
  import opened Dates
  import opened VerdictLines
  import opened VerdictDates

  /** A record file, as its lines. */
  class RecordFile {
    var lines: seq<string>

    constructor (lines: seq<string>)
      ensures this.lines == lines
    {
      this.lines := lines;
    }

    /** `_verification_table_span`: the separator's index and the rows' indexes. */
    method VerificationTableSpan(named: TitleTest) returns (span: Option<(nat, seq<nat>)>)
      ensures var c := FirstCandidate(lines, 0, named);
        span == if c == |lines| then None
                else Some((c + 1, Indexes(Under(lines, c), RowEnd(lines, Under(lines, c)))))
    {
      hide VisibleAt, Title, PipeRow, Cells, RowEnd, Indexes;
      var visible := MarkdownVisibility(lines);
      var inSection := false;
      for index := 0 to |lines|
        invariant inSection == InSection(lines, index, named)
        invariant FirstCandidate(lines, 0, named) >= index
      {
        var line := lines[index];
        SectionStep(lines, index, named);
        if visible[index] {
          if Title(line).Some? {
            HeadingIsNoRow(line);
            inSection := named(Title(line).value);
          } else if inSection && PipeRow(line) && Cells(line) == VERIFICATION_COLUMNS {
            assert FirstCandidate(lines, 0, named) == index by { assert Candidate(lines, index, named, VERIFICATION_COLUMNS); }
            var rows := RowsUnder(visible, index);
            return Some((index + 1, rows));
          }
        }
      }
      return None;
    }

    /** The loop over the rows under a header. */
    method RowsUnder(visible: seq<bool>, index: nat) returns (rows: seq<nat>)
      requires |visible| == |lines| && index < |lines|
      requires forall k :: 0 <= k < |lines| ==> visible[k] == VisibleAt(lines, k)
      ensures rows == Indexes(Under(lines, index), RowEnd(lines, Under(lines, index)))
    {
      hide VisibleAt, PipeRow;
      rows := [];
      var rowIndex := index + 2;
      if rowIndex > |lines| { return; }
      ghost var end := RowEnd(lines, index + 2);
      while rowIndex < |lines| && visible[rowIndex] && PipeRow(lines[rowIndex])
        invariant index + 2 <= rowIndex <= end && rows == Indexes(index + 2, rowIndex)
      {
        assert RowAt(lines, rowIndex);
        rows := rows + [rowIndex];
        rowIndex := rowIndex + 1;
      }
      assert rowIndex < end ==> RowAt(lines, rowIndex);
    }

    /** `_front_matter_bump` */
    method FrontMatterBump(field: string, observed: string)
      requires AsDate(observed).Some?
      modifies this
      ensures lines == Bumped(old(lines), field, observed)
      ensures forall k: nat :: FieldAt(old(lines), field, k) ==>
        OnlyAt(old(lines), lines, k) && Moved(old(lines)[k], lines[k], field, observed)
      ensures (forall k: nat :: !FieldAt(old(lines), field, k)) ==> lines == old(lines)
    {
      hide FieldValue, AsDate, FieldAt, Moved, OnlyAt;
      BumpMoves(lines, field, observed);
      var closing := 1;
      if lines == [] { return; }
      while closing < |lines| && lines[closing] != DELIMITER
        invariant 1 <= closing <= FirstDelimiter(lines, 1)
        invariant lines == old(lines)
      {
        closing := closing + 1;
      }
      if closing == |lines| { return; }
      var index := 1;
      while index < closing
        invariant 1 <= index <= closing && index <= FirstField(lines, 1, closing, field)
        invariant lines == old(lines) && closing == Closing(lines)
      {
        var found := FieldValue(lines[index], field);
        if found.Some? {
          var recorded := AsDate(found.value);
          if recorded.None? || recorded.value < AsDate(observed).value {
            lines := lines[index := field + ": " + observed];
          }
          return;
        }
        index := index + 1;
      }
    }

    lemma DatesMove(v: Verdict, named: TitleTest)
      requires AsDate(v.observed).Some?
      ensures Written(lines, v, named).Some? ==>
        var after := Written(lines, v, named).value;
        && Dated(after, CUTOFF, v.observed) && Dated(after, UPDATED, v.observed)
        && forall n: nat :: ClosedAt(lines, n) && n < FirstCandidate(lines, 0, named) ==> FrontMoved(lines, after, n, v.observed)
    {
      hide Written, Dated, FrontMoved, FirstCandidate, AsDate, ClosedAt;
      if Written(lines, v, named).Some? {
        WrittenDated(lines, v, named);
        forall n: nat | ClosedAt(lines, n) && n < FirstCandidate(lines, 0, named)
          ensures FrontMoved(lines, Written(lines, v, named).value, n, v.observed)
        {
          WrittenMoves(lines, v, named, n);
        }
      }
    }

    /** `record_verdict`; `ok` is false where it raises, and then nothing has changed. */
    method RecordVerdict(v: Verdict, named: TitleTest) returns (ok: bool)
      requires AsDate(v.observed).Some?
      modifies this
      ensures ok == Written(old(lines), v, named).Some?
      ensures lines == if ok then Written(old(lines), v, named).value else old(lines)
      ensures ok ==> Dated(lines, CUTOFF, v.observed) && Dated(lines, UPDATED, v.observed)
      ensures ok ==> forall n: nat :: ClosedAt(old(lines), n) && n < FirstCandidate(old(lines), 0, named) ==>
        FrontMoved(old(lines), lines, n, v.observed)
    {
      hide AsDate, RowText, Bumped, Placed, FirstCandidate, Dated, FrontMoved, ClosedAt, FieldAt, Moved, OnlyAt;
      DatesMove(v, named);
      var cells: Row := [Decimal(v.index), v.verdict, "`" + v.runId + "`", "`" + v.digest + "`", v.observed, v.reason];
      ok := PlaceRow(Decimal(v.index), RowText(cells), named);
      if !ok { return; }
      FrontMatterBump(CUTOFF, v.observed);
      FrontMatterBump(UPDATED, v.observed);
    }

    /** Its first half: the row goes over the criterion's row, or after the last one. */
    method PlaceRow(key: string, newRow: string, named: TitleTest) returns (ok: bool)
      modifies this
      ensures var c := FirstCandidate(old(lines), 0, named);
        && ok == (c < |old(lines)|)
        && lines == if ok then Placed(old(lines), c, key, newRow) else old(lines)
    {
      hide Candidate, Cells, RowEnd;
      var span := VerificationTableSpan(named);
      if span.None? { return false; }
      var (separator, rows) := span.value;
      ghost var c := FirstCandidate(lines, 0, named);
      ghost var from := Under(lines, c);
      ghost var end := RowEnd(lines, from);
      ghost var first := FirstKeyed(lines, from, end, key);
      var n := 0;
      while n < |rows| && Cells(lines[rows[n]])[0] != key
        invariant n <= |rows| && from + n <= first
        invariant lines == old(lines)
      {
        n := n + 1;
      }
      if n < |rows| {
        assert first == rows[n] < end;
        assert lines[first := newRow] == Splice(lines, first, 1, newRow);
        lines := lines[rows[n] := newRow];
      } else {
        var at := if rows != [] then rows[|rows| - 1] + 1 else separator + 1;
        at := if at <= |lines| then at else |lines|;
        assert at == end == first;
        lines := lines[..at] + [newRow] + lines[at..];
      }
      return true;
    }
  }

  function Indexes(from: nat, to: nat): (r: seq<nat>)
    ensures from <= to ==> |r| == to - from && forall i :: 0 <= i < |r| ==> r[i] == from + i
  {
    if from >= to then [] else Indexes(from, to - 1) + [to - 1]
  }
}
