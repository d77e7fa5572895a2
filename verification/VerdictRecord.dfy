/** The whole record file: front matter and body.  The writer scans all of it and the reader
    only the body, so they agree on every body when the front matter is neutral. */
module VerdictRecord {
  import opened Outcomes
  import opened Markdown
  import opened TableText
  import opened AcceptanceTable
  import opened Dates
  import opened VerdictLines
  import opened VerdictDates
  import opened VerdictAgreement

  predicate FrontMatter(front: seq<string>) {
    && |front| >= 2 && front[0] == DELIMITER && front[|front| - 1] == DELIMITER
    && forall k :: 1 <= k < |front| - 1 ==> front[k] != DELIMITER
  }

  /** The front matter leaves the scanner in plain text, outside the section, and holds no header. */
  predicate Neutral(front: seq<string>, named: TitleTest) {
    && After(Plain, front) == Plain && !InSection(front, |front|, named)
    && forall k :: 0 <= k < |front| ==> !Candidate(front, k, named, VERIFICATION_COLUMNS)
  }

  /** What the gate reads from a record file: the table in the body after the closing delimiter. */
  function Reread(lines: seq<string>, named: TitleTest): Option<seq<Row>> {
    if lines == [] || lines[0] != DELIMITER || Closing(lines) >= |lines| then None
    else StrictRows(lines[Closing(lines) + 1..], named, VERIFICATION_COLUMNS)
  }

  lemma ClosingIs(front: seq<string>, body: seq<string>)
    requires FrontMatter(front)
    ensures Closing(front + body) == |front| - 1 && (front + body)[|front|..] == body
  {
    FirstDelimiterIs(front + body, 1, |front| - 1);
  }

  lemma RereadIs(front: seq<string>, body: seq<string>, named: TitleTest)
    requires FrontMatter(front)
    ensures Reread(front + body, named) == StrictRows(body, named, VERIFICATION_COLUMNS)
  {
    hide StrictRows;
    ClosingIs(front, body);
  }

  // ---- the dates ----

  /** A bump stays inside the front matter, which stays front matter. */
  lemma BumpedFront(front: seq<string>, body: seq<string>, field: string, observed: string)
    requires FrontMatter(front) && AsDate(observed).Some?
    ensures Bumped(front + body, field, observed) == Bumped(front, field, observed) + body
    ensures FrontMatter(Bumped(front, field, observed))
  {
    hide FieldValue, AsDate;
    var lines, n := front + body, |front| - 1;
    ClosingIs(front, body);
    ClosingIs(front, []);
    assert front + [] == front;
    var k := FirstField(front, 1, n, field);
    FirstFieldIs(lines, 1, n, field, k);
    FieldIsNoDelimiter(field, observed);
    if k < n {
      var line := field + ": " + observed;
      assert lines[k := line] == front[k := line] + body;
    }
  }

  lemma BothBumpedFront(front: seq<string>, body: seq<string>, observed: string)
    requires FrontMatter(front) && AsDate(observed).Some?
    ensures BothBumped(front + body, observed) == BothBumped(front, observed) + body
    ensures FrontMatter(BothBumped(front, observed))
  {
    hide Bumped, AsDate, FrontMatter;
    BumpedFront(front, body, CUTOFF, observed);
    BumpedFront(Bumped(front, CUTOFF, observed), body, UPDATED, observed);
  }

  // ---- scanning through the front matter ----

  lemma {:induction false} SectionInFront(front: seq<string>, body: seq<string>, k: nat, named: TitleTest)
    requires k <= |front|
    ensures InSection(front + body, k, named) == InSection(front, k, named)
  {
    hide AnyHeading, Matched, SameLine;
    if k > 0 {
      SectionInFront(front, body, k - 1, named);
      PrefixSame(front, body, k - 1);
      SameLineReads(front + body, k - 1, front, k - 1, named, []);
    }
  }

  lemma CandidateInFront(front: seq<string>, body: seq<string>, k: nat, named: TitleTest)
    requires k < |front|
    ensures Candidate(front + body, k, named, VERIFICATION_COLUMNS) == Candidate(front, k, named, VERIFICATION_COLUMNS)
  {
    hide InSection, HeaderAt, SameLine;
    SectionInFront(front, body, k, named);
    PrefixSame(front, body, k);
    SameLineReads(front + body, k, front, k, named, VERIFICATION_COLUMNS);
  }

  lemma {:induction false} SectionInBody(front: seq<string>, body: seq<string>, k: nat, named: TitleTest)
    requires After(Plain, front) == Plain && !InSection(front, |front|, named) && k <= |body|
    ensures InSection(front + body, |front| + k, named) == InSection(body, k, named)
  {
    hide AnyHeading, Matched, SameLine, After;
    if k == 0 {
      SectionInFront(front, body, |front|, named);
    } else {
      SectionInBody(front, body, k - 1, named);
      SuffixSame(front, body, k - 1);
      SameLineReads(front + body, |front| + k - 1, body, k - 1, named, []);
      SectionStep(front + body, |front| + k - 1, named);
      SectionStep(body, k - 1, named);
    }
  }

  /** After neutral lines the body is read as it is alone. */
  lemma NeutralLine(front: seq<string>, body: seq<string>, k: nat, named: TitleTest)
    requires Neutral(front, named) && k < |body|
    ensures SameLine(front + body, |front| + k, body, k)
    ensures Matched(front + body, |front| + k, named) == Matched(body, k, named)
    ensures RowAt(front + body, |front| + k) == RowAt(body, k)
    ensures Candidate(front + body, |front| + k, named, VERIFICATION_COLUMNS) == Candidate(body, k, named, VERIFICATION_COLUMNS)
  {
    hide InSection, HeaderAt, SameLine, After, Matched, RowAt;
    SectionInBody(front, body, k, named);
    SuffixSame(front, body, k);
    SameLineReads(front + body, |front| + k, body, k, named, VERIFICATION_COLUMNS);
  }

  lemma FirstCandidateIs(lines: seq<string>, k: nat, named: TitleTest)
    requires k <= |lines| && (k < |lines| ==> Candidate(lines, k, named, VERIFICATION_COLUMNS))
    requires forall j :: 0 <= j < k ==> !Candidate(lines, j, named, VERIFICATION_COLUMNS)
    ensures FirstCandidate(lines, 0, named) == k
  {
    hide *;
    var f := FirstCandidate(lines, 0, named);
    assert f <= k && k <= f;
  }

  /** Neutral lines move the writer's header and nothing else. */
  lemma NeutralCandidate(front: seq<string>, body: seq<string>, named: TitleTest)
    requires Neutral(front, named)
    ensures FirstCandidate(front + body, 0, named) == |front| + FirstCandidate(body, 0, named)
  {
    hide Candidate, After, InSection, SameLine, Matched, RowAt, FirstCandidate;
    var lines, d := front + body, FirstCandidate(body, 0, named);
    forall k | 0 <= k < |front| + d ensures !Candidate(lines, k, named, VERIFICATION_COLUMNS) {
      if k < |front| {
        CandidateInFront(front, body, k, named);
      } else {
        NeutralLine(front, body, k - |front|, named);
      }
    }
    if d < |body| {
      NeutralLine(front, body, d, named);
    }
    FirstCandidateIs(lines, |front| + d, named);
  }

  lemma NeutralRowEnd(front: seq<string>, body: seq<string>, from: nat, named: TitleTest)
    requires Neutral(front, named) && from <= |body|
    ensures RowEnd(front + body, |front| + from) == |front| + RowEnd(body, from)
  {
    hide Neutral, RowAt;
    var e := RowEnd(body, from);
    forall k | |front| + from <= k < |front| + e ensures RowAt(front + body, k) {
      NeutralLine(front, body, k - |front|, named);
    }
    if e < |body| {
      NeutralLine(front, body, e, named);
    }
    RowEndIs(front + body, |front| + from, |front| + e);
  }

  lemma FirstKeyedIs(lines: seq<string>, from: nat, end: nat, key: string, k: nat)
    requires from <= k <= end <= |lines| && (k < end ==> Cells(lines[k])[0] == key)
    requires forall j :: from <= j < k ==> Cells(lines[j])[0] != key
    ensures FirstKeyed(lines, from, end, key) == k
  {
    hide Cells;
    var f := FirstKeyed(lines, from, end, key);
    assert f <= k && k <= f;
  }

  lemma FirstKeyedShift(front: seq<string>, body: seq<string>, from: nat, end: nat, key: string)
    requires from <= end <= |body|
    ensures FirstKeyed(front + body, |front| + from, |front| + end, key) == |front| + FirstKeyed(body, from, end, key)
  {
    hide Cells;
    var lines, b := front + body, FirstKeyed(body, from, end, key);
    forall j | |front| + from <= j < |front| + b ensures Cells(lines[j])[0] != key {
      assert lines[j] == body[j - |front|];
    }
    FirstKeyedIs(lines, |front| + from, |front| + end, key, |front| + b);
  }

  lemma SpliceShift(front: seq<string>, body: seq<string>, p: nat, x: nat, row: string)
    requires p + x <= |body|
    ensures Splice(front + body, |front| + p, x, row) == front + Splice(body, p, x, row)
  {
  }

  lemma PlacedIs(lines: seq<string>, c: nat, key: string, row: string, from: nat, end: nat, k: nat)
    requires c < |lines| && from == Under(lines, c) && end == RowEnd(lines, from) && k == FirstKeyed(lines, from, end, key)
    ensures Placed(lines, c, key, row) == Splice(lines, k, if k < end then 1 else 0, row)
  {
    hide RowEnd, FirstKeyed, Splice;
  }

  lemma UnderShift(front: seq<string>, body: seq<string>, c: nat)
    requires c < |body|
    ensures Under(front + body, |front| + c) == |front| + Under(body, c)
  {
  }

  lemma NeutralPlaced(front: seq<string>, body: seq<string>, c: nat, key: string, row: string, named: TitleTest)
    requires Neutral(front, named) && c < |body|
    ensures Placed(front + body, |front| + c, key, row) == front + Placed(body, c, key, row)
  {
    hide *;
    UnderShift(front, body, c);
    var from := Under(body, c);
    NeutralRowEnd(front, body, from, named);
    var end := RowEnd(body, from);
    FirstKeyedShift(front, body, from, end, key);
    var k := FirstKeyed(body, from, end, key);
    SpliceShift(front, body, k, if k < end then 1 else 0, row);
    PlacedIs(body, c, key, row, from, end, k);
    PlacedIs(front + body, |front| + c, key, row, |front| + from, |front| + end, |front| + k);
  }

  // ---- agreement ----

  /** A record's file after writing: each part keeps to itself. */
  lemma WrittenIs(front: seq<string>, body: seq<string>, v: Verdict, named: TitleTest)
    requires FrontMatter(front) && Neutral(front, named) && AsDate(v.observed).Some?
    ensures var c := FirstCandidate(body, 0, named);
      Written(front + body, v, named)
      == if c < |body| then Some(BothBumped(front, v.observed) + Placed(body, c, Decimal(v.index), RowText(VerdictCells(v)))) else None
  {
    hide *;
    var c := FirstCandidate(body, 0, named);
    NeutralCandidate(front, body, named);
    WrittenUnfolds(front + body, v, named);
    if c < |body| {
      var row := RowText(VerdictCells(v));
      NeutralPlaced(front, body, c, Decimal(v.index), row, named);
      BothBumpedFront(front, Placed(body, c, Decimal(v.index), row), v.observed);
    }
  }

  lemma WrittenUnfolds(lines: seq<string>, v: Verdict, named: TitleTest)
    requires AsDate(v.observed).Some?
    ensures var c := FirstCandidate(lines, 0, named);
      Written(lines, v, named) == if c < |lines|
        then Some(BothBumped(Placed(lines, c, Decimal(v.index), RowText(VerdictCells(v))), v.observed)) else None
  {
    hide AsDate, BothBumped, RowText, VerdictCells, Placed, FirstCandidate;
  }

  lemma CleanVerdictRow(v: Verdict)
    requires CleanVerdict(v)
    ensures CleanRow(VerdictCells(v)) && VerdictCells(v)[0] == Decimal(v.index)
  {
    hide ContainsText, CleanCell;
    assert VERIFICATION_COLUMNS[0][0] == 'C';
  }

  /** On this body the written verdict reads back as the old rows with its own replaced or added. */
  predicate Agrees(front: seq<string>, body: seq<string>, v: Verdict, named: TitleTest)
    requires AsDate(v.observed).Some?
  {
    var rows, file := StrictRows(body, named, VERIFICATION_COLUMNS), Written(front + body, v, named);
    rows.Some? ==> file.Some? && Reread(file.value, named) == Some(Updated(rows.value, VerdictCells(v)))
  }

  /** Neutral front matter suffices, for every body. */
  lemma NeutralAgrees(front: seq<string>, body: seq<string>, v: Verdict, named: TitleTest)
    requires FrontMatter(front) && Neutral(front, named) && CleanVerdict(v)
    ensures Agrees(front, body, v, named)
  {
    hide Neutral, FrontMatter, AsDate, BothBumped, RowText, VerdictCells, Placed, StrictRows, Reread, Written, CleanRow;
    if StrictRows(body, named, VERIFICATION_COLUMNS).Some? {
      CleanVerdictRow(v);
      PlacedReadsBack(body, VerdictCells(v), named);
      WrittenIs(front, body, v, named);
      BothBumpedFront(front, [], v.observed);
      RereadIs(BothBumped(front, v.observed), Placed(body, FirstCandidate(body, 0, named), Decimal(v.index), RowText(VerdictCells(v))), named);
    }
  }
}
