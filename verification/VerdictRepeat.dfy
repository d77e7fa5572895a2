/** Writing the same verdict a second time: when it changes nothing on any body, what makes the
    bumped front matter as neutral as the old one, and front matter for which the second writing
    fails. */
module VerdictRepeat {
  import opened Outcomes
  import opened Markdown
  import opened TableText
  import opened AcceptanceTable
  import opened Dates
  import opened VerdictLines
  import opened VerdictDates
  import opened VerdictAgreement
  import opened VerdictRecord
  import opened VerdictLaws
  import opened VerdictTwice
  import opened VerdictWitness

  /** On this body the second writing leaves the file as the first one left it. */
  predicate Repeats(front: seq<string>, body: seq<string>, v: Verdict, named: TitleTest)
    requires AsDate(v.observed).Some?
  {
    var file := Written(front + body, v, named);
    StrictRows(body, named, VERIFICATION_COLUMNS).Some? ==> file.Some? && Written(file.value, v, named) == file
  }

  lemma RepeatsIs(front: seq<string>, body: seq<string>, v: Verdict, named: TitleTest)
    requires AsDate(v.observed).Some?
    ensures Repeats(front, body, v, named)
      <==> (StrictRows(body, named, VERIFICATION_COLUMNS).Some? ==>
              Written(front + body, v, named).Some? && Written(Written(front + body, v, named).value, v, named) == Written(front + body, v, named))
  {
    hide StrictRows, Written, AsDate;
  }

  /** The row that is to be written stands already, where the writer looks, in these lines. */
  predicate RowStands(front: seq<string>, v: Verdict, named: TitleTest) {
    RowUnder(front, FirstCandidate(front, 0, named), Decimal(v.index), RowText(VerdictCells(v)))
  }

  /** The first row with this key under the header at `c` is this one. */
  predicate RowUnder(lines: seq<string>, c: nat, key: string, row: string) {
    c + 2 <= |lines|
    && var e := RowEnd(lines, c + 2);
       var k := FirstKeyed(lines, c + 2, e, key);
       k < e && lines[k] == row
  }

  // ---- a header in the front matter ----

  /** With a header in the front matter the writer never looks further. */
  lemma WriterStaysInFront(front: seq<string>, body: seq<string>, key: string, named: TitleTest)
    requires FrontMatter(front) && FirstCandidate(front, 0, named) < |front|
    ensures var lines, c := front + body, FirstCandidate(front, 0, named);
      && FirstCandidate(lines, 0, named) == c && c + 2 <= |front|
      && (c + 2 < |front| ==>
            var e := RowEnd(front, c + 2);
            RowEnd(lines, c + 2) == e < |front| && FirstKeyed(lines, c + 2, e, key) == FirstKeyed(front, c + 2, e, key))
  {
    hide *;
    var lines, c := front + body, FirstCandidate(front, 0, named);
    FrontEnds(front);
    forall j | 0 <= j <= c ensures Candidate(lines, j, named, VERIFICATION_COLUMNS) == Candidate(front, j, named, VERIFICATION_COLUMNS) {
      CandidateInFront(front, body, j, named);
    }
    FirstCandidateIs(lines, c, named);
    CandidateIsRow(front, c, named, VERIFICATION_COLUMNS);
    DelimiterIsNoRow(front, |front| - 1);
    if c + 2 < |front| {
      var e := RowEnd(front, c + 2);
      forall j | c + 2 <= j < |front| ensures RowAt(lines, j) == RowAt(front, j) {
        PrefixSame(front, body, j);
        SameLineReads(lines, j, front, j, named, VERIFICATION_COLUMNS);
      }
      assert e <= |front| - 1;
      RowEndIs(lines, c + 2, e);
      var k := FirstKeyed(front, c + 2, e, key);
      assert forall j :: 0 <= j < |front| ==> lines[j] == front[j];
      FirstKeyedIs(lines, c + 2, e, key, k);
    }
  }

  lemma FrontEnds(front: seq<string>)
    requires FrontMatter(front)
    ensures |front| >= 2 && front[0] in {DELIMITER, HEADING} && front[|front| - 1] in {DELIMITER, HEADING}
  {
  }

  lemma StandsUnder(front: seq<string>, v: Verdict, named: TitleTest)
    ensures RowStands(front, v, named) == RowUnder(front, FirstCandidate(front, 0, named), Decimal(v.index), RowText(VerdictCells(v)))
  {
    hide FirstCandidate, RowUnder, Decimal, RowText, VerdictCells;
  }

  lemma UnderParts(lines: seq<string>, c: nat, key: string, row: string)
    requires c + 2 <= |lines|
    ensures var e := RowEnd(lines, c + 2); var k := FirstKeyed(lines, c + 2, e, key);
      RowUnder(lines, c, key, row) <==> k < e && lines[k] == row
  {
    hide RowEnd, FirstKeyed;
  }

  lemma UnderFits(lines: seq<string>, c: nat, key: string, row: string)
    ensures RowUnder(lines, c, key, row) ==> c + 2 < |lines|
  {
    hide FirstKeyed;
  }

  lemma SpliceSame(lines: seq<string>, k: nat, row: string)
    requires k < |lines|
    ensures (Splice(lines, k, 1, row) == lines <==> lines[k] == row) && Splice(lines, k, 1, row)[k] == row
  {
  }

  /** Such a row is written over itself, and the bumped dates stay as they are. */
  lemma StandingRowRepeats(front: seq<string>, body: seq<string>, v: Verdict, named: TitleTest)
    requires FrontMatter(front) && AsDate(v.observed).Some? && BothBumped(front, v.observed) == front && RowStands(front, v, named)
    ensures Written(front + body, v, named) == Some(front + body)
  {
    hide *;
    var lines, key, row := front + body, Decimal(v.index), RowText(VerdictCells(v));
    StandsUnder(front, v, named);
    var c := FirstCandidate(front, 0, named);
    UnderFits(front, c, key, row);
    WriterStaysInFront(front, body, key, named);
    UnderParts(front, c, key, row);
    var e := RowEnd(front, c + 2);
    var k := FirstKeyed(front, c + 2, e, key);
    UnderIs(lines, c);
    PlacedIs(lines, c, key, row, c + 2, e, k);
    SpliceSame(lines, k, row);
    WrittenUnfolds(lines, v, named);
    BothBumpedFront(front, body, v.observed);
  }

  lemma RowIsNoField(line: string, field: string)
    requires line != [] && line[0] == '|' && field in {CUTOFF, UPDATED}
    ensures FieldValue(line, field).None?
  {
    if FieldValue(line, field).Some? {
      FieldStart(line, field);
      assert false;
    }
  }

  lemma BumpKeepsRow(lines: seq<string>, field: string, observed: string, k: nat)
    requires AsDate(observed).Some? && field in {CUTOFF, UPDATED} && k < |lines| && lines[k] != [] && lines[k][0] == '|'
    ensures Bumped(lines, field, observed)[k] == lines[k]
  {
    hide FieldValue, AsDate;
    RowIsNoField(lines[k], field);
  }

  lemma BothKeepRow(lines: seq<string>, observed: string, k: nat)
    requires AsDate(observed).Some? && k < |lines| && lines[k] != [] && lines[k][0] == '|'
    ensures BothBumped(lines, observed)[k] == lines[k]
  {
    hide AsDate, Bumped;
    BumpKeepsRow(lines, CUTOFF, observed, k);
    BumpKeepsRow(Bumped(lines, CUTOFF, observed), UPDATED, observed, k);
  }

  lemma RowStartsWithBar(cells: Row)
    requires cells != []
    ensures RowText(cells) != [] && RowText(cells)[0] == '|'
  {
    hide Inner;
  }

  lemma HeaderChangesAgain(front: seq<string>, body: seq<string>, c: nat, v: Verdict, named: TitleTest)
    requires FrontMatter(front) && AsDate(v.observed).Some? && !RowStands(front, v, named) && body != [] && body[0] == HEADING
    requires c < |front| && Candidate(front, c, named, VERIFICATION_COLUMNS)
    ensures Written(front + body, v, named) != Some(front + body)
  {
    hide *;
    var lines, key, row := front + body, Decimal(v.index), RowText(VerdictCells(v));
    FrontHeader(front, body, c, named);
    WriterStaysInFront(front, body, key, named);
    StandsUnder(front, v, named);
    var d := FirstCandidate(front, 0, named);
    UnderParts(front, d, key, row);
    UnderIs(lines, d);
    var e := RowEnd(lines, d + 2);
    var k := FirstKeyed(lines, d + 2, e, key);
    PlacedIs(lines, d, key, row, d + 2, e, k);
    WrittenUnfolds(lines, v, named);
    if k < e {
      SpliceSame(lines, k, row);
      RowStartsWithBar(VerdictCells(v));
      BothKeepRow(Splice(lines, k, 1, row), v.observed, k);
    }
  }

  // ---- an open section, an open block ----

  lemma OpenSectionGrows(front: seq<string>, body: seq<string>, v: Verdict, named: TitleTest)
    requires FrontMatter(front) && AsDate(v.observed).Some? && TableFirst(body)
    requires After(Plain, front) == Plain && InSection(front, |front|, named)
    requires forall k :: 0 <= k < |front| ==> !Candidate(front, k, named, VERIFICATION_COLUMNS)
    ensures Written(front + body, v, named) != Some(front + body)
  {
    hide *;
    var lines, c, key, row := front + body, |front|, Decimal(v.index), RowText(VerdictCells(v));
    OpenSectionHeader(front, body, named);
    UnderIs(lines, c);
    var k := FirstKeyed(lines, c + 2, c + 2, key);
    PlacedIs(lines, c, key, row, c + 2, c + 2, k);
    WrittenUnfolds(lines, v, named);
  }

  lemma OpenBlockHides(front: seq<string>, body: seq<string>, v: Verdict, named: TitleTest)
    requires AsDate(v.observed).Some? && After(Plain, front) != Plain
    requires |body| <= 4 && forall j :: 0 <= j < |body| && j < 3 ==> Tame(body[j])
    requires forall k :: 0 <= k < |front| ==> !Candidate(front, k, named, VERIFICATION_COLUMNS)
    ensures Written(front + body, v, named).None?
  {
    hide *;
    var lines := front + body;
    forall k | 0 <= k < |lines| ensures !Candidate(lines, k, named, VERIFICATION_COLUMNS) {
      if k < |front| {
        CandidateInFront(front, body, k, named);
      } else {
        HiddenAfter(front, body, k - |front|, named);
      }
    }
    FirstCandidateIs(lines, |lines|, named);
    WrittenUnfolds(lines, v, named);
  }

  // ---- what the first writing leaves ----

  /** The first writing puts the bumped front matter before a body that still starts as it did. */
  lemma FirstWriting(front: seq<string>, body: seq<string>, v: Verdict, named: TitleTest, n: nat) returns (rest: seq<string>)
    requires FrontMatter(front) && Neutral(front, named) && AsDate(v.observed).Some?
    requires StrictRows(body, named, VERIFICATION_COLUMNS).Some? && n <= |body| && n <= 3
    requires forall k :: 0 <= k < |body| && k + 2 < n ==> !Candidate(body, k, named, VERIFICATION_COLUMNS)
    ensures Written(front + body, v, named) == Some(BothBumped(front, v.observed) + rest)
    ensures |body| <= |rest| <= |body| + 1 && forall j :: 0 <= j < n ==> rest[j] == body[j]
  {
    hide *;
    var c := FirstCandidate(body, 0, named);
    TableIsThere(body, named);
    WrittenIs(front, body, v, named);
    rest := Placed(body, c, Decimal(v.index), RowText(VerdictCells(v)));
    PlacedKeeps(body, c, Decimal(v.index), RowText(VerdictCells(v)));
    UnderBound(body, c);
  }

  lemma UnderBound(lines: seq<string>, c: nat)
    requires c < |lines|
    ensures Under(lines, c) == if c + 2 <= |lines| then c + 2 else |lines|
  {
  }

  lemma TableIsThere(body: seq<string>, named: TitleTest)
    requires StrictRows(body, named, VERIFICATION_COLUMNS).Some?
    ensures FirstCandidate(body, 0, named) < |body|
  {
    hide *;
    var h, i, m := ReaderFinds(body, named, VERIFICATION_COLUMNS);
    TableBounds(body, h, i, m, named, VERIFICATION_COLUMNS);
    FirstIsOnly(body, h, i, m, named);
  }

  lemma NotRepeated(front: seq<string>, body: seq<string>, file: seq<string>, v: Verdict, named: TitleTest)
    requires AsDate(v.observed).Some? && StrictRows(body, named, VERIFICATION_COLUMNS).Some?
    requires Written(front + body, v, named) == Some(file) && Written(file, v, named) != Some(file)
    ensures !Repeats(front, body, v, named)
  {
    hide StrictRows, Written, AsDate;
  }

  lemma NotRepeatedAfterHeader(front: seq<string>, c: nat, v: Verdict, named: TitleTest)
    requires FrontMatter(front) && Neutral(front, named) && CleanVerdict(v) && named("Verification") && AsDate(v.observed).Some?
    requires var after := BothBumped(front, v.observed);
      !RowStands(after, v, named) && c < |after| && Candidate(after, c, named, VERIFICATION_COLUMNS)
    ensures !Repeats(front, EmptyTable(), v, named)
  {
    hide *;
    EmptyTableRead(named);
    EmptyTableStarts();
    BothBumpedFront(front, [], v.observed);
    var rest := FirstWriting(front, EmptyTable(), v, named, 1);
    HeaderChangesAgain(BothBumped(front, v.observed), rest, c, v, named);
    NotRepeated(front, EmptyTable(), BothBumped(front, v.observed) + rest, v, named);
  }

  lemma NotRepeatedInSection(front: seq<string>, v: Verdict, named: TitleTest)
    requires FrontMatter(front) && Neutral(front, named) && CleanVerdict(v) && named("Verification") && AsDate(v.observed).Some?
    requires var after := BothBumped(front, v.observed);
      && After(Plain, after) == Plain && InSection(after, |after|, named)
      && forall k :: 0 <= k < |after| ==> !Candidate(after, k, named, VERIFICATION_COLUMNS)
    ensures !Repeats(front, Table() + EmptyTable(), v, named)
  {
    hide *;
    var body, after := Table() + EmptyTable(), BothBumped(front, v.observed);
    TableSize();
    EmptyTableSize();
    TableIsTame(named);
    RowsBeforeEmptyTable(Table(), named);
    forall k | 0 <= k < |body| && k + 2 < 3 ensures !Candidate(body, k, named, VERIFICATION_COLUMNS) {
      NoSection(body, k, named);
      OutsideIsNoCandidate(body, k, named);
    }
    BothBumpedFront(front, [], v.observed);
    var rest := FirstWriting(front, body, v, named, 3);
    TableIsFirst();
    StillTableFirst(body, rest);
    OpenSectionGrows(after, rest, v, named);
    NotRepeated(front, body, after + rest, v, named);
  }

  lemma StillTableFirst(body: seq<string>, rest: seq<string>)
    requires TableFirst(body) && |rest| >= |body| && forall j :: 0 <= j < 3 ==> rest[j] == body[j]
    ensures TableFirst(rest)
  {
    hide RowText;
  }

  lemma NotRepeatedInBlock(front: seq<string>, v: Verdict, named: TitleTest)
    requires FrontMatter(front) && Neutral(front, named) && CleanVerdict(v) && named("Verification") && AsDate(v.observed).Some?
    requires var after := BothBumped(front, v.observed);
      && After(Plain, after) != Plain
      && forall k :: 0 <= k < |after| ==> !Candidate(after, k, named, VERIFICATION_COLUMNS)
    ensures !Repeats(front, EmptyTable(), v, named)
  {
    hide *;
    EmptyTableRead(named);
    EmptyTableIsTame();
    NoSection(EmptyTable(), 0, named);
    OutsideIsNoCandidate(EmptyTable(), 0, named);
    var rest := FirstWriting(front, EmptyTable(), v, named, 3);
    OpenBlockHides(BothBumped(front, v.observed), rest, v, named);
    NotRepeated(front, EmptyTable(), BothBumped(front, v.observed) + rest, v, named);
  }

  // ---- the exact condition ----

  lemma PlainIsOk()
    ensures ScanOk(Plain)
  {
  }

  lemma NotNeutral(front: seq<string>, named: TitleTest)
    ensures Neutral(front, named) <==> (
      After(Plain, front) == Plain && !InSection(front, |front|, named)
      && forall k :: 0 <= k < |front| ==> !Candidate(front, k, named, VERIFICATION_COLUMNS))
  {
    hide Candidate, InSection, After;
  }

  /** The second writing changes no file, whatever its body, exactly when the bumped front matter
      is neutral, or holds a header with the very row that is written. */
  lemma RepeatsExactly(front: seq<string>, v: Verdict, named: TitleTest)
    requires FrontMatter(front) && Neutral(front, named) && CleanVerdict(v) && named("Verification")
    ensures AsDate(v.observed).Some?
    ensures var after := BothBumped(front, v.observed);
      (forall body :: Repeats(front, body, v, named)) <==> Neutral(after, named) || RowStands(after, v, named)
  {
    hide *;
    CleanHasDate(v);
    var after := BothBumped(front, v.observed);
    BothBumpedFront(front, [], v.observed);
    NotNeutral(after, named);
    PlainIsOk();
    if Neutral(after, named) || RowStands(after, v, named) {
      forall body ensures Repeats(front, body, v, named) { SomeRepeat(front, body, v, named); }
    } else if c :| 0 <= c < |after| && Candidate(after, c, named, VERIFICATION_COLUMNS) {
      NotRepeatedAfterHeader(front, c, v, named);
    } else if After(Plain, after) == Plain {
      NotRepeatedInSection(front, v, named);
    } else {
      NotRepeatedInBlock(front, v, named);
    }
  }

  lemma SomeRepeat(front: seq<string>, body: seq<string>, v: Verdict, named: TitleTest)
    requires FrontMatter(front) && Neutral(front, named) && CleanVerdict(v) && AsDate(v.observed).Some?
    requires var after := BothBumped(front, v.observed); Neutral(after, named) || RowStands(after, v, named)
    ensures Repeats(front, body, v, named)
  {
    hide *;
    var after := BothBumped(front, v.observed);
    RepeatsIs(front, body, v, named);
    if StrictRows(body, named, VERIFICATION_COLUMNS).Some? {
      if Neutral(after, named) {
        WrittenTwice(front, body, v, named);
      } else {
        BumpedTwice(front, v.observed);
        BothBumpedFront(front, [], v.observed);
        var rest := FirstWriting(front, body, v, named, 0);
        StandingRowRepeats(after, rest, v, named);
      }
    }
  }

  // ---- field lines without comment markers ----

  /** A line that starts like a field and neither opens nor closes a comment. */
  predicate Quiet(line: string) {
    line != [] && line[0] in {'e', 'u'} && !ContainsText(line, OPEN_COMMENT) && !ContainsText(line, CLOSE_COMMENT)
  }

  /** Such a line leaves the scanner where it is, and is no heading and no row. */
  lemma QuietNext(st: Scan, line: string)
    requires ScanOk(st) && Quiet(line)
    ensures Next(st, line) == st && Title(line).None? && !PipeRow(line)
  {
    hide ContainsText;
    assert Run(line, ' ') == 0 && line[0..] == line && Run(line, '`') == 0 && Run(line, '~') == 0;
    if |line| >= 2 { assert line[..2][0] == line[0]; }
  }

  lemma {:induction false} SwapAfter(lines: seq<string>, k: nat, line: string, j: nat)
    requires k < |lines| && j <= |lines| && Quiet(lines[k]) && Quiet(line)
    ensures After(Plain, lines[k := line][..j]) == After(Plain, lines[..j])
  {
    hide Next, Quiet, Title, PipeRow, After;
    if j > 0 {
      SwapAfter(lines, k, line, j - 1);
      AfterNext(lines, j - 1);
      AfterNext(lines[k := line], j - 1);
      if j - 1 == k {
        QuietNext(After(Plain, lines[..k]), lines[k]);
        QuietNext(After(Plain, lines[..k]), line);
      }
    } else {
      assert lines[k := line][..0] == lines[..0];
    }
  }

  lemma QuietReads(lines: seq<string>, k: nat, named: TitleTest)
    requires k < |lines| && Quiet(lines[k])
    ensures !AnyHeading(lines, k) && !Matched(lines, k, named) && !HeaderAt(lines, k, VERIFICATION_COLUMNS)
  {
    hide Quiet, Title, PipeRow, VisibleAt, Cells, Next;
    QuietNext(Plain, lines[k]);
  }

  lemma SwapReads(lines: seq<string>, k: nat, line: string, j: nat, named: TitleTest)
    requires k < |lines| && j < |lines| && Quiet(lines[k]) && Quiet(line)
    ensures var swapped := lines[k := line];
      && AnyHeading(swapped, j) == AnyHeading(lines, j) && Matched(swapped, j, named) == Matched(lines, j, named)
      && HeaderAt(swapped, j, VERIFICATION_COLUMNS) == HeaderAt(lines, j, VERIFICATION_COLUMNS)
  {
    hide Quiet, After, Shows, Matched, AnyHeading, HeaderAt;
    var swapped := lines[k := line];
    SwapAfter(lines, k, line, j);
    if j == k {
      QuietReads(lines, k, named);
      QuietReads(swapped, k, named);
    } else {
      assert SameLine(swapped, j, lines, j);
      SameLineReads(swapped, j, lines, j, named, VERIFICATION_COLUMNS);
    }
  }

  lemma {:induction false} SwapSection(lines: seq<string>, k: nat, line: string, j: nat, named: TitleTest)
    requires k < |lines| && j <= |lines| && Quiet(lines[k]) && Quiet(line)
    ensures InSection(lines[k := line], j, named) == InSection(lines, j, named)
  {
    hide Quiet, Matched, AnyHeading, HeaderAt;
    if j > 0 {
      SwapSection(lines, k, line, j - 1, named);
      SwapReads(lines, k, line, j - 1, named);
    }
  }

  lemma CandidateParts(lines: seq<string>, k: nat, named: TitleTest)
    requires k < |lines|
    ensures Candidate(lines, k, named, VERIFICATION_COLUMNS) <==> HeaderAt(lines, k, VERIFICATION_COLUMNS) && InSection(lines, k, named)
  {
    hide HeaderAt, InSection;
  }

  /** One quiet line for another leaves neutral lines neutral. */
  lemma SwapNeutral(lines: seq<string>, k: nat, line: string, named: TitleTest)
    requires k < |lines| && Quiet(lines[k]) && Quiet(line)
    ensures Neutral(lines[k := line], named) == Neutral(lines, named)
  {
    hide *;
    var swapped := lines[k := line];
    PlainIsOk();
    SwapAfter(lines, k, line, |lines|);
    assert swapped[..|lines|] == swapped && lines[..|lines|] == lines;
    SwapSection(lines, k, line, |lines|, named);
    forall j | 0 <= j < |lines|
      ensures Candidate(swapped, j, named, VERIFICATION_COLUMNS) == Candidate(lines, j, named, VERIFICATION_COLUMNS)
    {
      SwapReads(lines, k, line, j, named);
      SwapSection(lines, k, line, j, named);
      CandidateParts(lines, j, named);
      CandidateParts(swapped, j, named);
    }
    NotNeutral(lines, named);
    NotNeutral(swapped, named);
  }

  /** No cutoff or updated line of the front matter opens or closes a comment. */
  predicate FieldsUnmarked(front: seq<string>) {
    forall k :: 0 <= k < |front| && (FieldValue(front[k], CUTOFF).Some? || FieldValue(front[k], UPDATED).Some?) ==> Quiet(front[k])
  }

  lemma FieldLineIsQuiet(field: string, observed: string)
    requires AsDate(observed).Some? && field in {CUTOFF, UPDATED}
    ensures Quiet(field + ": " + observed)
  {
    hide ContainsText, AsDate;
    var line := field + ": " + observed;
    assert line[0] == field[0] && CUTOFF[0] == 'e' && UPDATED[0] == 'u';
    NoAngle(field, observed);
    LineWithoutOpening(line);
    LineWithoutClosing(line);
  }

  lemma BumpNeutral(front: seq<string>, field: string, observed: string, named: TitleTest)
    requires AsDate(observed).Some? && field in {CUTOFF, UPDATED} && FieldsUnmarked(front)
    ensures Neutral(Bumped(front, field, observed), named) == Neutral(front, named)
    ensures FieldsUnmarked(Bumped(front, field, observed))
  {
    hide FieldValue, AsDate, Neutral, Quiet;
    FieldLineIsQuiet(field, observed);
    var closing := Closing(front);
    if closing < |front| {
      var k := FirstField(front, 1, closing, field);
      if k < closing { SwapNeutral(front, k, field + ": " + observed, named); }
    }
  }

  /** The dates can be bumped without touching what the scanner sees, so neutral front matter whose
      field lines hold no comment marker has every second writing change nothing. */
  lemma UnmarkedRepeats(front: seq<string>, body: seq<string>, v: Verdict, named: TitleTest)
    requires FrontMatter(front) && Neutral(front, named) && FieldsUnmarked(front) && CleanVerdict(v)
    ensures AsDate(v.observed).Some? && Neutral(BothBumped(front, v.observed), named) && Repeats(front, body, v, named)
  {
    hide *;
    CleanHasDate(v);
    BothBumpedIs(front, v.observed);
    BumpNeutral(front, CUTOFF, v.observed, named);
    BumpNeutral(Bumped(front, CUTOFF, v.observed), UPDATED, v.observed, named);
    SomeRepeat(front, body, v, named);
  }

  lemma BothBumpedIs(front: seq<string>, observed: string)
    requires AsDate(observed).Some?
    ensures BothBumped(front, observed) == Bumped(Bumped(front, CUTOFF, observed), UPDATED, observed)
    ensures CUTOFF in {CUTOFF, UPDATED} && UPDATED in {CUTOFF, UPDATED}
  {
    hide AsDate, Bumped;
  }

  // ---- a second writing that fails ----

  const COMMENT_LINE := "# <!--"
  const CLOSING_LINE := "updated: -->"
  const DATED_LINE := "updated: 2024-01-01"

  /** A comment that the old value of a field closes and a date does not. */
  const CLOSING_FRONT: seq<string> := [DELIMITER, COMMENT_LINE, CLOSING_LINE, DELIMITER]

  const CLOSING_FRONT_DATED: seq<string> := [DELIMITER, COMMENT_LINE, DATED_LINE, DELIMITER]

  lemma ClosesComment()
    ensures Next(Comment, CLOSING_LINE) == Plain
  {
    assert CLOSING_LINE[9..] == CLOSE_COMMENT;
    assert Occurs(CLOSING_LINE, CLOSE_COMMENT, 9);
    FindTextFirst(CLOSING_LINE, CLOSE_COMMENT, 9);
  }

  lemma NoTitles()
    ensures Title(COMMENT_LINE).None? && Title(CLOSING_LINE).None?
  {
    assert COMMENT_LINE[..2][1] == ' ' && CLOSING_LINE[..2][0] == 'u';
  }

  lemma ClosingValue()
    ensures FieldValue(CLOSING_LINE, UPDATED) == Some(CLOSE_COMMENT) && FieldValue(CLOSING_LINE, CUTOFF).None?
  {
    hide FieldValue;
    assert CLOSING_LINE == UPDATED + ": " + CLOSE_COMMENT;
    FieldOf(UPDATED, CLOSE_COMMENT);
    OtherField(CLOSING_LINE);
  }

  lemma NotADate()
    ensures AsDate(CLOSE_COMMENT).None?
  {
  }

  lemma CommentIsNoField()
    ensures FieldValue(COMMENT_LINE, CUTOFF).None? && FieldValue(COMMENT_LINE, UPDATED).None?
  {
    assert COMMENT_LINE[0] == '#' && CUTOFF[0] == 'e' && UPDATED[0] == 'u';
    if FieldValue(COMMENT_LINE, CUTOFF).Some? { FieldStart(COMMENT_LINE, CUTOFF); assert false; }
    if FieldValue(COMMENT_LINE, UPDATED).Some? { FieldStart(COMMENT_LINE, UPDATED); assert false; }
  }

  lemma NoDelimiters()
    ensures COMMENT_LINE != DELIMITER && CLOSING_LINE != DELIMITER
  {
    assert COMMENT_LINE[0] == '#' && CLOSING_LINE[0] == 'u' && DELIMITER[0] == '-';
  }

  lemma FourLines(a: string, b: string, c: string, d: string)
    ensures After(Plain, [a, b, c, d]) == Next(Next(Next(Next(Plain, a), b), c), d)
  {
    hide Next;
    var lines := [a, b, c, d];
    AfterNothing();
    AfterNext(lines, 0);
    AfterNext(lines, 1);
    AfterNext(lines, 2);
    AfterNext(lines, 3);
    assert lines[..4] == lines;
  }

  lemma ClosingFrontIsNeutral(named: TitleTest)
    ensures FrontMatter(CLOSING_FRONT) && Neutral(CLOSING_FRONT, named)
  {
    hide Neutral, Title, Next, Shows, After, COMMENT_LINE, CLOSING_LINE, DELIMITER;
    NoDelimiters();
    DelimiterIsPlain();
    CommentLine();
    NoTitles();
    ClosesComment();
    TheCommentLine();
    FourLines(DELIMITER, COMMENT_LINE, CLOSING_LINE, DELIMITER);
    RowsAreNeutral(CLOSING_FRONT, named);
  }

  lemma TheCommentLine()
    ensures COMMENT_LINE == "# <!--"
  {
  }

  /** Both bumps of four lines of front matter whose third line is an undated `updated` field. */
  lemma FourBumped(a: string, b: string, value: string, observed: string)
    requires a != DELIMITER && b != DELIMITER && AsDate(observed).Some? && AsDate(value).None?
    requires FieldValue(a, CUTOFF).None? && FieldValue(a, UPDATED).None? && FieldValue(b, CUTOFF).None? && FieldValue(b, UPDATED) == Some(value)
    ensures BothBumped([DELIMITER, a, b, DELIMITER], observed) == [DELIMITER, a, UPDATED + ": " + observed, DELIMITER]
  {
    hide FieldValue, AsDate, DELIMITER, UPDATED, CUTOFF;
    var front := [DELIMITER, a, b, DELIMITER];
    FirstDelimiterIs(front, 1, 3);
    FirstFieldIs(front, 1, 3, CUTOFF, 3);
    FirstFieldIs(front, 1, 3, UPDATED, 2);
    assert Bumped(front, CUTOFF, observed) == front;
  }

  lemma DatedLine()
    ensures AsDate(VERDICT.observed).Some? && UPDATED + ": " + VERDICT.observed == DATED_LINE
  {
    hide AsDate;
    VerdictDate();
  }

  lemma ClosingFrontBumped()
    ensures AsDate(VERDICT.observed).Some? && BothBumped(CLOSING_FRONT, VERDICT.observed) == CLOSING_FRONT_DATED
  {
    hide FieldValue, AsDate, BothBumped, DELIMITER, COMMENT_LINE, CLOSING_LINE, DATED_LINE, CLOSE_COMMENT, UPDATED, VERDICT;
    DatedLine();
    NoDelimiters();
    ClosingValue();
    CommentIsNoField();
    NotADate();
    FourBumped(COMMENT_LINE, CLOSING_LINE, CLOSE_COMMENT, VERDICT.observed);
  }

  lemma NoRowNoCandidate(lines: seq<string>, k: nat, named: TitleTest)
    requires k < |lines| && !PipeRow(lines[k])
    ensures !Candidate(lines, k, named, VERIFICATION_COLUMNS)
  {
    hide PipeRow, VisibleAt, Cells, InSection;
  }

  lemma DatedLeavesComment(named: TitleTest)
    ensures ScanOk(Plain) && After(Plain, CLOSING_FRONT_DATED) != Plain
    ensures forall k :: 0 <= k < |CLOSING_FRONT_DATED| ==> !Candidate(CLOSING_FRONT_DATED, k, named, VERIFICATION_COLUMNS)
  {
    hide Next, PipeRow, AsDate, Quiet, Title, Candidate, After, DELIMITER, COMMENT_LINE, DATED_LINE, VERDICT, UPDATED;
    DelimiterIsPlain();
    CommentLine();
    TheCommentLine();
    DatedLine();
    QuietDate();
    QuietNext(Comment, DATED_LINE);
    FourLines(DELIMITER, COMMENT_LINE, DATED_LINE, DELIMITER);
    forall k | 0 <= k < 4 ensures !Candidate(CLOSING_FRONT_DATED, k, named, VERIFICATION_COLUMNS) {
      NoRowNoCandidate(CLOSING_FRONT_DATED, k, named);
    }
  }

  lemma QuietDate()
    ensures Quiet(DATED_LINE)
  {
    hide Quiet, AsDate, DATED_LINE;
    DatedLine();
    FieldLineIsQuiet(UPDATED, VERDICT.observed);
  }

  /** Front matter that is neutral, and a record that can be written once but not twice. */
  lemma WrittenOnlyOnce(named: TitleTest)
    requires named("Verification")
    ensures FrontMatter(CLOSING_FRONT) && Neutral(CLOSING_FRONT, named) && CleanVerdict(VERDICT) && AsDate(VERDICT.observed).Some?
    ensures !Repeats(CLOSING_FRONT, EmptyTable(), VERDICT, named)
  {
    hide *;
    VerdictIsClean();
    CleanHasDate(VERDICT);
    ClosingFrontIsNeutral(named);
    ClosingFrontBumped();
    DatedLeavesComment(named);
    NotRepeatedInBlock(CLOSING_FRONT, VERDICT, named);
  }
}
