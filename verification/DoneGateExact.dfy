/** The gate on done issues reports nothing exactly when the rows, records and issues of the
    documentation set are as they must be. */
module DoneGateExact {
  import opened Outcomes
  import opened Dates
  import opened Spacing
  import opened AcceptanceTable
  import opened VerdictLines
  import opened VerdictDates
  import opened DoneGate
  import opened DoneGateLaws
  import opened DoneGatePromises

  // ---- cells ----

  lemma DecimalIs(n: nat)
    ensures var s := Decimal(n);
      s[..|s| - 1] == (if n < 10 then [] else Decimal(n / 10)) && Digit(s[|s| - 1]) == Some(n % 10)
  {
    var front := if n < 10 then [] else Decimal(n / 10);
    assert Decimal(n) == front + ['0' + (n % 10) as char];
  }

  lemma {:induction false} DecimalReads(n: nat)
    ensures Number(Decimal(n)) == Some(n) && (n >= 1 ==> '1' <= Decimal(n)[0] <= '9')
  {
    hide Number, Decimal;
    var s := Decimal(n);
    DecimalIs(n);
    NumberLast(s);
    if n < 10 {
      NumberEmpty();
    } else {
      DecimalReads(n / 10);
      assert s[0] == s[..|s| - 1][0];
    }
  }

  lemma NumberEmpty()
    ensures Number("") == Some(0)
  {
  }

  lemma {:induction false} ReadsDecimal(s: string)
    requires s != [] && '1' <= s[0] <= '9' && Number(s).Some?
    ensures Decimal(Number(s).value) == s
  {
    var front, last := s[..|s| - 1], Digit(s[|s| - 1]).value;
    assert s == front + [s[|s| - 1]];
    if front != [] {
      assert front[0] == s[0];
      ReadsDecimal(front);
      NumberPositive(front);
      assert (10 * Number(front).value + last) / 10 == Number(front).value;
    }
  }

  /** A cell names a criterion exactly when it is the criterion's number in decimal. */
  lemma CriterionIndexExact(cell: string, count: nat, i: nat)
    ensures CriterionIndex(cell, count) == Some(i) <==> Names(cell, i, count)
  {
    hide Number, Decimal;
    DecimalReads(i);
    if CriterionIndex(cell, count).Some? { ReadsDecimal(cell); }
  }

  lemma DatedExactly(observed: string, index: nat, cutoff: Option<nat>)
    ensures DateFaults(observed, index, cutoff) == [] <==> DatedBy(observed, cutoff)
  {
    hide AsDate, Spells;
    forall y: nat, m: nat, d: nat | Spells(observed, y, m, d) ensures AsDate(observed) == Some(10000 * y + 100 * m + d) {
      DateSpelled(observed, y, m, d);
    }
    DateSpelled(observed, 0, 0, 0);
  }

  lemma HexExactly(s: string)
    ensures HexSha(s) <==> CommitText(s)
  {
    forall i | 0 <= i < |s| ensures s[i] in s { }
    forall c: char ensures c in DIGITS || c in "abcdef" <==> '0' <= c <= '9' || 'a' <= c <= 'f' { Hexadecimal(c); }
  }

  lemma Hexadecimal(c: char)
    ensures c in DIGITS <==> '0' <= c <= '9'
    ensures c in "abcdef" <==> 'a' <= c <= 'f'
  {
    if '0' <= c <= '9' { assert DIGITS[c as int - '0' as int] == c; }
    if 'a' <= c <= 'f' { assert "abcdef"[c as int - 'a' as int] == c; }
  }

  lemma RunExactly(s: string)
    ensures RunIdText(s) <==> RunName(s)
  {
    forall i | 0 <= i < |s| ensures s[i] in s { }
    forall c: char
      ensures c in DIGITS || Letter(c) <==> RunIdChar(c)
      ensures c in "._:-" <==> c in {'.', '_', ':', '-'}
    {
      Hexadecimal(c);
    }
  }

  /** The schema reports nothing exactly when the record keeps it. */
  lemma SchemaExactly(record: Document)
    ensures SchemaFaults(record) == [] <==> SchemaKept(record)
  {
    hide HexSha, CommitText, Number;
    HexExactly(Shown(record.candidate));
    if |record.issueId| >= 3 { NumberExactly(record.issueId[3..]); }
  }

  lemma {:induction false} NumberExactly(s: string)
    ensures Number(s).Some? <==> forall c :: c in s ==> c in DIGITS
  {
    if s != [] {
      var front, last := s[..|s| - 1], s[|s| - 1];
      assert s == front + [last];
      NumberExactly(front);
      Hexadecimal(last);
    }
  }

  // ---- builder rows ----

  lemma BuilderRowExactly(row: BuilderRow, index: nat, j: Judging)
    requires Names(row.criterion, index, |j.criteria|)
    ensures BuilderFaults(row, index, j) == [] <==> BuilderRowOk(row, j)
  {
    hide DateFaults, DatedBy, Unticked, Decimal;
    DatedExactly(row.observed, index, j.cutoff);
  }

  lemma NumberedExactly(row: BuilderRow, j: Judging)
    ensures BuilderRowOk(row, j) ==> CriterionIndex(row.criterion, |j.criteria|).Some?
  {
    hide CriterionIndex, Names, DatedBy, Unticked;
    if BuilderRowOk(row, j) {
      var index :| Names(row.criterion, index, |j.criteria|);
      CriterionIndexExact(row.criterion, |j.criteria|, index);
    }
  }

  lemma {:induction false} BuilderScanExactly(rows: seq<BuilderRow>, to: nat, j: Judging)
    requires to <= |rows|
    ensures BuilderScan(rows, to, j).faults == [] <==> forall k :: 0 <= k < to ==> BuilderRowOk(rows[k], j)
  {
    hide BuilderFaults, CriterionIndex, BuilderRowOk, Names;
    if to > 0 {
      BuilderScanExactly(rows, to - 1, j);
      var row := rows[to - 1];
      NumberedExactly(row, j);
      var index := CriterionIndex(row.criterion, |j.criteria|);
      if index.Some? {
        CriterionIndexExact(row.criterion, |j.criteria|, index.value);
        BuilderRowExactly(row, index.value, j);
      }
    }
  }

  /** The groups hold each criterion's rows, in order. */
  lemma {:induction false} BuilderScanMeans(rows: seq<BuilderRow>, to: nat, j: Judging, index: nat)
    requires to <= |rows| && 1 <= index <= |j.criteria|
    ensures var st, found := BuilderScan(rows, to, j), RowsFor(rows, to, index);
      (index in st.groups <==> found != []) && (index in st.groups ==> st.groups[index] == found)
  {
    hide BuilderFaults, CriterionIndex, Decimal;
    if to > 0 {
      BuilderScanMeans(rows, to - 1, j, index);
      CriterionIndexExact(rows[to - 1].criterion, |j.criteria|, index);
    }
  }

  lemma GroupExactly(group: seq<BuilderRow>)
    ensures GroupOk(group) <==> |group| <= MAX_ROWS && !(|group| > 1 && SomeAbsent(group))
  {
    if |group| == 1 { assert group == [group[0]]; }
    forall row | row in group && row.kind == "absent" ensures SomeAbsent(group) {
      var i :| 0 <= i < |group| && group[i] == row;
    }
  }

  lemma {:induction false} GroupsExactly(rows: seq<BuilderRow>, j: Judging, to: nat)
    requires to <= |j.criteria|
    ensures GroupFaults(BuilderScan(rows, |rows|, j).groups, to) == [] <==> forall i: nat :: 1 <= i <= to ==> GroupOk(RowsFor(rows, |rows|, i))
  {
    hide BuilderScan, RowsFor, GroupOk, SomeAbsent;
    if to > 0 {
      GroupsExactly(rows, j, to - 1);
      BuilderScanMeans(rows, |rows|, j, to);
      GroupExactly(RowsFor(rows, |rows|, to));
    }
  }

  lemma BuilderRowsExactly(rows: seq<BuilderRow>, j: Judging)
    ensures var st := BuilderScan(rows, |rows|, j);
      st.faults == [] && GroupFaults(st.groups, |j.criteria|) == [] <==> BuilderRowsOk(rows, j)
  {
    hide BuilderScan, GroupFaults, RowsFor, GroupOk, BuilderRowOk;
    BuilderScanExactly(rows, |rows|, j);
    GroupsExactly(rows, j, |j.criteria|);
    assert (forall k: nat :: k < |rows| ==> BuilderRowOk(rows[k], j)) <==> BuilderScan(rows, |rows|, j).faults == [];
    assert (forall index: nat :: 1 <= index <= |j.criteria| ==> GroupOk(RowsFor(rows, |rows|, index)))
      <==> GroupFaults(BuilderScan(rows, |rows|, j).groups, |j.criteria|) == [];
  }

  // ---- verdict rows ----

  lemma AbsentExactly(group: seq<BuilderRow>)
    ensures AllAbsent(group) <==> forall r :: r in group ==> r.kind == "absent"
  {
    forall i | 0 <= i < |group| && group[i].kind != "absent" ensures exists r :: r in group && r.kind != "absent" {
      assert group[i] in group;
    }
  }

  /** The gate reads from a written row the criterion, the run and the digest that were judged. */
  lemma WrittenRowRead(v: Verdict, count: nat)
    requires 1 <= v.index <= count && Bare(v.runId, v.runId, '`') && Bare(v.digest, v.digest, '`')
    ensures var row := VerdictRows([VerdictCells(v)])[0];
      && CriterionIndex(row.criterion, count) == Some(v.index) && Unticked(row.run) == v.runId && Unticked(row.digest) == v.digest
      && row.verdict == v.verdict && row.observed == v.observed && row.reason == v.reason
  {
    hide Decimal, CriterionIndex, Unticked, Bare;
    CriterionIndexExact(Decimal(v.index), count, v.index);
    Ticked(v.runId);
    Ticked(v.digest);
  }

  lemma Ticked(core: string)
    requires Bare(core, core, '`')
    ensures Unticked("`" + core + "`") == core
  {
    var ticks := "`";
    assert AllOf(ticks, '`');
    StripOfExactly(ticks + core + ticks, core, '`');
  }

  /** What the loop asks of a row by itself. */
  predicate RowPasses(row: VerdictRow, index: nat, builder: Option<seq<BuilderRow>>, j: Judging)
    requires 1 <= index <= |j.criteria|
  {
    !LongVerdict(row) && RunIdText(Unticked(row.run)) && VerdictFaults(row, index, builder, j) == []
  }

  lemma VerdictRowExactly(row: VerdictRow, index: nat, group: seq<BuilderRow>, j: Judging)
    requires 1 <= index <= |j.criteria|
    ensures RowPasses(row, index, if group == [] then None else Some(group), j) <==> VerdictRowOk(row, index, group, j)
  {
    hide DateFaults, DatedBy, Unticked, RunIdText, RunName, EvidenceDigest, AllAbsent;
    RunExactly(Unticked(row.run));
    DatedExactly(row.observed, index, j.cutoff);
    AbsentExactly(group);
  }

  /** A row adds no fault exactly when it passes, and is the first verdict of its criterion and the
      first row of its run. */
  lemma StepExactly(st: Judged, row: VerdictRow, groups: map<nat, seq<BuilderRow>>, j: Judging)
    ensures var index, run, after := CriterionIndex(row.criterion, |j.criteria|), Unticked(row.run), VerdictStep(st, row, groups, j);
      && (after.faults == [] <==>
            && st.faults == [] && index.Some? && RowPasses(row, index.value, Builder(groups, index.value), j)
            && index.value !in st.verdicts && run !in st.runs)
      && (after.faults == [] ==> after.verdicts == st.verdicts[index.value := row] && after.runs == st.runs[run := index.value])
  {
    hide VerdictFaults, CriterionIndex, Builder, RunIdText, LongVerdict, Unticked;
  }

  /** A scan without faults holds each criterion's one verdict. */
  lemma {:induction false} VerdictScanMeans(rows: seq<VerdictRow>, to: nat, groups: map<nat, seq<BuilderRow>>, j: Judging, index: nat)
    requires to <= |rows| && 1 <= index <= |j.criteria| && VerdictScan(rows, to, groups, j).faults == []
    ensures var st, found := VerdictScan(rows, to, groups, j), VerdictsFor(rows, to, index);
      && (index in st.verdicts <==> found != [])
      && (index in st.verdicts ==> found == [st.verdicts[index]] && RowPasses(st.verdicts[index], index, Builder(groups, index), j))
  {
    hide VerdictStep, RowPasses, CriterionIndex, Builder, Decimal;
    if to > 0 {
      StepExactly(VerdictScan(rows, to - 1, groups, j), rows[to - 1], groups, j);
      VerdictScanMeans(rows, to - 1, groups, j, index);
      CriterionIndexExact(rows[to - 1].criterion, |j.criteria|, index);
    }
  }

  /** It holds the runs of the rows it has seen. */
  lemma {:induction false} RunsSeen(rows: seq<VerdictRow>, to: nat, groups: map<nat, seq<BuilderRow>>, j: Judging, run: string)
    requires to <= |rows| && VerdictScan(rows, to, groups, j).faults == []
    ensures run in VerdictScan(rows, to, groups, j).runs <==> exists k :: 0 <= k < to && Unticked(rows[k].run) == run
  {
    hide VerdictStep, RowPasses, CriterionIndex, Builder, Unticked;
    if to > 0 {
      StepExactly(VerdictScan(rows, to - 1, groups, j), rows[to - 1], groups, j);
      RunsSeen(rows, to - 1, groups, j, run);
    }
  }

  lemma {:induction false} VerdictsForHas(rows: seq<VerdictRow>, to: nat, index: nat, v: VerdictRow)
    requires to <= |rows|
    ensures v in VerdictsFor(rows, to, index) <==> v.criterion == Decimal(index) && exists k :: 0 <= k < to && rows[k] == v
  {
    hide Decimal;
    if to > 0 { VerdictsForHas(rows, to - 1, index, v); }
  }

  lemma {:induction false} VerdictsForNone(rows: seq<VerdictRow>, to: nat, index: nat)
    requires to <= |rows|
    ensures VerdictsFor(rows, to, index) == [] <==> forall k :: 0 <= k < to ==> rows[k].criterion != Decimal(index)
  {
    hide Decimal;
    if to > 0 { VerdictsForNone(rows, to - 1, index); }
  }

  lemma StepFits(verdicts: seq<VerdictRow>, k: nat, rows: seq<BuilderRow>, j: Judging)
    requires k < |verdicts| && VerdictScan(verdicts, k, BuilderScan(rows, |rows|, j).groups, j).faults == []
    ensures VerdictScan(verdicts, k + 1, BuilderScan(rows, |rows|, j).groups, j).faults == [] <==> RowFits(verdicts, k, rows, j)
  {
    hide VerdictStep, RowPasses, CriterionIndex, Unticked, BuilderScan, RowsFor, VerdictsFor, VerdictRowOk, Decimal;
    var row, groups := verdicts[k], BuilderScan(rows, |rows|, j).groups;
    var st := VerdictScan(verdicts, k, groups, j);
    StepExactly(st, row, groups, j);
    RunsSeen(verdicts, k, groups, j, Unticked(row.run));
    if exists index: nat :: Names(row.criterion, index, |j.criteria|) {
      var index: nat :| Names(row.criterion, index, |j.criteria|);
      CriterionIndexExact(row.criterion, |j.criteria|, index);
      forall other: nat | Names(row.criterion, other, |j.criteria|) ensures other == index { CriterionIndexExact(row.criterion, |j.criteria|, other); }
      BuilderScanMeans(rows, |rows|, j, index);
      VerdictRowExactly(row, index, RowsFor(rows, |rows|, index), j);
      VerdictScanMeans(verdicts, k, groups, j, index);
      VerdictsForNone(verdicts, k, index);
    } else if CriterionIndex(row.criterion, |j.criteria|).Some? {
      CriterionIndexExact(row.criterion, |j.criteria|, CriterionIndex(row.criterion, |j.criteria|).value);
      assert false;
    }
  }

  lemma {:induction false} VerdictScanExactly(verdicts: seq<VerdictRow>, to: nat, rows: seq<BuilderRow>, j: Judging)
    requires to <= |verdicts|
    ensures VerdictScan(verdicts, to, BuilderScan(rows, |rows|, j).groups, j).faults == [] <==> forall k: nat :: k < to ==> RowFits(verdicts, k, rows, j)
  {
    hide VerdictStep, BuilderScan, RowFits;
    if to > 0 {
      var groups := BuilderScan(rows, |rows|, j).groups;
      VerdictScanExactly(verdicts, to - 1, rows, j);
      StepExactly(VerdictScan(verdicts, to - 1, groups, j), verdicts[to - 1], groups, j);
      if VerdictScan(verdicts, to - 1, groups, j).faults == [] { StepFits(verdicts, to - 1, rows, j); }
    }
  }

  lemma VerdictRowsExactly(verdicts: seq<VerdictRow>, rows: seq<BuilderRow>, j: Judging)
    ensures VerdictScan(verdicts, |verdicts|, BuilderScan(rows, |rows|, j).groups, j).faults == [] <==> VerdictRowsOk(verdicts, rows, j)
  {
    hide VerdictScan, BuilderScan, RowFits;
    VerdictScanExactly(verdicts, |verdicts|, rows, j);
  }

  // ---- one record ----

  /** The parts of a record that validates without problems. */
  lemma RecordParts(record: Document, issue: Document, w: World, t: Titles)
    requires RecordFaults(record, issue, w, t).1 == [] 
    ensures RecordFaults(record, issue, w, t).0.Some?
    ensures var criteria := IssueCriteria(issue, t.acceptance).0;
      criteria.Some? && BuilderTable(record, t).Some? && VerificationTable(record, t).Some?
    ensures BindingFaults(record, issue) == [] && CandidateOf(record, w).1 == []
    ensures var j := Judging(w, IssueCriteria(issue, t.acceptance).0.value, CandidateOf(record, w).0, record.cutoff);
      var rows, verdicts := EvidenceRows(record, t), Verdicts(record, t);
      var built := BuilderScan(rows, |rows|, j);
      var judged := VerdictScan(verdicts, |verdicts|, built.groups, j);
      && built.faults == [] && GroupFaults(built.groups, |j.criteria|) == [] && judged.faults == []
      && RecordFaults(record, issue, w, t).0 == Some(RecordState(j.criteria, built.groups, judged.verdicts, j.candidate))
  {
    hide IssueCriteria, BuilderScan, VerdictScan, StrictRows, CandidateOf, BindingFaults, At, GroupFaults, BuilderRows, VerdictRows;
    CriteriaOrFaults(issue, t.acceptance);
  }

  lemma CriteriaOrFaults(issue: Document, acceptance: TitleTest)
    ensures IssueCriteria(issue, acceptance).0.None? <==> IssueCriteria(issue, acceptance).1 != []
  {
  }


  lemma CandidateExactly(record: Document, w: World)
    ensures CandidateOf(record, w).1 == [] <==>
      (record.candidate.Text? && CommitText(record.candidate.text) ==> w.commitExists(record.candidate.text) && w.isAncestor(record.candidate.text))
    ensures CandidateOf(record, w).1 == [] ==> CandidateOf(record, w).0 == Judgeable(record)
    ensures CandidateOf(record, w).0 == Some(PENDING) <==> record.candidate == Text(PENDING)
  {
    hide HexSha, CommitText;
    if record.candidate.Text? { HexExactly(record.candidate.text); }
    HexExactly(PENDING);
    NotACommit();
  }

  lemma NotACommit()
    ensures !CommitText(PENDING)
  {
  }

  lemma BindingExactly(record: Document, issue: Document)
    ensures BindingFaults(record, issue) == [] <==>
      record.path == "docs/roadmap/acceptance/issue-" + issue.issueId + ".md" && issue.path in record.related && record.tracker == issue.tracker
  {
  }

  /** The missing tables are reported, and no others. */
  lemma TablesExactly(builder: Option<seq<Row>>, verification: Option<seq<Row>>)
    ensures var faults := TableFaults(builder, verification);
      (NoBuilderTable in faults <==> builder.None?) && (NoVerificationTable in faults <==> verification.None?)
  {
  }

  /** A record validates exactly when it is as it must be. */
  lemma RecordExactly(record: Document, issue: Document, w: World, t: Titles)
    ensures RecordFaults(record, issue, w, t).1 == [] <==> RecordClean(record, issue, w, t)
  {
    hide IssueCriteria, BuilderScan, VerdictScan, StrictRows, CandidateOf, BindingFaults, At, GroupFaults, EvidenceRows, Verdicts,
         BuilderTable, VerificationTable, BuilderRowsOk, VerdictRowsOk, RecordPath, Judgeable, CommitText;
    hide RecordFaults;
    CandidateExactly(record, w);
    BindingExactly(record, issue);
    if RecordFaults(record, issue, w, t).1 == [] { RecordParts(record, issue, w, t); }
    if IssueCriteria(issue, t.acceptance).0.Some? && BuilderTable(record, t).Some? && VerificationTable(record, t).Some? {
      var j := JudgingOf(record, issue, w, t);
      BuilderRowsExactly(EvidenceRows(record, t), j);
      VerdictRowsExactly(Verdicts(record, t), EvidenceRows(record, t), j);
      if RecordClean(record, issue, w, t) { RecordWhole(record, issue, w, t); }
    }
  }

  /** Nothing is reported of a record of which no part is reported. */
  lemma RecordWhole(record: Document, issue: Document, w: World, t: Titles)
    requires BindingFaults(record, issue) == [] && CandidateOf(record, w).1 == []
    requires IssueCriteria(issue, t.acceptance).0.Some? && BuilderTable(record, t).Some? && VerificationTable(record, t).Some?
    requires var j := Judging(w, IssueCriteria(issue, t.acceptance).0.value, CandidateOf(record, w).0, record.cutoff);
      var rows, verdicts := EvidenceRows(record, t), Verdicts(record, t);
      var built := BuilderScan(rows, |rows|, j);
      && built.faults == [] && GroupFaults(built.groups, |j.criteria|) == []
      && VerdictScan(verdicts, |verdicts|, built.groups, j).faults == []
    ensures RecordFaults(record, issue, w, t).1 == []
  {
    hide IssueCriteria, BuilderScan, VerdictScan, StrictRows, CandidateOf, BindingFaults, At, GroupFaults, BuilderRows, VerdictRows;
    CriteriaOrFaults(issue, t.acceptance);
    var faults: seq<Fault> := [];
    assert At(record.path, faults + faults) == [] && At(record.path, faults) == [] && At(issue.path, faults) == [];
  }

  // ---- a done issue's record ----

  ghost predicate Settled(st: RecordState, index: nat) {
    index in st.builder && index in st.verdicts && st.verdicts[index].verdict == "satisfied"
  }

  lemma {:induction false} DoneFaultsExactly(st: RecordState, to: nat)
    ensures DoneFaults(st, to) == [] <==> st.candidate != Some(PENDING) && forall i: nat :: 1 <= i <= to ==> Settled(st, i)
  {
    if to > 0 {
      DoneFaultsExactly(st, to - 1);
      assert DoneFaults(st, to) == DoneFaults(st, to - 1) + DoneCriterionFaults(st, to);
      assert DoneCriterionFaults(st, to) == [] <==> Settled(st, to);
    }
  }

  /** The done check finds nothing in a clean record exactly when it lets its issue be done. */
  lemma DoneExactly(record: Document, issue: Document, w: World, t: Titles)
    requires RecordClean(record, issue, w, t)
    ensures RecordFaults(record, issue, w, t).0.Some?
    ensures var st := RecordFaults(record, issue, w, t).0.value;
      DoneFaults(st, |st.criteria|) == [] <==> RecordDone(record, issue, w, t)
  {
    hide IssueCriteria, BuilderScan, VerdictScan, CandidateOf, BindingFaults, GroupFaults, EvidenceRows, Verdicts,
         BuilderTable, VerificationTable, RecordClean, RecordFaults, CriterionDone, DoneFaults, Settled, Judgeable;
    RecordExactly(record, issue, w, t);
    RecordParts(record, issue, w, t);
    CandidateExactly(record, w);
    var st := RecordFaults(record, issue, w, t).0.value;
    DoneFaultsExactly(st, |st.criteria|);
    forall i: nat | 1 <= i <= |st.criteria| ensures Settled(st, i) <==> CriterionDone(record, t, i) {
      SettledExactly(record, issue, w, t, i);
    }
  }

  lemma SettledExactly(record: Document, issue: Document, w: World, t: Titles, index: nat)
    requires RecordFaults(record, issue, w, t).1 == [] && RecordFaults(record, issue, w, t).0.Some?
    requires BuilderTable(record, t).Some? && VerificationTable(record, t).Some?
    requires 1 <= index <= |RecordFaults(record, issue, w, t).0.value.criteria|
    ensures Settled(RecordFaults(record, issue, w, t).0.value, index) <==> CriterionDone(record, t, index)
  {
    hide IssueCriteria, BuilderScan, VerdictScan, CandidateOf, BindingFaults, GroupFaults, EvidenceRows, Verdicts, BuilderTable, VerificationTable,
         RecordFaults, RowsFor, VerdictsFor, Decimal, RowPasses;
    RecordParts(record, issue, w, t);
    var j := Judging(w, IssueCriteria(issue, t.acceptance).0.value, CandidateOf(record, w).0, record.cutoff);
    var rows, verdicts := EvidenceRows(record, t), Verdicts(record, t);
    var built := BuilderScan(rows, |rows|, j);
    BuilderScanMeans(rows, |rows|, j, index);
    VerdictScanMeans(verdicts, |verdicts|, built.groups, j, index);
    var found := VerdictsFor(verdicts, |verdicts|, index);
    forall v ensures v in found <==> v in verdicts && v.criterion == Decimal(index) { VerdictsForHas(verdicts, |verdicts|, index, v); }
    if found != [] { assert found[0] in found; }
  }

  // ---- the documentation set ----

  lemma {:induction false} IssueMapKeeps(docs: seq<Document>, to: nat, k: nat)
    requires k < to <= |docs| && DistinctIssues(docs) && docs[k].kind.Issue?
    ensures docs[k].issueId in IssueMap(docs, to) && IssueMap(docs, to)[docs[k].issueId] == docs[k]
  {
    if k < to - 1 { IssueMapKeeps(docs, to - 1, k); }
  }

  lemma {:induction false} EntriesExactly(docs: seq<Document>, ids: seq<string>, to: nat, g: Gate)
    requires to <= |ids|
    ensures EntriesProblems(docs, ids, to, g) == [] <==> forall k :: 0 <= k < to ==> EntryOf(docs, ids[k], g).1 == []
  {
    hide EntryOf;
    if to > 0 { EntriesExactly(docs, ids, to - 1, g); }
  }

  lemma {:induction false} IssuesExactly(docs: seq<Document>, ids: seq<string>, to: nat, g: Gate)
    requires to <= |ids|
    ensures IssuesProblems(docs, ids, to, g) == [] <==> forall k :: 0 <= k < to ==> IssueProblems(docs, ids[k], g) == []
  {
    hide IssueProblems;
    if to > 0 { IssuesExactly(docs, ids, to - 1, g); }
  }

  lemma {:induction false} RecordsForOne(docs: seq<Document>, to: nat, id: string, r: nat)
    requires r < to <= |docs| && IsRecord(docs, r, id)
    ensures |RecordsFor(docs, to, id)| >= 1
    ensures |RecordsFor(docs, to, id)| == 1 <==> forall s: nat :: s < to && s != r ==> !IsRecord(docs, s, id)
    ensures |RecordsFor(docs, to, id)| == 1 ==> RecordsFor(docs, to, id) == [docs[r]]
  {
    if r < to - 1 {
      RecordsForOne(docs, to - 1, id, r);
      assert IsRecord(docs, to - 1, id) || !IsRecord(docs, to - 1, id);
    } else {
      RecordsForNone(docs, to - 1, id);
    }
  }

  lemma {:induction false} RecordsForNone(docs: seq<Document>, to: nat, id: string)
    requires to <= |docs|
    ensures RecordsFor(docs, to, id) == [] <==> forall s: nat :: s < to ==> !IsRecord(docs, s, id)
  {
    if to > 0 {
      RecordsForNone(docs, to - 1, id);
      assert IsRecord(docs, to - 1, id) || !IsRecord(docs, to - 1, id);
    }
  }

  /** Issue `k` is the one that its identifier names. */
  lemma IssueFound(docs: seq<Document>, id: string)
    requires DistinctIssues(docs)
    ensures id in IssueMap(docs, |docs|) <==> exists k: nat :: IsIssue(docs, k, id)
    ensures forall k: nat :: IsIssue(docs, k, id) ==> id in IssueMap(docs, |docs|) && IssueMap(docs, |docs|)[id] == docs[k]
  {
    hide IssueMap, Ids, DistinctIssues;
    IssueMapHas(docs, |docs|, id);
    if id in IssueMap(docs, |docs|) {
      var k :| 0 <= k < |docs| && docs[k].kind == Issue && docs[k].issueId == id;
      assert IsIssue(docs, k, id);
    }
    forall k: nat | IsIssue(docs, k, id) ensures id in IssueMap(docs, |docs|) && IssueMap(docs, |docs|)[id] == docs[k] {
      IssueMapKeeps(docs, |docs|, k);
    }
  }

  lemma RecordFound(docs: seq<Document>, id: string)
    ensures RecordsFor(docs, |docs|, id) != [] <==> exists r: nat :: IsRecord(docs, r, id)
  {
    hide RecordsFor;
    RecordsForNone(docs, |docs|, id);
    if r: nat :| IsRecord(docs, r, id) { assert r < |docs|; }
  }

  lemma EntryExactly(docs: seq<Document>, g: Gate, r: nat, id: string)
    requires DistinctIssues(docs) && IsRecord(docs, r, id)
    ensures EntryOf(docs, id, g).1 == [] <==> RecordFits(docs, r, g)
    ensures EntryOf(docs, id, g).1 == [] ==> RecordsFor(docs, |docs|, id) == [docs[r]]
  {
    hide IssueMap, RecordsFor, RecordFaults, RecordClean, DistinctIssues;
    RecordsForOne(docs, |docs|, id, r);
    IssueFound(docs, id);
    if id in IssueMap(docs, |docs|) {
      var k: nat :| IsIssue(docs, k, id);
      RecordExactly(docs[r], docs[k], g.world, g.titles);
    }
  }

  lemma IssueExactly(docs: seq<Document>, g: Gate, k: nat, id: string)
    requires DistinctIssues(docs) && IsIssue(docs, k, id)
    requires RecordsFor(docs, |docs|, id) != [] ==> EntryOf(docs, id, g).1 == []
    ensures IssueProblems(docs, id, g) == [] <==> DoneFits(docs, k, g)
  {
    hide IssueMap, RecordsFor, RecordFaults, RecordClean, RecordDone, DoneFaults, DistinctIssues, IssueCriteria, EntryOf;
    IssueFound(docs, id);
    RecordFound(docs, id);
    if RecordsFor(docs, |docs|, id) != [] {
      var r: nat :| IsRecord(docs, r, id);
      EntryExactly(docs, g, r, id);
      EntryIs(docs, g, r, k, id);
      assert forall s: nat :: IsRecord(docs, s, id) ==> s == r;
      RecordExactly(docs[r], docs[k], g.world, g.titles);
      DoneExactly(docs[r], docs[k], g.world, g.titles);
    }
  }

  lemma EntryIs(docs: seq<Document>, g: Gate, r: nat, k: nat, id: string)
    requires DistinctIssues(docs) && IsRecord(docs, r, id) && IsIssue(docs, k, id) && RecordsFor(docs, |docs|, id) == [docs[r]]
    ensures EntryOf(docs, id, g) == RecordFaults(docs[r], docs[k], g.world, g.titles)
  {
    hide IssueMap, RecordsFor, RecordFaults, DistinctIssues;
    IssueFound(docs, id);
  }

  /** The gate reports nothing exactly when every record fits its issue and every done issue is
      recorded as done or belongs to the frozen history. */
  lemma GateExactly(docs: seq<Document>, g: Gate)
    requires DistinctIssues(docs)
    ensures GateProblems(docs, g) == [] <==> GateHolds(docs, g)
  {
    hide SortedIds, EntriesProblems, IssuesProblems, EntryOf, IssueProblems, DistinctIssues, RecordFits, DoneFits, IssueMap, RecordsFor;
    var records, issues := SortedIds(docs, AcceptanceRecord), SortedIds(docs, Issue);
    EntriesExactly(docs, records, |records|, g);
    IssuesExactly(docs, issues, |issues|, g);
    EntriesFit(docs, g);
    if EntriesProblems(docs, records, |records|, g) == [] { IssuesFit(docs, g); }
  }

  lemma EntriesFit(docs: seq<Document>, g: Gate)
    requires DistinctIssues(docs)
    ensures var ids := SortedIds(docs, AcceptanceRecord);
      EntriesProblems(docs, ids, |ids|, g) == [] <==> forall r: nat :: r < |docs| && docs[r].kind.AcceptanceRecord? ==> RecordFits(docs, r, g)
  {
    hide SortedIds, EntriesProblems, EntryOf, DistinctIssues, RecordFits, IssueMap, RecordsFor;
    var ids := SortedIds(docs, AcceptanceRecord);
    EntriesExactly(docs, ids, |ids|, g);
    forall r: nat | r < |docs| && docs[r].kind.AcceptanceRecord?
      ensures docs[r].issueId in ids && (RecordFits(docs, r, g) <==> EntryOf(docs, docs[r].issueId, g).1 == [])
    {
      var id := docs[r].issueId;
      assert IsRecord(docs, r, id);
      EntryExactly(docs, g, r, id);
      RecordFound(docs, id);
      IdsMembers(docs, id);
    }
    forall i | 0 <= i < |ids| ensures exists r: nat :: IsRecord(docs, r, ids[i]) {
      IdsMembers(docs, ids[i]);
      RecordFound(docs, ids[i]);
    }
  }

  lemma IssuesFit(docs: seq<Document>, g: Gate)
    requires DistinctIssues(docs)
    requires var ids := SortedIds(docs, AcceptanceRecord); EntriesProblems(docs, ids, |ids|, g) == []
    ensures var ids := SortedIds(docs, Issue);
      IssuesProblems(docs, ids, |ids|, g) == [] <==> forall k: nat :: k < |docs| && docs[k].kind.Issue? ==> DoneFits(docs, k, g)
  {
    hide SortedIds, EntriesProblems, IssuesProblems, EntryOf, IssueProblems, DistinctIssues, DoneFits, IssueMap, RecordsFor;
    var records, ids := SortedIds(docs, AcceptanceRecord), SortedIds(docs, Issue);
    EntriesExactly(docs, records, |records|, g);
    IssuesExactly(docs, ids, |ids|, g);
    forall k: nat | k < |docs| && docs[k].kind.Issue?
      ensures docs[k].issueId in ids && (DoneFits(docs, k, g) <==> IssueProblems(docs, docs[k].issueId, g) == [])
    {
      var id := docs[k].issueId;
      assert IsIssue(docs, k, id);
      IdsMembers(docs, id);
      IssueFound(docs, id);
      IssueExactly(docs, g, k, id);
    }
    forall i | 0 <= i < |ids| ensures exists k: nat :: IsIssue(docs, k, ids[i]) {
      IdsMembers(docs, ids[i]);
      IssueFound(docs, ids[i]);
    }
  }
}
