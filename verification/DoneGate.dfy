/** The gate on done issues: builder evidence and isolated verdicts, validator by validator. */
module DoneGate {
  import opened Outcomes
  import opened Markdown
  import opened AcceptanceTable
  import opened VerdictLines
  import opened VerifierAnswer
  import opened Criteria

  const PENDING := "pending"
  const BUILDER_COLUMNS: Row := ["Criterion", "Kind", "Artifact", "Observed", "Source"]
  const EVIDENCE_KINDS := {"command-output", "file", "receipt", "tracker", "test", "absent"}
  const MAX_ROWS := 8
  const MAX_CELL_CHARS := 400

  // ---- documents ----

  /** A front-matter value: a text, or something else that prints like this. */
  datatype Scalar = Text(text: string) | Other(shown: string)

  function Shown(s: Scalar): string {
    if s.Text? then s.text else s.shown
  }

  datatype DocType = Issue | AcceptanceRecord | AnotherType

  datatype Document = Document(path: string, kind: DocType, status: string, issueId: string, candidate: Scalar,
                               cutoff: Option<nat>, related: seq<string>, tracker: Option<string>, body: seq<string>)

  datatype Evidence = Evidence(kind: string, artifact: string, observed: string, source: string)

  /** What the gate asks of the outside: Git, source lookup, digests, and letter case. */
  datatype World = World(
    digest: (string, nat, string, seq<Evidence>) -> string,
    commitExists: string -> bool,
    isAncestor: string -> bool,
    sourceOk: (string, string, string) -> bool,
    fold: string -> string)

  datatype Fault =
    | BadPath | NotRelated | TrackerDiffers | NoAcceptanceSection | BadCriteria(problem: CriteriaProblem)
    | NoCommit | NotAncestor | NoBuilderTable | NoVerificationTable
    | NoSuchCriterion(cell: string) | LongCell(index: nat) | BadKind(index: nat) | ArtifactNotNone(index: nat)
    | NoArtifact(index: nat) | BadDate(index: nat) | LateDate(index: nat) | BadSource(index: nat)
    | TooManyRows(index: nat) | AbsentNotAlone(index: nat)
    | Duplicated(index: nat) | BadRunId(index: nat) | RunReused(index: nat, other: nat)
    | BadVerdict(index: nat) | NothingJudged(index: nat) | NotFrozen(index: nat) | DigestDiffers(index: nat)
    | MustBeAbsent(index: nat) | NoReason(index: nat)
    | DoneNotFrozen | DoneNoEvidence(index: nat) | DoneNoVerdict(index: nat) | DoneBlocked(index: nat)
    | SeveralRecords | UnknownIssue | RecordRequired | BadStatus | BadIssueId | BadCandidate | NoCutoff

  datatype Problem = Problem(path: string, fault: Fault)

  function At(path: string, faults: seq<Fault>): (r: seq<Problem>)
    ensures |r| == |faults|
  {
    seq(|faults|, i requires 0 <= i < |faults| => Problem(path, faults[i]))
  }

  /** The list the validators append to. */
  class ErrorList {
    var items: seq<Problem>

    constructor ()
      ensures items == []
    {
      items := [];
    }

    method Append(path: string, fault: Fault)
      modifies this
      ensures items == old(items) + At(path, [fault])
    {
      items := items + [Problem(path, fault)];
    }

    method Extend(path: string, faults: seq<Fault>)
      modifies this
      ensures items == old(items) + At(path, faults)
    {
      items := items + At(path, faults);
    }
  }

  // ---- schema of a record ----

  predicate HexSha(s: string) {
    |s| == 40 && forall i :: 0 <= i < 40 ==> '0' <= s[i] <= '9' || 'a' <= s[i] <= 'f'
  }

  predicate IssueIdText(s: string) {
    |s| >= 5 && s[..3] == "AR-" && Number(s[3..]).Some?
  }

  /** `_acceptance_verification_schema_errors`, for the fields the gate reads. */
  function SchemaFaults(record: Document): seq<Fault> {
    (if record.status != "active" then [BadStatus] else [])
    + (if !IssueIdText(record.issueId) then [BadIssueId] else [])
    + (if record.candidate != Text(PENDING) && !HexSha(Shown(record.candidate)) then [BadCandidate] else [])
    + (if record.cutoff.None? then [NoCutoff] else [])
  }

  // ---- rows ----

  datatype BuilderRow = BuilderRow(criterion: string, kind: string, artifact: string, observed: string, source: string)
  datatype VerdictRow = VerdictRow(criterion: string, verdict: string, run: string, digest: string, observed: string, reason: string)

  function BuilderRows(rows: seq<Row>): seq<BuilderRow>
    requires forall i :: 0 <= i < |rows| ==> |rows[i]| == |BUILDER_COLUMNS|
  {
    seq(|rows|, i requires 0 <= i < |rows| => BuilderRow(rows[i][0], rows[i][1], rows[i][2], rows[i][3], rows[i][4]))
  }

  function VerdictRows(rows: seq<Row>): seq<VerdictRow>
    requires forall i :: 0 <= i < |rows| ==> |rows[i]| == |VERIFICATION_COLUMNS|
  {
    seq(|rows|, i requires 0 <= i < |rows| =>
      VerdictRow(rows[i][0], rows[i][1], rows[i][2], rows[i][3], rows[i][4], rows[i][5]))
  }

  /** `cell.strip("`")` */
  function Unticked(s: string): string {
    TrimRightOf(TrimLeftOf(s, '`'), '`')
  }

  /** `_criterion_index` */
  function CriterionIndex(cell: string, count: nat): (r: Option<nat>)
    ensures r.Some? ==> 1 <= r.value <= count
  {
    if cell == [] || !('1' <= cell[0] <= '9') || Number(cell).None? || Number(cell).value > count then None
    else
      NumberPositive(cell);
      Number(cell)
  }

  lemma {:induction false} NumberPositive(s: string)
    requires s != [] && '1' <= s[0] <= '9' && Number(s).Some?
    ensures Number(s).value >= 1
  {
    var front := s[..|s| - 1];
    if front != [] {
      assert front[0] == s[0];
      NumberPositive(front);
    } else {
      assert Number(front) == Some(0);
    }
  }

  /** What the row validators are told about the record. */
  datatype Judging = Judging(world: World, criteria: seq<string>, candidate: Option<string>, cutoff: Option<nat>)

  function DateFaults(observed: string, index: nat, cutoff: Option<nat>): seq<Fault> {
    var date := AsDate(observed);
    if date.None? then [BadDate(index)]
    else if cutoff.Some? && date.value > cutoff.value then [LateDate(index)] else []
  }

  // ---- builder rows ----

  predicate LongBuilder(row: BuilderRow) {
    |row.criterion| > MAX_CELL_CHARS || |row.kind| > MAX_CELL_CHARS || |row.artifact| > MAX_CELL_CHARS
    || |row.observed| > MAX_CELL_CHARS || |row.source| > MAX_CELL_CHARS
  }

  function BuilderFaults(row: BuilderRow, index: nat, j: Judging): seq<Fault> {
    if LongBuilder(row) then [LongCell(index)]
    else if row.kind !in EVIDENCE_KINDS then [BadKind(index)]
    else
      var artifact := j.world.fold(Unticked(row.artifact));
      (if row.kind == "absent" && artifact != "none" then [ArtifactNotNone(index)]
       else if row.kind != "absent" && artifact in {"", "none"} then [NoArtifact(index)] else [])
      + DateFaults(row.observed, index, j.cutoff)
      + (if j.candidate.Some? && !j.world.sourceOk(row.kind, row.source, j.candidate.value) then [BadSource(index)] else [])
  }

  datatype Built = Built(groups: map<nat, seq<BuilderRow>>, faults: seq<Fault>)

  function BuilderStep(st: Built, row: BuilderRow, j: Judging): Built {
    var index := CriterionIndex(row.criterion, |j.criteria|);
    if index.None? then st.(faults := st.faults + [NoSuchCriterion(row.criterion)])
    else
      var before := if index.value in st.groups then st.groups[index.value] else [];
      Built(st.groups[index.value := before + [row]], st.faults + BuilderFaults(row, index.value, j))
  }

  function BuilderScan(rows: seq<BuilderRow>, to: nat, j: Judging): (st: Built)
    requires to <= |rows|
  {
    if to == 0 then Built(map[], []) else BuilderStep(BuilderScan(rows, to - 1, j), rows[to - 1], j)
  }

  predicate AllAbsent(rows: seq<BuilderRow>) {
    forall i :: 0 <= i < |rows| ==> rows[i].kind == "absent"
  }

  predicate SomeAbsent(rows: seq<BuilderRow>) {
    exists i :: 0 <= i < |rows| && rows[i].kind == "absent"
  }

  function GroupFaults(groups: map<nat, seq<BuilderRow>>, to: nat): (r: seq<Fault>)
    ensures r == [] ==> forall i :: 1 <= i <= to && i in groups ==> |groups[i]| <= MAX_ROWS
  {
    if to == 0 then []
    else
      var before := GroupFaults(groups, to - 1);
      if to !in groups then before
      else
        before + (if |groups[to]| > MAX_ROWS then [TooManyRows(to)] else [])
        + (if |groups[to]| > 1 && SomeAbsent(groups[to]) then [AbsentNotAlone(to)] else [])
  }

  /** `_validate_builder_rows` */
  method ValidateBuilderRows(record: Document, rows: seq<BuilderRow>, j: Judging, errors: ErrorList)
    returns (groups: map<nat, seq<BuilderRow>>)
    modifies errors
    ensures var st := BuilderScan(rows, |rows|, j);
      groups == st.groups && errors.items == old(errors.items) + At(record.path, st.faults + GroupFaults(groups, |j.criteria|))
  {
    hide BuilderStep, At, GroupFaults;
    groups := map[];
    ghost var faults: seq<Fault> := [];
    AtConcat(record.path, [], []);
    for k := 0 to |rows|
      invariant Built(groups, faults) == BuilderScan(rows, k, j)
      invariant errors.items == old(errors.items) + At(record.path, faults)
    {
      ghost var before := faults;
      groups, faults := GroupRow(record, rows[k], j, groups, faults, errors);
      assert faults == before + faults[|before|..];
      AtConcat(record.path, before, faults[|before|..]);
    }
    CheckGroups(record, groups, |j.criteria|, errors);
    AtConcat(record.path, faults, GroupFaults(groups, |j.criteria|));
  }

  /** One turn of the loop over builder rows. */
  method GroupRow(record: Document, row: BuilderRow, j: Judging, groups: map<nat, seq<BuilderRow>>, ghost faults: seq<Fault>, errors: ErrorList)
    returns (groupsNow: map<nat, seq<BuilderRow>>, ghost faultsNow: seq<Fault>)
    modifies errors
    ensures Built(groupsNow, faultsNow) == BuilderStep(Built(groups, faults), row, j)
    ensures faults <= faultsNow && errors.items == old(errors.items) + At(record.path, faultsNow[|faults|..])
  {
    hide BuilderFaults, CriterionIndex, At;
    groupsNow := groups;
    var index := CriterionIndex(row.criterion, |j.criteria|);
    if index.None? {
      errors.Append(record.path, NoSuchCriterion(row.criterion));
      faultsNow := faults + [NoSuchCriterion(row.criterion)];
    } else {
      groupsNow := groups[index.value := (if index.value in groups then groups[index.value] else []) + [row]];
      errors.Extend(record.path, BuilderFaults(row, index.value, j));
      faultsNow := faults + BuilderFaults(row, index.value, j);
    }
  }

  /** The loop over the criteria after it. */
  method CheckGroups(record: Document, groups: map<nat, seq<BuilderRow>>, count: nat, errors: ErrorList)
    modifies errors
    ensures errors.items == old(errors.items) + At(record.path, GroupFaults(groups, count))
  {
    hide At, SomeAbsent;
    AtConcat(record.path, [], []);
    for index := 1 to count + 1
      invariant errors.items == old(errors.items) + At(record.path, GroupFaults(groups, index - 1))
    {
      ghost var before := GroupFaults(groups, index - 1);
      ghost var many: seq<Fault>, mixed: seq<Fault> := [], [];
      if index in groups {
        if |groups[index]| > MAX_ROWS {
          errors.Append(record.path, TooManyRows(index));
          many := [TooManyRows(index)];
        }
        if |groups[index]| > 1 && SomeAbsent(groups[index]) {
          errors.Append(record.path, AbsentNotAlone(index));
          mixed := [AbsentNotAlone(index)];
        }
      }
      AtConcat(record.path, before, many);
      AtConcat(record.path, before + many, mixed);
      AtNothing(record.path);
      assert before + many + mixed == GroupFaults(groups, index);
    }
  }

  lemma AtNothing(path: string)
    ensures At(path, []) == []
  {
  }

  // ---- verdict rows ----

  function EvidenceOf(rows: seq<BuilderRow>): (r: seq<Evidence>)
    ensures |r| == |rows|
  {
    seq(|rows|, i requires 0 <= i < |rows| => Evidence(rows[i].kind, rows[i].artifact, rows[i].observed, rows[i].source))
  }

  /** `acceptance_evidence_digest` */
  function EvidenceDigest(w: World, candidate: string, index: nat, text: string, rows: seq<BuilderRow>): string {
    w.digest(candidate, index, Collapsed(text), EvidenceOf(rows))
  }

  /** `_verification_row_errors` */
  function VerdictFaults(row: VerdictRow, index: nat, builder: Option<seq<BuilderRow>>, j: Judging): seq<Fault>
    requires 1 <= index <= |j.criteria|
  {
    (if row.verdict !in ACCEPTANCE_VERDICTS then [BadVerdict(index)] else [])
    + (if builder.None? then [NothingJudged(index)]
       else if j.candidate == Some(PENDING) then [NotFrozen(index)]
       else if j.candidate.Some? then
         (if Unticked(row.digest) != EvidenceDigest(j.world, j.candidate.value, index, j.criteria[index - 1], builder.value)
          then [DigestDiffers(index)] else [])
         + (if AllAbsent(builder.value) && row.verdict != "absent" then [MustBeAbsent(index)] else [])
       else [])
    + DateFaults(row.observed, index, j.cutoff)
    + (if row.reason == [] then [NoReason(index)] else [])
  }

  predicate RunIdChar(c: char) {
    'A' <= c <= 'Z' || 'a' <= c <= 'z' || '0' <= c <= '9'
  }

  predicate RunIdText(s: string) {
    4 <= |s| <= 64 && RunIdChar(s[0]) && forall i :: 1 <= i < |s| ==> RunIdChar(s[i]) || s[i] in {'.', '_', ':', '-'}
  }

  predicate LongVerdict(row: VerdictRow) {
    |row.criterion| > MAX_CELL_CHARS || |row.verdict| > MAX_CELL_CHARS || |row.run| > MAX_CELL_CHARS
    || |row.digest| > MAX_CELL_CHARS || |row.observed| > MAX_CELL_CHARS || |row.reason| > MAX_CELL_CHARS
  }

  datatype Judged = Judged(verdicts: map<nat, VerdictRow>, runs: map<string, nat>, faults: seq<Fault>)

  function Builder(groups: map<nat, seq<BuilderRow>>, index: nat): Option<seq<BuilderRow>> {
    if index in groups then Some(groups[index]) else None
  }

  function VerdictStep(st: Judged, row: VerdictRow, groups: map<nat, seq<BuilderRow>>, j: Judging): Judged {
    var index := CriterionIndex(row.criterion, |j.criteria|);
    if index.None? then st.(faults := st.faults + [NoSuchCriterion(row.criterion)])
    else if index.value in st.verdicts then st.(faults := st.faults + [Duplicated(index.value)])
    else
      var kept := st.(verdicts := st.verdicts[index.value := row]);
      if LongVerdict(row) then kept.(faults := st.faults + [LongCell(index.value)])
      else
        var run, rest := Unticked(row.run), VerdictFaults(row, index.value, Builder(groups, index.value), j);
        if !RunIdText(run) then kept.(faults := st.faults + [BadRunId(index.value)] + rest)
        else if run in st.runs then kept.(faults := st.faults + [RunReused(index.value, st.runs[run])] + rest)
        else kept.(runs := st.runs[run := index.value], faults := st.faults + rest)
  }

  function VerdictScan(rows: seq<VerdictRow>, to: nat, groups: map<nat, seq<BuilderRow>>, j: Judging): Judged
    requires to <= |rows|
  {
    if to == 0 then Judged(map[], map[], []) else VerdictStep(VerdictScan(rows, to - 1, groups, j), rows[to - 1], groups, j)
  }

  lemma AtConcat(path: string, a: seq<Fault>, b: seq<Fault>)
    ensures At(path, a + b) == At(path, a) + At(path, b)
  {
  }

  /** One turn of the loop over verdict rows. */
  method JudgeRow(record: Document, row: VerdictRow, groups: map<nat, seq<BuilderRow>>, j: Judging,
                  verdicts: map<nat, VerdictRow>, runs: map<string, nat>, ghost faults: seq<Fault>, errors: ErrorList)
    returns (verdictsNow: map<nat, VerdictRow>, runsNow: map<string, nat>, ghost faultsNow: seq<Fault>)
    modifies errors
    ensures Judged(verdictsNow, runsNow, faultsNow) == VerdictStep(Judged(verdicts, runs, faults), row, groups, j)
    ensures faults <= faultsNow && errors.items == old(errors.items) + At(record.path, faultsNow[|faults|..])
  {
    hide VerdictFaults, CriterionIndex, RunIdText, LongVerdict, Unticked, At, Builder;
    verdictsNow, runsNow := verdicts, runs;
    var index := CriterionIndex(row.criterion, |j.criteria|);
    if index.None? {
      errors.Append(record.path, NoSuchCriterion(row.criterion));
      faultsNow := faults + [NoSuchCriterion(row.criterion)];
      return;
    }
    if index.value in verdicts {
      errors.Append(record.path, Duplicated(index.value));
      faultsNow := faults + [Duplicated(index.value)];
      return;
    }
    verdictsNow := verdicts[index.value := row];
    if LongVerdict(row) {
      errors.Append(record.path, LongCell(index.value));
      faultsNow := faults + [LongCell(index.value)];
      return;
    }
    var run := Unticked(row.run);
    ghost var first: seq<Fault> := [];
    if !RunIdText(run) {
      errors.Append(record.path, BadRunId(index.value));
      first := [BadRunId(index.value)];
    } else if run in runs {
      errors.Append(record.path, RunReused(index.value, runs[run]));
      first := [RunReused(index.value, runs[run])];
    } else {
      runsNow := runs[run := index.value];
      AtConcat(record.path, [], []);
    }
    var rest := VerdictFaults(row, index.value, Builder(groups, index.value), j);
    errors.Extend(record.path, rest);
    AtConcat(record.path, first, rest);
    faultsNow := faults + (first + rest);
    assert faultsNow == faults + first + rest && faultsNow[|faults|..] == first + rest;
  }

  /** `_validate_verification_rows` */
  method ValidateVerificationRows(record: Document, rows: seq<VerdictRow>, groups: map<nat, seq<BuilderRow>>, j: Judging, errors: ErrorList)
    returns (verdicts: map<nat, VerdictRow>)
    modifies errors
    ensures var st := VerdictScan(rows, |rows|, groups, j);
      verdicts == st.verdicts && errors.items == old(errors.items) + At(record.path, st.faults)
  {
    hide VerdictStep, At;
    verdicts := map[];
    var runs: map<string, nat> := map[];
    ghost var faults: seq<Fault> := [];
    AtConcat(record.path, [], []);
    for k := 0 to |rows|
      invariant Judged(verdicts, runs, faults) == VerdictScan(rows, k, groups, j)
      invariant errors.items == old(errors.items) + At(record.path, faults)
    {
      ghost var before := faults;
      verdicts, runs, faults := JudgeRow(record, rows[k], groups, j, verdicts, runs, faults, errors);
      assert faults == before + faults[|before|..];
      AtConcat(record.path, before, faults[|before|..]);
    }
  }

  // ---- one record ----

  /** `_acceptance_candidate`: a usable candidate, and what is wrong with another. */
  function CandidateOf(record: Document, w: World): (r: (Option<string>, seq<Fault>)) {
    if record.candidate == Text(PENDING) then (Some(PENDING), [])
    else if record.candidate.Other? || !HexSha(record.candidate.text) then (None, [])
    else if !w.commitExists(record.candidate.text) then (None, [NoCommit])
    else if !w.isAncestor(record.candidate.text) then (None, [NotAncestor])
    else (Some(record.candidate.text), [])
  }

  /** `_issue_criteria`; `acceptance` names the section, ignoring case. */
  function IssueCriteria(issue: Document, acceptance: TitleTest): (r: (Option<seq<string>>, seq<Fault>)) {
    var hs := Headings(issue.body, |issue.body|, acceptance);
    if |hs| != 1 then (None, [NoAcceptanceSection])
    else
      var (criteria, problems) := CriteriaOf(SectionLines(issue.body, hs[0]));
      (if problems == [] then Some(criteria) else None, CriteriaFaults(problems))
  }

  function CriteriaFaults(problems: seq<CriteriaProblem>): (r: seq<Fault>)
    ensures |r| == |problems|
  {
    seq(|problems|, i requires 0 <= i < |problems| => BadCriteria(problems[i]))
  }

  /** The section titles the gate looks for. */
  datatype Titles = Titles(acceptance: TitleTest, builder: TitleTest, verification: TitleTest)

  method FindIssueCriteria(issue: Document, t: Titles, errors: ErrorList) returns (criteria: Option<seq<string>>)
    modifies errors
    ensures var r := IssueCriteria(issue, t.acceptance);
      criteria == r.0 && errors.items == old(errors.items) + At(issue.path, r.1)
  {
    hide CriteriaOf, SectionLines, Headings;
    var sections := LevelTwoSections(issue.body, t.acceptance);
    if |sections| != 1 {
      errors.Append(issue.path, NoAcceptanceSection);
      return None;
    }
    var found, problems := AcceptanceCriteria(sections[0]);
    errors.Extend(issue.path, CriteriaFaults(problems));
    criteria := if problems == [] then Some(found) else None;
  }

  datatype RecordState = RecordState(criteria: seq<string>, builder: map<nat, seq<BuilderRow>>,
                                     verdicts: map<nat, VerdictRow>, candidate: Option<string>)

  function RecordPath(issueId: string): string {
    "docs/roadmap/acceptance/issue-" + issueId + ".md"
  }

  function BindingFaults(record: Document, issue: Document): seq<Fault> {
    (if record.path != RecordPath(issue.issueId) then [BadPath] else [])
    + (if issue.path !in record.related then [NotRelated] else [])
    + (if record.tracker != issue.tracker then [TrackerDiffers] else [])
  }

  function TableFaults(builder: Option<seq<Row>>, verification: Option<seq<Row>>): seq<Fault> {
    (if builder.None? then [NoBuilderTable] else []) + (if verification.None? then [NoVerificationTable] else [])
  }

  function BuilderTable(record: Document, t: Titles): Option<seq<Row>> {
    StrictRows(record.body, t.builder, BUILDER_COLUMNS)
  }

  function VerificationTable(record: Document, t: Titles): Option<seq<Row>> {
    StrictRows(record.body, t.verification, VERIFICATION_COLUMNS)
  }

  lemma StrictWidth(lines: seq<string>, named: TitleTest, columns: Row)
    ensures var rows := StrictRows(lines, named, columns);
      rows.Some? ==> forall i :: 0 <= i < |rows.value| ==> |rows.value[i]| == |columns|
  {
    hide Headings, SectionLines, Headers, VisibleAt, SeparatorRow, RowEnd, RowCells;
  }

  function RecordFaults(record: Document, issue: Document, w: World, t: Titles): (r: (Option<RecordState>, seq<Problem>)) {
    var criteria := IssueCriteria(issue, t.acceptance);
    var binding := At(record.path, BindingFaults(record, issue)) + At(issue.path, criteria.1);
    if criteria.0.None? then (None, binding)
    else
      var candidate := CandidateOf(record, w);
      var before := binding + At(record.path, candidate.1);
      var builder, verification := BuilderTable(record, t), VerificationTable(record, t);
      if builder.None? || verification.None? then (None, before + At(record.path, TableFaults(builder, verification)))
      else
        StrictWidth(record.body, t.builder, BUILDER_COLUMNS);
        StrictWidth(record.body, t.verification, VERIFICATION_COLUMNS);
        var j := Judging(w, criteria.0.value, candidate.0, record.cutoff);
        var rows, verdictRows := BuilderRows(builder.value), VerdictRows(verification.value);
        var built := BuilderScan(rows, |rows|, j);
        var judged := VerdictScan(verdictRows, |verdictRows|, built.groups, j);
        (Some(RecordState(criteria.0.value, built.groups, judged.verdicts, candidate.0)),
         before + At(record.path, built.faults + GroupFaults(built.groups, |criteria.0.value|)) + At(record.path, judged.faults))
  }

  /** `validate_acceptance_record` */
  method ValidateAcceptanceRecord(record: Document, issue: Document, w: World, t: Titles, errors: ErrorList)
    returns (state: Option<RecordState>)
    modifies errors
    ensures var r := RecordFaults(record, issue, w, t);
      state == r.0 && errors.items == old(errors.items) + r.1
  {
    hide IssueCriteria, BuilderScan, VerdictScan, StrictRows, CandidateOf, BindingFaults, At, GroupFaults, BuilderRows, VerdictRows;
    errors.Extend(record.path, BindingFaults(record, issue));
    var criteria := FindIssueCriteria(issue, t, errors);
    if criteria.None? {
      return None;
    }
    var candidate := CandidateOf(record, w);
    errors.Extend(record.path, candidate.1);
    var builder := StrictTableRows(record.body, t.builder, BUILDER_COLUMNS);
    var verification := StrictTableRows(record.body, t.verification, VERIFICATION_COLUMNS);
    if builder.None? || verification.None? {
      errors.Extend(record.path, TableFaults(builder, verification));
      return None;
    }
    StrictWidth(record.body, t.builder, BUILDER_COLUMNS);
    StrictWidth(record.body, t.verification, VERIFICATION_COLUMNS);
    var j := Judging(w, criteria.value, candidate.0, record.cutoff);
    var groups, verdicts := ValidateRows(record, BuilderRows(builder.value), VerdictRows(verification.value), j, errors);
    return Some(RecordState(criteria.value, groups, verdicts, candidate.0));
  }

  /** Its last part: the rows of both tables. */
  method ValidateRows(record: Document, rows: seq<BuilderRow>, verdictRows: seq<VerdictRow>, j: Judging, errors: ErrorList)
    returns (groups: map<nat, seq<BuilderRow>>, verdicts: map<nat, VerdictRow>)
    modifies errors
    ensures var built := BuilderScan(rows, |rows|, j);
      var judged := VerdictScan(verdictRows, |verdictRows|, built.groups, j);
      && groups == built.groups && verdicts == judged.verdicts
      && errors.items == old(errors.items) + At(record.path, built.faults + GroupFaults(built.groups, |j.criteria|)) + At(record.path, judged.faults)
  {
    hide BuilderScan, VerdictScan, At, GroupFaults;
    groups := ValidateBuilderRows(record, rows, j, errors);
    verdicts := ValidateVerificationRows(record, verdictRows, groups, j, errors);
  }

  // ---- the done gate ----

  function DoneCriterionFaults(st: RecordState, index: nat): seq<Fault> {
    (if index !in st.builder then [DoneNoEvidence(index)] else [])
    + (if index !in st.verdicts then [DoneNoVerdict(index)]
       else if st.verdicts[index].verdict != "satisfied" then [DoneBlocked(index)] else [])
  }

  function DoneFaults(st: RecordState, to: nat): (r: seq<Fault>)
    ensures r == [] ==> st.candidate != Some(PENDING)
    ensures r == [] ==> forall i :: 1 <= i <= to ==> i in st.builder && i in st.verdicts && st.verdicts[i].verdict == "satisfied"
  {
    if to == 0 then (if st.candidate == Some(PENDING) then [DoneNotFrozen] else [])
    else DoneFaults(st, to - 1) + DoneCriterionFaults(st, to)
  }

  /** `_acceptance_done_errors` */
  method AcceptanceDoneErrors(st: RecordState) returns (faults: seq<Fault>)
    ensures faults == DoneFaults(st, |st.criteria|)
  {
    faults := if st.candidate == Some(PENDING) then [DoneNotFrozen] else [];
    for index := 1 to |st.criteria| + 1
      invariant faults == DoneFaults(st, index - 1)
    {
      ghost var before := faults;
      if index !in st.builder {
        faults := faults + [DoneNoEvidence(index)];
      }
      if index !in st.verdicts {
        faults := faults + [DoneNoVerdict(index)];
      } else if st.verdicts[index].verdict != "satisfied" {
        faults := faults + [DoneBlocked(index)];
      }
      assert faults == before + DoneCriterionFaults(st, index);
    }
  }
}
