/** What the gate on done issues asks of a documentation set, said of its rows, records and issues
    without the functions that collect faults. */
module DoneGatePromises {
  import opened Outcomes
  import opened Dates
  import opened VerdictLines
  import opened AcceptanceTable
  import opened DoneGate
  import opened DoneGateLaws

  // ---- texts ----

  const DIGITS := "0123456789"

  /** Forty lower-case hexadecimal digits. */
  predicate CommitText(s: string) {
    |s| == 40 && forall c :: c in s ==> c in DIGITS || c in "abcdef"
  }

  predicate Letter(c: char) {
    'A' <= c <= 'Z' || 'a' <= c <= 'z'
  }

  /** Four to sixty-four letters, digits and, after the first, marks. */
  predicate RunName(s: string) {
    4 <= |s| <= 64 && (s[0] in DIGITS || Letter(s[0])) && forall c :: c in s ==> c in DIGITS || Letter(c) || c in "._:-"
  }

  /** What the schema asks of a record, of the fields the gate reads. */
  predicate SchemaKept(record: Document) {
    && record.status == "active"
    && |record.issueId| >= 5 && record.issueId[..3] == "AR-" && (forall c :: c in record.issueId[3..] ==> c in DIGITS)
    && (record.candidate == Text("pending") || CommitText(Shown(record.candidate)))
    && record.cutoff.Some?
  }

  // ---- the rows of a record ----

  function EvidenceRows(record: Document, t: Titles): seq<BuilderRow>
    requires BuilderTable(record, t).Some?
  {
    StrictWidth(record.body, t.builder, BUILDER_COLUMNS);
    BuilderRows(BuilderTable(record, t).value)
  }

  function Verdicts(record: Document, t: Titles): seq<VerdictRow>
    requires VerificationTable(record, t).Some?
  {
    StrictWidth(record.body, t.verification, VERIFICATION_COLUMNS);
    VerdictRows(VerificationTable(record, t).value)
  }

  /** The cell is the number of a criterion in decimal. */
  predicate Names(cell: string, index: nat, count: nat) {
    1 <= index <= count && cell == Decimal(index)
  }

  /** The builder rows of one criterion, in order. */
  function RowsFor(rows: seq<BuilderRow>, to: nat, index: nat): seq<BuilderRow>
    requires to <= |rows|
  {
    if to == 0 then []
    else RowsFor(rows, to - 1, index) + (if rows[to - 1].criterion == Decimal(index) then [rows[to - 1]] else [])
  }

  function VerdictsFor(rows: seq<VerdictRow>, to: nat, index: nat): seq<VerdictRow>
    requires to <= |rows|
  {
    if to == 0 then []
    else VerdictsFor(rows, to - 1, index) + (if rows[to - 1].criterion == Decimal(index) then [rows[to - 1]] else [])
  }

  // ---- one row ----

  /** A day of the calendar, and not one after the cutoff. */
  ghost predicate DatedBy(observed: string, cutoff: Option<nat>) {
    exists y: nat, m: nat, d: nat :: Spells(observed, y, m, d) && (cutoff.Some? ==> 10000 * y + 100 * m + d <= cutoff.value)
  }

  ghost predicate BuilderRowOk(row: BuilderRow, j: Judging) {
    && (exists index: nat :: Names(row.criterion, index, |j.criteria|))
    && |row.criterion| <= 400 && |row.kind| <= 400 && |row.artifact| <= 400 && |row.observed| <= 400 && |row.source| <= 400
    && row.kind in {"command-output", "file", "receipt", "tracker", "test", "absent"}
    && (var artifact := j.world.fold(Unticked(row.artifact));
        if row.kind == "absent" then artifact == "none" else artifact != "none" && artifact != "")
    && DatedBy(row.observed, j.cutoff)
    && (j.candidate.Some? ==> j.world.sourceOk(row.kind, row.source, j.candidate.value))
  }

  /** No criterion has more than eight builder rows, and an absent row is its criterion's only one. */
  ghost predicate GroupOk(group: seq<BuilderRow>) {
    |group| <= 8 && forall row :: row in group && row.kind == "absent" ==> |group| == 1
  }

  ghost predicate BuilderRowsOk(rows: seq<BuilderRow>, j: Judging) {
    && (forall k: nat :: k < |rows| ==> BuilderRowOk(rows[k], j))
    && forall index: nat :: 1 <= index <= |j.criteria| ==> GroupOk(RowsFor(rows, |rows|, index))
  }

  /** The verdict on a criterion, beside the criterion's builder rows. */
  ghost predicate VerdictRowOk(row: VerdictRow, index: nat, group: seq<BuilderRow>, j: Judging)
    requires 1 <= index <= |j.criteria|
  {
    && |row.criterion| <= 400 && |row.verdict| <= 400 && |row.run| <= 400 && |row.digest| <= 400 && |row.observed| <= 400 && |row.reason| <= 400
    && row.verdict in {"satisfied", "contradicted", "absent"} && row.reason != "" && RunName(Unticked(row.run))
    && DatedBy(row.observed, j.cutoff)
    && group != [] && j.candidate != Some(PENDING)
    && (j.candidate.Some? ==>
          && Unticked(row.digest) == EvidenceDigest(j.world, j.candidate.value, index, j.criteria[index - 1], group)
          && ((forall r :: r in group ==> r.kind == "absent") ==> row.verdict == "absent"))
  }

  /** Row `k` names a criterion, passes beside that criterion's builder rows, and repeats neither
      criterion nor run. */
  ghost predicate RowFits(verdicts: seq<VerdictRow>, k: nat, rows: seq<BuilderRow>, j: Judging)
    requires k < |verdicts|
  {
    && (exists index: nat :: Names(verdicts[k].criterion, index, |j.criteria|) && VerdictRowOk(verdicts[k], index, RowsFor(rows, |rows|, index), j))
    && (forall a: nat :: a < k ==> verdicts[a].criterion != verdicts[k].criterion)
    && forall a: nat :: a < k ==> Unticked(verdicts[a].run) != Unticked(verdicts[k].run)
  }

  ghost predicate VerdictRowsOk(verdicts: seq<VerdictRow>, rows: seq<BuilderRow>, j: Judging) {
    forall k: nat :: k < |verdicts| ==> RowFits(verdicts, k, rows, j)
  }

  // ---- one record ----

  /** The commit that rows are judged against: a text that is pending or looks like a commit. */
  function Judgeable(record: Document): Option<string> {
    if record.candidate.Text? && (record.candidate.text == "pending" || CommitText(record.candidate.text)) then Some(record.candidate.text) else None
  }

  function JudgingOf(record: Document, issue: Document, w: World, t: Titles): Judging
    requires IssueCriteria(issue, t.acceptance).0.Some?
  {
    Judging(w, IssueCriteria(issue, t.acceptance).0.value, Judgeable(record), record.cutoff)
  }

  /** A record that validates. */
  ghost predicate RecordClean(record: Document, issue: Document, w: World, t: Titles) {
    && record.path == "docs/roadmap/acceptance/issue-" + issue.issueId + ".md" && issue.path in record.related && record.tracker == issue.tracker
    && (record.candidate.Text? && CommitText(record.candidate.text) ==>
          w.commitExists(record.candidate.text) && w.isAncestor(record.candidate.text))
    && IssueCriteria(issue, t.acceptance).0.Some? && BuilderTable(record, t).Some? && VerificationTable(record, t).Some?
    && BuilderRowsOk(EvidenceRows(record, t), JudgingOf(record, issue, w, t))
    && VerdictRowsOk(Verdicts(record, t), EvidenceRows(record, t), JudgingOf(record, issue, w, t))
  }

  /** The criterion has builder rows and a satisfied verdict. */
  ghost predicate CriterionDone(record: Document, t: Titles, index: nat)
    requires BuilderTable(record, t).Some? && VerificationTable(record, t).Some?
  {
    var rows, verdicts := EvidenceRows(record, t), Verdicts(record, t);
    RowsFor(rows, |rows|, index) != [] && exists v :: v in verdicts && v.criterion == Decimal(index) && v.verdict == "satisfied"
  }

  /** A record that validates and lets its issue be done: no pending candidate, and for every criterion
      builder rows and a satisfied verdict. */
  ghost predicate RecordDone(record: Document, issue: Document, w: World, t: Titles)
    requires RecordClean(record, issue, w, t)
  {
    record.candidate != Text(PENDING)
    && forall index: nat :: 1 <= index <= |IssueCriteria(issue, t.acceptance).0.value| ==> CriterionDone(record, t, index)
  }

  // ---- the documentation set ----

  predicate DistinctIssues(docs: seq<Document>) {
    forall a, b :: 0 <= a < b < |docs| && docs[a].kind.Issue? && docs[b].kind.Issue? ==> docs[a].issueId != docs[b].issueId
  }

  predicate IsRecord(docs: seq<Document>, r: nat, id: string) {
    r < |docs| && docs[r].kind.AcceptanceRecord? && docs[r].issueId == id
  }

  predicate IsIssue(docs: seq<Document>, k: nat, id: string) {
    k < |docs| && docs[k].kind.Issue? && docs[k].issueId == id
  }

  /** The record is the only one of its issue, there is that issue, and the record validates. */
  ghost predicate RecordFits(docs: seq<Document>, r: nat, g: Gate)
    requires r < |docs|
  {
    && (forall s: nat :: s != r ==> !IsRecord(docs, s, docs[r].issueId))
    && exists k: nat :: IsIssue(docs, k, docs[r].issueId) && RecordClean(docs[r], docs[k], g.world, g.titles)
  }

  /** A done issue has a record that lets it be done, or none and belongs to the frozen history. */
  ghost predicate DoneFits(docs: seq<Document>, k: nat, g: Gate)
    requires k < |docs|
  {
    docs[k].status == "done" ==>
      if exists r: nat :: IsRecord(docs, r, docs[k].issueId)
      then forall r: nat :: IsRecord(docs, r, docs[k].issueId) ==>
             RecordClean(docs[r], docs[k], g.world, g.titles) && RecordDone(docs[r], docs[k], g.world, g.titles)
      else docs[k].issueId in g.grandfathered
  }

  ghost predicate GateHolds(docs: seq<Document>, g: Gate) {
    && (forall r: nat :: r < |docs| && docs[r].kind.AcceptanceRecord? ==> RecordFits(docs, r, g))
    && forall k: nat :: k < |docs| && docs[k].kind.Issue? ==> DoneFits(docs, k, g)
  }
}
