/** Soundness of the done gate: what a documentation set the gate accepts guarantees of every
    done issue, and the exact condition under which a verdict is bound to its evidence. */
module DoneGateSound {
  import opened Outcomes
  import opened AcceptanceTable
  import opened VerifierAnswer
  import opened DoneGate
  import opened DoneGateLaws
  import opened DoneGatePromises
  import opened DoneGateExact

  // ---- what an accepted record guarantees ----

  /** One criterion has 1 to 8 builder rows and exactly one verdict, which is satisfied. */
  predicate CriterionHolds(record: Document, t: Titles, index: nat)
    requires BuilderTable(record, t).Some? && VerificationTable(record, t).Some?
  {
    var rows, verdicts := EvidenceRows(record, t), Verdicts(record, t);
    var found := VerdictsFor(verdicts, |verdicts|, index);
    1 <= |RowsFor(rows, |rows|, index)| <= MAX_ROWS && |found| == 1 && found[0].verdict == "satisfied"
  }

  /** The criterion's verdict names the digest of this candidate, this text and these rows. */
  predicate CriterionBound(record: Document, w: World, t: Titles, candidate: string, criteria: seq<string>, index: nat)
    requires BuilderTable(record, t).Some? && VerificationTable(record, t).Some? && 1 <= index <= |criteria|
  {
    var rows, verdicts := EvidenceRows(record, t), Verdicts(record, t);
    var found := VerdictsFor(verdicts, |verdicts|, index);
    |found| == 1
    && Unticked(found[0].digest) == EvidenceDigest(w, candidate, index, criteria[index - 1], RowsFor(rows, |rows|, index))
  }

  /** A commit of this repository, named by a text. */
  predicate Frozen(record: Document, w: World) {
    record.candidate.Text? && CommitText(record.candidate.text) && w.commitExists(record.candidate.text) && w.isAncestor(record.candidate.text)
  }

  /** Everything the gate promises of a done issue and its record. */
  ghost predicate Accepted(record: Document, issue: Document, w: World, t: Titles) {
    && RecordClean(record, issue, w, t) && RecordDone(record, issue, w, t)
    && var criteria := IssueCriteria(issue, t.acceptance).0.value;
    && (forall i :: 1 <= i <= |criteria| ==> CriterionHolds(record, t, i))
    && (record.candidate.Text? ==> Frozen(record, w) && forall i :: 1 <= i <= |criteria| ==>
          CriterionBound(record, w, t, record.candidate.text, criteria, i))
  }

  /** A record that validates, for which the done check finds nothing, keeps every promise. */
  lemma RecordAccepted(record: Document, issue: Document, w: World, t: Titles)
    requires RecordFaults(record, issue, w, t).1 == [] && SchemaFaults(record) == []
    requires RecordFaults(record, issue, w, t).0.Some? ==>
      DoneFaults(RecordFaults(record, issue, w, t).0.value, |RecordFaults(record, issue, w, t).0.value.criteria|) == []
    ensures Accepted(record, issue, w, t)
  {
    hide IssueCriteria, BuilderScan, VerdictScan, StrictRows, CandidateOf, BindingFaults, At, GroupFaults, BuilderRows, VerdictRows,
         RecordFaults, CriterionHolds, CriterionBound, Frozen, SchemaFaults, DoneFaults, EvidenceRows, Verdicts, BuilderTable, VerificationTable;
    RecordParts(record, issue, w, t);
    var criteria := IssueCriteria(issue, t.acceptance).0.value;
    RecordExactly(record, issue, w, t);
    DoneExactly(record, issue, w, t);
    if record.candidate.Text? { CandidateFrozen(record, w); }
    forall i | 1 <= i <= |criteria|
      ensures CriterionHolds(record, t, i)
      ensures record.candidate.Text? ==> CriterionBound(record, w, t, record.candidate.text, criteria, i)
    {
      CriterionAccepted(record, issue, w, t, i);
    }
  }

  /** With a text for candidate, no schema fault, no candidate fault and no pending left. */
  lemma CandidateFrozen(record: Document, w: World)
    requires SchemaFaults(record) == [] && CandidateOf(record, w).1 == [] && CandidateOf(record, w).0 != Some(PENDING)
    requires record.candidate.Text?
    ensures Frozen(record, w) && CandidateOf(record, w).0 == Some(record.candidate.text)
  {
    hide HexSha, CommitText, IssueIdText;
    HexExactly(record.candidate.text);
  }

  lemma CriterionAccepted(record: Document, issue: Document, w: World, t: Titles, index: nat)
    requires RecordFaults(record, issue, w, t).1 == [] && SchemaFaults(record) == []
    requires RecordFaults(record, issue, w, t).0.Some?
    requires var st := RecordFaults(record, issue, w, t).0.value; DoneFaults(st, |st.criteria|) == []
    requires IssueCriteria(issue, t.acceptance).0.Some? && 1 <= index <= |IssueCriteria(issue, t.acceptance).0.value|
    ensures BuilderTable(record, t).Some? && VerificationTable(record, t).Some?
    ensures CriterionHolds(record, t, index)
    ensures record.candidate.Text? ==> CriterionBound(record, w, t, record.candidate.text, IssueCriteria(issue, t.acceptance).0.value, index)
  {
    hide IssueCriteria, BuilderScan, VerdictScan, StrictRows, CandidateOf, BindingFaults, At, GroupFaults, BuilderRows, VerdictRows,
         RecordFaults, Frozen, SchemaFaults, DoneFaults, EvidenceRows, Verdicts, BuilderTable, VerificationTable, VerdictsFor, RowsFor, EvidenceDigest, Unticked;
    RecordParts(record, issue, w, t);
    var criteria := IssueCriteria(issue, t.acceptance).0.value;
    var j := Judging(w, criteria, CandidateOf(record, w).0, record.cutoff);
    var rows, verdicts := EvidenceRows(record, t), Verdicts(record, t);
    var built := BuilderScan(rows, |rows|, j);
    BuilderScanMeans(rows, |rows|, j, index);
    VerdictScanMeans(verdicts, |verdicts|, built.groups, j, index);
    if record.candidate.Text? { CandidateFrozen(record, w); }
  }

  // ---- the whole gate ----

  predicate SchemaClean(docs: seq<Document>) {
    forall k :: 0 <= k < |docs| && docs[k].kind.AcceptanceRecord? ==> SchemaFaults(docs[k]) == []
  }

  /** When schema and gate report nothing and issue identifiers are distinct, every done issue
      outside the frozen history has exactly one record, and it keeps every promise; a record of
      a grandfathered done issue keeps them too. */
  lemma GateSound(docs: seq<Document>, g: Gate, k: nat)
    requires GateProblems(docs, g) == [] && SchemaClean(docs) && DistinctIssues(docs)
    requires k < |docs| && docs[k].kind.Issue? && docs[k].status == "done"
    ensures var records := RecordsFor(docs, |docs|, docs[k].issueId);
      if records == [] then docs[k].issueId in g.grandfathered
      else |records| == 1 && Accepted(records[0], docs[k], g.world, g.titles)
  {
    hide GateProblems, RecordFaults, DoneFaults, IssueCriteria, RecordsFor, Accepted, SchemaFaults, RecordClean, RecordDone, DistinctIssues, RecordFits;
    var id := docs[k].issueId;
    GateExactly(docs, g);
    assert DoneFits(docs, k, g);
    RecordFound(docs, id);
    if RecordsFor(docs, |docs|, id) != [] {
      var r: nat :| IsRecord(docs, r, id);
      assert RecordFits(docs, r, g);
      EntryExactly(docs, g, r, id);
      RecordExactly(docs[r], docs[k], g.world, g.titles);
      DoneExactly(docs[r], docs[k], g.world, g.titles);
      RecordAccepted(docs[r], docs[k], g.world, g.titles);
    }
  }

  // ---- later edits ----

  ghost predicate Injective(w: World) {
    forall c, i, s, e, c', i', s', e' :: w.digest(c, i, s, e) == w.digest(c', i', s', e') ==> c == c' && i == i' && s == s' && e == e'
  }

  /** Two accepted states of an issue whose verdicts on a criterion carry the same digest agree on
      the candidate, on the criterion's text up to spacing, and on its evidence; so any edit of
      these that keeps the verdict row is reported. */
  lemma EditsAreReported(record: Document, issue: Document, record': Document, issue': Document, w: World, t: Titles, index: nat)
    requires Injective(w) && Accepted(record, issue, w, t) && Accepted(record', issue', w, t)
    requires record.candidate.Text? && record'.candidate.Text?
    requires var c, c' := IssueCriteria(issue, t.acceptance).0.value, IssueCriteria(issue', t.acceptance).0.value;
      && 1 <= index <= |c| && index <= |c'|
      && var v, v' := Verdicts(record, t), Verdicts(record', t);
         var f, f' := VerdictsFor(v, |v|, index), VerdictsFor(v', |v'|, index);
         |f| == 1 && |f'| == 1 && f[0].digest == f'[0].digest
    ensures record.candidate == record'.candidate
    ensures var c, c' := IssueCriteria(issue, t.acceptance).0.value, IssueCriteria(issue', t.acceptance).0.value;
      var rows, rows' := EvidenceRows(record, t), EvidenceRows(record', t);
      && Collapsed(c[index - 1]) == Collapsed(c'[index - 1])
      && EvidenceOf(RowsFor(rows, |rows|, index)) == EvidenceOf(RowsFor(rows', |rows'|, index))
  {
    hide IssueCriteria, CriterionHolds, Frozen, EvidenceRows, Verdicts, BuilderTable, VerificationTable, VerdictsFor, RowsFor, Unticked, Collapsed, RecordPath, EvidenceOf;
    var c, c' := IssueCriteria(issue, t.acceptance).0.value, IssueCriteria(issue', t.acceptance).0.value;
    assert CriterionBound(record, w, t, record.candidate.text, c, index);
    assert CriterionBound(record', w, t, record'.candidate.text, c', index);
  }

  /** Both records hold one verdict on the criterion, with the same digest. */
  predicate SameVerdict(record: Document, issue: Document, record': Document, issue': Document, t: Titles, index: nat) {
    var c, c' := IssueCriteria(issue, t.acceptance).0, IssueCriteria(issue', t.acceptance).0;
    && c.Some? && c'.Some? && 1 <= index <= |c.value| && index <= |c'.value|
    && VerificationTable(record, t).Some? && VerificationTable(record', t).Some?
    && var v, v' := Verdicts(record, t), Verdicts(record', t);
       var f, f' := VerdictsFor(v, |v|, index), VerdictsFor(v', |v'|, index);
       |f| == 1 && |f'| == 1 && f[0].digest == f'[0].digest
  }

  /** Nothing that the verdict on the criterion was about has changed: the candidate, the text up to
      spacing, and the builder evidence. */
  predicate SameJudged(record: Document, issue: Document, record': Document, issue': Document, t: Titles, index: nat)
    requires SameVerdict(record, issue, record', issue', t, index)
  {
    var c, c' := IssueCriteria(issue, t.acceptance).0.value, IssueCriteria(issue', t.acceptance).0.value;
    && BuilderTable(record, t).Some? && BuilderTable(record', t).Some?
    && record.candidate == record'.candidate && Collapsed(c[index - 1]) == Collapsed(c'[index - 1])
    && var rows, rows' := EvidenceRows(record, t), EvidenceRows(record', t);
       EvidenceOf(RowsFor(rows, |rows|, index)) == EvidenceOf(RowsFor(rows', |rows'|, index))
  }

  lemma AcceptedTwice(record: Document, issue: Document, record': Document, issue': Document, w: World, t: Titles, index: nat)
    requires Injective(w) && Accepted(record, issue, w, t) && Accepted(record', issue', w, t)
    requires record.candidate.Text? && record'.candidate.Text? && SameVerdict(record, issue, record', issue', t, index)
    ensures SameJudged(record, issue, record', issue', t, index)
  {
    hide IssueCriteria, CriterionHolds, Frozen, EvidenceRows, Verdicts, BuilderTable, VerificationTable, VerdictsFor, RowsFor,
         Unticked, Collapsed, RecordPath, EvidenceOf, CriterionBound;
    EditsAreReported(record, issue, record', issue', w, t, index);
  }

  /** An edit of the candidate, a criterion's text or its evidence that leaves the verdict's digest
      as it was makes a clean documentation set one that the gate reports. */
  lemma EditsFailTheGate(docs: seq<Document>, docs': seq<Document>, g: Gate, k: nat, k': nat, record: Document, record': Document, index: nat)
    requires Injective(g.world) && GateProblems(docs, g) == []
    requires SchemaClean(docs) && DistinctIssues(docs) && SchemaClean(docs') && DistinctIssues(docs')
    requires k < |docs| && docs[k].kind.Issue? && docs[k].status == "done"
    requires k' < |docs'| && docs'[k'].kind.Issue? && docs'[k'].status == "done"
    requires RecordsFor(docs, |docs|, docs[k].issueId) == [record] && RecordsFor(docs', |docs'|, docs'[k'].issueId) == [record']
    requires record.candidate.Text? && record'.candidate.Text?
    requires SameVerdict(record, docs[k], record', docs'[k'], g.titles, index)
    requires !SameJudged(record, docs[k], record', docs'[k'], g.titles, index)
    ensures GateProblems(docs', g) != []
  {
    hide GateProblems, SchemaClean, DistinctIssues, RecordsFor, Accepted, SameVerdict, SameJudged, Injective;
    if GateProblems(docs', g) == [] {
      GateSound(docs, g, k);
      GateSound(docs', g, k');
      AcceptedTwice(record, docs[k], record', docs'[k'], g.world, g.titles, index);
      assert false;
    }
  }

  // ---- the exact condition ----

  /** A verdict row the gate accepts, with another digest in its place, is accepted only if that is
      the digest of what was judged. */
  ghost predicate DigestChecked(record: Document, row: VerdictRow, index: nat, builder: seq<BuilderRow>, j: Judging)
    requires 1 <= index <= |j.criteria|
  {
    forall digest :: VerdictFaults(row.(digest := digest), index, Some(builder), j) == [] ==>
      Unticked(digest) == EvidenceDigest(j.world, Shown(record.candidate), index, j.criteria[index - 1], builder)
  }

  /** A candidate that front matter holds as something other than a text, such as a number of forty
      digits, passes the schema and is not looked up, and then any digest is accepted; with a text
      the digest is checked.  So the binding holds exactly when the candidate is a text. */
  lemma BoundExactlyWhenText(record: Document, row: VerdictRow, index: nat, builder: seq<BuilderRow>, j: Judging)
    requires 1 <= index <= |j.criteria|
    requires SchemaFaults(record) == [] && CandidateOf(record, j.world) == (j.candidate, []) && j.candidate != Some(PENDING)
    requires VerdictFaults(row, index, Some(builder), j) == []
    ensures DigestChecked(record, row, index, builder, j) <==> record.candidate.Text?
  {
    hide HexSha, IssueIdText, EvidenceDigest, AllAbsent, DateFaults;
    if record.candidate.Text? {
      CandidateFrozen(record, j.world);
    } else {
      var expected := EvidenceDigest(j.world, Shown(record.candidate), index, j.criteria[index - 1], builder);
      var other := if expected == "a" then "b" else "a";
      UntickedLetters();
      assert VerdictFaults(row.(digest := other), index, Some(builder), j) == VerdictFaults(row, index, Some(builder), j);
      assert Unticked(other) != expected;
    }
  }

  lemma UntickedLetters()
    ensures Unticked("a") == "a" && Unticked("b") == "b"
  {
  }
}
