/** The whole gate, and what it means that it reports nothing. */
module DoneGateLaws {
  import opened Outcomes
  import opened Sorting
  import opened DoneGate

  // ---- documents by issue ----

  /** Code point order of texts. */
  predicate TextLess(a: string, b: string) {
    b != [] && (a == [] || a[0] < b[0] || (a[0] == b[0] && TextLess(a[1..], b[1..])))
  }

  /** The last issue document with each identifier. */
  function IssueMap(docs: seq<Document>, to: nat): map<string, Document>
    requires to <= |docs|
  {
    if to == 0 then map[]
    else
      var m, d := IssueMap(docs, to - 1), docs[to - 1];
      if d.kind.Issue? then m[d.issueId := d] else m
  }

  function RecordsFor(docs: seq<Document>, to: nat, id: string): seq<Document>
    requires to <= |docs|
  {
    if to == 0 then []
    else
      var d := docs[to - 1];
      RecordsFor(docs, to - 1, id) + (if d.kind.AcceptanceRecord? && d.issueId == id then [d] else [])
  }

  /** The identifiers that documents of a kind carry, each once, in order of appearance. */
  function Ids(docs: seq<Document>, to: nat, kind: DocType): (ids: seq<string>)
    requires to <= |docs|
    ensures forall id :: id in ids <==> exists k :: 0 <= k < to && docs[k].kind == kind && docs[k].issueId == id
  {
    if to == 0 then []
    else
      var before, d := Ids(docs, to - 1, kind), docs[to - 1];
      if d.kind == kind && d.issueId !in before then before + [d.issueId] else before
  }

  // ---- the gate ----

  /** What the gate compares documents with. */
  datatype Gate = Gate(world: World, titles: Titles, grandfathered: set<string>)

  const RECORD_DIR := "docs/roadmap/acceptance"

  /** The state of one identifier's record, when there is one to validate, and its problems. */
  function EntryOf(docs: seq<Document>, id: string, g: Gate): (r: (Option<RecordState>, seq<Problem>)) {
    var matches, issues := RecordsFor(docs, |docs|, id), IssueMap(docs, |docs|);
    if matches == [] then (None, [])
    else if |matches| > 1 then (None, At(RECORD_DIR, [SeveralRecords]))
    else if id !in issues then (None, At(matches[0].path, [UnknownIssue]))
    else RecordFaults(matches[0], issues[id], g.world, g.titles)
  }

  function IssueProblems(docs: seq<Document>, id: string, g: Gate): seq<Problem> {
    var issues, matches := IssueMap(docs, |docs|), RecordsFor(docs, |docs|, id);
    if id !in issues || issues[id].status != "done" then []
    else
      var issue := issues[id];
      if matches != [] then
        var state := EntryOf(docs, id, g).0;
        if state.Some? then At(issue.path, DoneFaults(state.value, |state.value.criteria|)) else []
      else if id in g.grandfathered then []
      else At(issue.path, IssueCriteria(issue, g.titles.acceptance).1) + At(issue.path, [RecordRequired])
  }

  function EntriesProblems(docs: seq<Document>, ids: seq<string>, to: nat, g: Gate): seq<Problem>
    requires to <= |ids|
  {
    if to == 0 then [] else EntriesProblems(docs, ids, to - 1, g) + EntryOf(docs, ids[to - 1], g).1
  }

  function IssuesProblems(docs: seq<Document>, ids: seq<string>, to: nat, g: Gate): seq<Problem>
    requires to <= |ids|
  {
    if to == 0 then [] else IssuesProblems(docs, ids, to - 1, g) + IssueProblems(docs, ids[to - 1], g)
  }

  function SortedIds(docs: seq<Document>, kind: DocType): seq<string> {
    Sort(Ids(docs, |docs|, kind), TextLess)
  }

  // the identifiers come in code point order, each once

  /** The first character in which the two differ is smaller in `a`, or `a` ends there. */
  predicate Before(a: string, b: string) {
    exists k :: 0 <= k <= |a| && k < |b| && a[..k] == b[..k] && (k == |a| || a[k] < b[k])
  }

  lemma HeadsOrdered(a: string, b: string)
    requires a != [] && b != [] && Before(a, b)
    ensures a[0] <= b[0]
  {
    var k :| 0 <= k <= |a| && k < |b| && a[..k] == b[..k] && (k == |a| || a[k] < b[k]);
    if k > 0 { assert a[0] == a[..k][0] == b[..k][0] == b[0]; }
  }

  lemma {:induction false} TextLessExactly(a: string, b: string)
    ensures TextLess(a, b) <==> Before(a, b)
  {
    if b != [] && a != [] && a[0] == b[0] {
      TextLessExactly(a[1..], b[1..]);
      if k :| 0 <= k <= |a[1..]| && k < |b[1..]| && a[1..][..k] == b[1..][..k] && (k == |a[1..]| || a[1..][k] < b[1..][k]) {
        assert a[..k + 1] == [a[0]] + a[1..][..k] && b[..k + 1] == [b[0]] + b[1..][..k];
      }
      if k :| 0 <= k <= |a| && k < |b| && a[..k] == b[..k] && (k == |a| || a[k] < b[k]) {
        assert k > 0;
        assert a[1..][..k - 1] == a[..k][1..] && b[1..][..k - 1] == b[..k][1..];
      }
    } else if b != [] {
      assert a[..0] == b[..0];
      if a != [] && Before(a, b) { HeadsOrdered(a, b); }
    }
  }

  lemma {:induction false} TextOrder(a: string, b: string, c: string)
    ensures !TextLess(a, a) && (TextLess(a, b) || TextLess(b, a) || a == b)
    ensures TextLess(a, b) && TextLess(b, c) ==> TextLess(a, c)
  {
    if a != [] {
      var b' := if b == [] then [] else b[1..];
      var c' := if c == [] then [] else c[1..];
      TextOrder(a[1..], b', c');
      assert b != [] && a[0] == b[0] && a[1..] == b[1..] ==> a == b;
    }
  }

  lemma {:induction false} IdsDistinct(docs: seq<Document>, to: nat, kind: DocType)
    requires to <= |docs|
    ensures Distinct(Ids(docs, to, kind))
  {
    if to > 0 { IdsDistinct(docs, to - 1, kind); }
  }

  /** The gate goes through the identifiers in order, each once. */
  lemma IdsAscend(docs: seq<Document>, kind: DocType)
    ensures var ids := SortedIds(docs, kind); forall i, j :: 0 <= i < j < |ids| ==> Before(ids[i], ids[j])
  {
    hide TextLess, Ids, Before, Sort;
    forall a, b, c ensures !TextLess(a, a) && (TextLess(a, b) || TextLess(b, a) || a == b) && (TextLess(a, b) && TextLess(b, c) ==> TextLess(a, c)) {
      TextOrder(a, b, c);
    }
    IdsDistinct(docs, |docs|, kind);
    SortSorted(Ids(docs, |docs|, kind), TextLess);
    var ids := SortedIds(docs, kind);
    forall i, j | 0 <= i < j < |ids| ensures Before(ids[i], ids[j]) { TextLessExactly(ids[i], ids[j]); }
  }

  function GateProblems(docs: seq<Document>, g: Gate): seq<Problem> {
    var records, issues := SortedIds(docs, AcceptanceRecord), SortedIds(docs, Issue);
    EntriesProblems(docs, records, |records|, g) + IssuesProblems(docs, issues, |issues|, g)
  }

  /** `validate_acceptance_verification`, with the grandfathered identifiers given. */
  method ValidateAcceptanceVerification(docs: seq<Document>, g: Gate, errors: ErrorList)
    modifies errors
    ensures errors.items == old(errors.items) + GateProblems(docs, g)
  {
    hide EntriesProblems, IssuesProblems, SortedIds, IssueMap, RecordsFor, EntryOf;
    var issues, records := ByIdentifier(docs);
    var states := ValidateRecords(docs, records, issues, g, errors);
    ValidateIssues(docs, records, issues, states, g, errors);
  }

  method ByIdentifier(docs: seq<Document>) returns (issues: map<string, Document>, records: map<string, seq<Document>>)
    ensures issues == IssueMap(docs, |docs|)
    ensures forall id :: id in records <==> RecordsFor(docs, |docs|, id) != []
    ensures forall id :: id in records ==> records[id] == RecordsFor(docs, |docs|, id)
  {
    issues, records := map[], map[];
    for k := 0 to |docs|
      invariant issues == IssueMap(docs, k)
      invariant forall id :: id in records <==> RecordsFor(docs, k, id) != []
      invariant forall id :: id in records ==> records[id] == RecordsFor(docs, k, id)
    {
      var d := docs[k];
      if d.kind.Issue? {
        issues := issues[d.issueId := d];
      } else if d.kind.AcceptanceRecord? {
        records := records[d.issueId := (if d.issueId in records then records[d.issueId] else []) + [d]];
      }
    }
  }

  /** The loop over the issues, by identifier. */
  method ValidateIssues(docs: seq<Document>, records: map<string, seq<Document>>, issues: map<string, Document>,
                        states: map<string, Option<RecordState>>, g: Gate, errors: ErrorList)
    requires issues == IssueMap(docs, |docs|)
    requires forall id :: id in records <==> RecordsFor(docs, |docs|, id) != []
    requires forall id :: id in records ==> EntryOf(docs, id, g).0 == if id in states then states[id] else None
    modifies errors
    ensures var ids := SortedIds(docs, Issue);
      errors.items == old(errors.items) + IssuesProblems(docs, ids, |ids|, g)
  {
    hide SortedIds, IssueMap, RecordsFor, EntryOf, IssueProblems;
    var ids := SortedIds(docs, Issue);
    for k := 0 to |ids|
      invariant errors.items == old(errors.items) + IssuesProblems(docs, ids, k, g)
    {
      IdsMembers(docs, ids[k]);
      ValidateIssue(docs, ids[k], records, issues, states, g, errors);
    }
  }

  /** One turn of the loop over the issues. */
  method ValidateIssue(docs: seq<Document>, id: string, records: map<string, seq<Document>>, issues: map<string, Document>,
                       states: map<string, Option<RecordState>>, g: Gate, errors: ErrorList)
    requires issues == IssueMap(docs, |docs|) && id in issues
    requires id in records <==> RecordsFor(docs, |docs|, id) != []
    requires id in records ==> EntryOf(docs, id, g).0 == if id in states then states[id] else None
    modifies errors
    ensures errors.items == old(errors.items) + IssueProblems(docs, id, g)
  {
    hide RecordFaults, DoneFaults, IssueCriteria, At, IssueMap, RecordsFor, EntryOf;
    var issue := issues[id];
    if issue.status == "done" {
      if id in records {
        if id in states && states[id].Some? {
          var faults := AcceptanceDoneErrors(states[id].value);
          errors.Extend(issue.path, faults);
        }
      } else if id !in g.grandfathered {
        var criteria := FindIssueCriteria(issue, g.titles, errors);
        errors.Append(issue.path, RecordRequired);
      }
    }
  }

  /** The loop over the records, by identifier. */
  method ValidateRecords(docs: seq<Document>, records: map<string, seq<Document>>, issues: map<string, Document>, g: Gate, errors: ErrorList)
    returns (states: map<string, Option<RecordState>>)
    requires issues == IssueMap(docs, |docs|)
    requires forall id :: id in records <==> RecordsFor(docs, |docs|, id) != []
    requires forall id :: id in records ==> records[id] == RecordsFor(docs, |docs|, id)
    modifies errors
    ensures var ids := SortedIds(docs, AcceptanceRecord);
      errors.items == old(errors.items) + EntriesProblems(docs, ids, |ids|, g)
    ensures forall id :: id in records ==> EntryOf(docs, id, g).0 == if id in states then states[id] else None
  {
    hide SortedIds, IssueMap, RecordsFor, EntryOf;
    states := map[];
    var ids := SortedIds(docs, AcceptanceRecord);
    for k := 0 to |ids|
      invariant errors.items == old(errors.items) + EntriesProblems(docs, ids, k, g)
      invariant forall i :: 0 <= i < k ==> EntryOf(docs, ids[i], g).0 == if ids[i] in states then states[ids[i]] else None
      invariant forall id :: id in states ==> states[id] == EntryOf(docs, id, g).0
    {
      var id := ids[k];
      IdsMembers(docs, id);
      var state := ValidateEntry(docs, id, records[id], issues, g, errors);
      if state.Some? {
        states := states[id := state.value];
      }
    }
    forall id | id in records ensures EntryOf(docs, id, g).0 == if id in states then states[id] else None {
      IdsMembers(docs, id);
      var i :| 0 <= i < |ids| && ids[i] == id;
    }
  }

  /** One turn of the loop over the records; there is a state only when the record was validated. */
  method ValidateEntry(docs: seq<Document>, id: string, matches: seq<Document>, issues: map<string, Document>, g: Gate, errors: ErrorList)
    returns (state: Option<Option<RecordState>>)
    requires issues == IssueMap(docs, |docs|) && matches == RecordsFor(docs, |docs|, id) && matches != []
    modifies errors
    ensures EntryOf(docs, id, g).0 == if state.Some? then state.value else None
    ensures errors.items == old(errors.items) + EntryOf(docs, id, g).1
  {
    hide RecordFaults, At, IssueMap, RecordsFor;
    if |matches| > 1 {
      errors.Append(RECORD_DIR, SeveralRecords);
      return None;
    }
    if id !in issues {
      errors.Append(matches[0].path, UnknownIssue);
      return None;
    }
    var validated := ValidateAcceptanceRecord(matches[0], issues[id], g.world, g.titles, errors);
    return Some(validated);
  }

  lemma {:induction false} IssueMapHas(docs: seq<Document>, to: nat, id: string)
    requires to <= |docs|
    ensures id in IssueMap(docs, to) <==> id in Ids(docs, to, Issue)
    ensures id in IssueMap(docs, to) ==> IssueMap(docs, to)[id].issueId == id && IssueMap(docs, to)[id].kind.Issue?
  {
    if to > 0 { IssueMapHas(docs, to - 1, id); }
  }

  lemma {:induction false} RecordsHas(docs: seq<Document>, to: nat, id: string)
    requires to <= |docs|
    ensures RecordsFor(docs, to, id) != [] <==> id in Ids(docs, to, AcceptanceRecord)
    ensures forall d :: d in RecordsFor(docs, to, id) ==> d in docs && d.kind.AcceptanceRecord? && d.issueId == id
  {
    if to > 0 { RecordsHas(docs, to - 1, id); }
  }

  lemma IdsMembers(docs: seq<Document>, id: string)
    ensures id in SortedIds(docs, Issue) <==> id in IssueMap(docs, |docs|)
    ensures id in SortedIds(docs, AcceptanceRecord) <==> RecordsFor(docs, |docs|, id) != []
  {
    hide Ids;
    SortMembers(Ids(docs, |docs|, Issue), TextLess);
    SortMembers(Ids(docs, |docs|, AcceptanceRecord), TextLess);
    IssueMapHas(docs, |docs|, id);
    RecordsHas(docs, |docs|, id);
  }
}
