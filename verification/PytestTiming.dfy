/** The pytest plugin that times files: hooks charge collected items and phase reports to the
    selected files, and the shard report is read off at the end. */
module PytestTiming {
  import opened Outcomes
  import opened Bytes
  import opened Sums
  import opened TimingJson

  type File = bytes

  const MAX_DURATION_NS: nat := 9223372036854775807
  const MAX_SHARD_TIMING_BYTES: nat := 1_048_576

  datatype Phases = Phases(setup: nat, call: nat, teardown: nat) {
    function At(p: Phase): nat {
      match p case Setup => setup case Call => call case Teardown => teardown
    }

    function Plus(p: Phase, n: nat): (r: Phases)
      ensures r.At(p) == At(p) + n && forall q :: q != p ==> r.At(q) == At(q)
      ensures r.Total() == Total() + n
    {
      match p
      case Setup => this.(setup := setup + n)
      case Call => this.(call := call + n)
      case Teardown => this.(teardown := teardown + n)
    }

    function Total(): nat {
      setup + call + teardown
    }
  }

  const NONE := Phases(0, 0, 0)

  datatype FileTiming = FileTiming(collected: nat, durations: Phases, counts: Phases)

  const UNTIMED := FileTiming(0, NONE, NONE)

  /** A collected test: its file, when the path normalizes inside the root, and its node name. */
  datatype Item = Item(file: Option<File>, node: Option<string>)

  /** What the hooks are told.  A duration is none unless it is a finite number, not negative. */
  datatype Event =
    | Collection(items: seq<Item>)
    | Report(phase: Option<Phase>, node: Option<string>, duration: Option<nat>)

  datatype Trouble =
    | UnexpectedFile | InvalidNode | UnexpectedPhase | InvalidReportNode | UnexpectedNode | InvalidDuration | DurationOverflow

  // ---- what the events say ----

  function FilesOf(items: seq<Item>): (r: seq<File>)
    ensures |r| <= |items|
  {
    if items == [] then []
    else
      var n := |items| - 1;
      FilesOf(items[..n]) + (if items[n].file.Some? then [items[n].file.value] else [])
  }

  /** The files of all collected items. */
  function Collected(events: seq<Event>): seq<File> {
    if events == [] then []
    else
      var n := |events| - 1;
      Collected(events[..n]) + (if events[n].Collection? then FilesOf(events[n].items) else [])
  }

  function ItemCount(events: seq<Event>): nat {
    if events == [] then 0
    else
      var n := |events| - 1;
      ItemCount(events[..n]) + (if events[n].Collection? then |events[n].items| else 0)
  }

  function ReportCount(events: seq<Event>): nat {
    if events == [] then 0
    else
      var n := |events| - 1;
      ReportCount(events[..n]) + (if events[n].Report? then 1 else 0)
  }

  /** A report the plugin can charge, when nodes belong to these files. */
  predicate Chargeable(e: Event, owners: map<string, File>) {
    e.Report? && e.phase.Some? && e.node.Some? && e.node.value in owners && e.duration.Some?
  }

  /** The file and phase each report is charged to. */
  function Charges(events: seq<Event>, owners: map<string, File>): seq<(File, Phase)> {
    if events == [] then []
    else
      var n := |events| - 1;
      var e := events[n];
      Charges(events[..n], owners) + (if Chargeable(e, owners) then [(owners[e.node.value], e.phase.value)] else [])
  }

  /** The time reported for a file in a phase. */
  function TimeOf(events: seq<Event>, owners: map<string, File>, f: File, p: Phase): nat {
    if events == [] then 0
    else
      var n := |events| - 1;
      var e := events[n];
      TimeOf(events[..n], owners, f, p)
      + (if Chargeable(e, owners) && owners[e.node.value] == f && e.phase.value == p then e.duration.value else 0)
  }

  /** Every report so far could be charged. */
  predicate AllCharged(events: seq<Event>, owners: map<string, File>) {
    forall k :: 0 <= k < |events| && events[k].Report? ==> Chargeable(events[k], owners)
  }

  predicate Extends(owners: map<string, File>, more: map<string, File>) {
    forall n :: n in owners ==> n in more && more[n] == owners[n]
  }

  /** Charges already made do not move when more nodes are collected. */
  lemma {:induction false} ChargesStay(events: seq<Event>, owners: map<string, File>, more: map<string, File>)
    requires AllCharged(events, owners) && Extends(owners, more)
    ensures AllCharged(events, more) && Charges(events, more) == Charges(events, owners)
    ensures forall f, p :: TimeOf(events, more, f, p) == TimeOf(events, owners, f, p)
  {
    if events != [] {
      var n := |events| - 1;
      assert forall k :: 0 <= k < n ==> events[..n][k] == events[k];
      ChargesStay(events[..n], owners, more);
    }
  }

  lemma {:induction false} ChargesCount(events: seq<Event>, owners: map<string, File>)
    requires AllCharged(events, owners)
    ensures |Charges(events, owners)| == ReportCount(events)
  {
    if events != [] {
      var n := |events| - 1;
      assert forall k :: 0 <= k < n ==> events[..n][k] == events[k];
      ChargesCount(events[..n], owners);
    }
  }

  /** The books: every selected file holds exactly the items, reports and time the events give it. */
  ghost predicate Balanced(files: map<File, FileTiming>, owners: map<string, File>, events: seq<Event>) {
    && AllCharged(events, owners)
    && |Collected(events)| == ItemCount(events)
    && (forall f :: f in Collected(events) ==> f in files)
    && (forall c :: c in Charges(events, owners) ==> c.0 in files)
    && forall f :: f in files ==>
         && files[f].collected == multiset(Collected(events))[f]
         && forall p :: files[f].counts.At(p) == multiset(Charges(events, owners))[(f, p)] && files[f].durations.At(p) == TimeOf(events, owners, f, p)
  }

  // ---- the plugin ----

  /** `_TimingState` after configuration with these files. */
  class TimingState {
    var files: map<File, FileTiming>
    var nodeFiles: map<string, File>
    var errors: set<Trouble>
    ghost var seen: seq<Event>

    ghost predicate Valid()
      reads this
    {
      && (forall n :: n in nodeFiles ==> nodeFiles[n] in files)
      && (forall f, p :: f in files ==> files[f].durations.At(p) <= MAX_DURATION_NS)
      && (errors == {} ==> Balanced(files, nodeFiles, seen))
    }

    constructor (selected: set<File>)
      ensures Valid() && files.Keys == selected && errors == {} && seen == []
    {
      files, nodeFiles, errors, seen := map f | f in selected :: UNTIMED, map[], {}, [];
    }

    /** `pytest_collection_finish` */
    method CollectionFinish(items: seq<Item>)
      requires Valid()
      modifies this
      ensures Valid() && seen == old(seen) + [Collection(items)] && files.Keys == old(files.Keys) && old(errors) <= errors
    {
      CollectNothing(files, nodeFiles, seen);
      ghost var before := seen;
      seen := before + [Collection(items[..0])];
      for k := 0 to |items|
        invariant Valid() && seen == before + [Collection(items[..k])] && files.Keys == old(files.Keys) && old(errors) <= errors
      {
        CollectOne(items[k], before, items[..k]);
        assert items[..k] + [items[k]] == items[..k + 1];
      }
      assert items[..|items|] == items;
    }

    /** One turn of the loop over collected items. */
    method CollectOne(item: Item, ghost before: seq<Event>, ghost items: seq<Item>)
      requires Valid() && seen == before + [Collection(items)]
      modifies this
      ensures Valid() && seen == before + [Collection(items + [item])] && files.Keys == old(files.Keys) && old(errors) <= errors
    {
      hide Balanced;
      seen := before + [Collection(items + [item])];
      if item.file.None? || item.file.value !in files {
        errors := errors + {UnexpectedFile};
        return;
      }
      if item.node.None? || item.node.value in nodeFiles {
        errors := errors + {InvalidNode};
        return;
      }
      var f := item.file.value;
      if errors == {} { BalancedItem(files, nodeFiles, before, items, item); }
      nodeFiles := nodeFiles[item.node.value := f];
      files := files[f := files[f].(collected := files[f].collected + 1)];
    }

    /** `pytest_runtest_logreport` */
    method LogReport(e: Event)
      requires Valid() && e.Report?
      modifies this
      ensures Valid() && seen == old(seen) + [e] && files.Keys == old(files.Keys) && old(errors) <= errors
    {
      hide Balanced;
      ghost var before := seen;
      seen := seen + [e];
      if e.phase.None? { errors := errors + {UnexpectedPhase}; return; }
      if e.node.None? { errors := errors + {InvalidReportNode}; return; }
      if e.node.value !in nodeFiles { errors := errors + {UnexpectedNode}; return; }
      var f, p := nodeFiles[e.node.value], e.phase.value;
      if e.duration.None? { errors := errors + {InvalidDuration}; return; }
      var current := files[f].durations.At(p);
      if e.duration.value > MAX_DURATION_NS - current { errors := errors + {DurationOverflow}; return; }
      if errors == {} { BalancedReport(files, nodeFiles, before, e); }
      files := files[f := Charged(files[f], p, e.duration.value)];
    }

    /** Any sequence of hook calls. */
    method Hooks(events: seq<Event>)
      requires Valid() && seen == []
      modifies this
      ensures Valid() && seen == events && files.Keys == old(files.Keys) && old(errors) <= errors
    {
      for k := 0 to |events|
        invariant Valid() && seen == events[..k] && files.Keys == old(files.Keys) && old(errors) <= errors
      {
        if events[k].Collection? {
          CollectionFinish(events[k].items);
          assert events[k] == Collection(events[k].items);
        } else {
          LogReport(events[k]);
        }
        assert events[..k + 1] == events[..k] + [events[k]];
      }
      assert events[..|events|] == events;
    }

    /** `_report_payload` */
    method ReportPayload(exitStatus: int, runId: bytes, shard: nat, codec: Codec) returns (r: Result<bytes>)
      requires Valid()
      ensures var payload := Payload(ReportOf(files, errors, exitStatus, runId, shard), codec);
        r == if |payload| > MAX_SHARD_TIMING_BYTES then Err("report exceeded its byte bound") else Ok(payload)
    {
      var paths := SortedKeys(files);
      var entries: seq<FileEntry> := [];
      var phaseReports, items := 0, 0;
      for k := 0 to |paths|
        invariant entries == Entries(files, paths[..k])
        invariant phaseReports == SumReports(entries) && items == SumItems(entries)
      {
        var timing := files[paths[k]];
        var entry := FileEntry(paths[k], timing.collected, timing.durations, timing.counts, timing.durations.Total());
        phaseReports := phaseReports + timing.counts.Total();
        items := items + timing.collected;
        SumsExtend(entries, entry);
        entries := entries + [entry];
        assert paths[..k + 1] == paths[..k] + [paths[k]];
      }
      assert paths[..|paths|] == paths;
      var report := ShardReport(items, errors, exitStatus, entries, phaseReports, runId, shard);
      var encoded := codec.dumps(ReportTree(report)) + [NEWLINE];
      if |encoded| > MAX_SHARD_TIMING_BYTES {
        return Err("report exceeded its byte bound");
      }
      return Ok(encoded);
    }

    /** A whole pytest session, whatever the hooks are called with: when the report claims no error,
        its totals are the numbers of collected items and of phase reports, each file has exactly its
        own, and no report was lost. */
    method Session(events: seq<Event>, exitStatus: int, runId: bytes, shard: nat, codec: Codec) returns (r: Result<bytes>)
      requires Valid() && seen == [] && errors == {}
      modifies this
      ensures files.Keys == old(files.Keys)
      ensures r.Ok? ==> r.value == Payload(ReportOf(files, errors, exitStatus, runId, shard), codec)
      ensures errors == {} ==>
        var report := ReportOf(files, errors, exitStatus, runId, shard);
        && report.collectedItems == ItemCount(events) && report.phaseReports == ReportCount(events)
        && Balanced(files, nodeFiles, events)
    {
      hide Balanced, ReportOf, Payload;
      Hooks(events);
      r := ReportPayload(exitStatus, runId, shard, codec);
      if errors == {} { Conserved(files, nodeFiles, events, exitStatus, runId, shard); }
    }
  }

  function Charged(t: FileTiming, p: Phase, n: nat): FileTiming {
    t.(durations := t.durations.Plus(p, n), counts := t.counts.Plus(p, 1))
  }

  lemma CollectNothing(files: map<File, FileTiming>, owners: map<string, File>, events: seq<Event>)
    ensures Balanced(files, owners, events) ==> Balanced(files, owners, events + [Collection([])])
  {
    var more := events + [Collection([])];
    assert more[..|events|] == events;
    assert Collected(more) == Collected(events) + [];
    assert Charges(more, owners) == Charges(events, owners) + [];
  }

  lemma BalancedItem(files: map<File, FileTiming>, owners: map<string, File>, before: seq<Event>, items: seq<Item>, item: Item)
    requires Balanced(files, owners, before + [Collection(items)])
    requires item.file.Some? && item.file.value in files && item.node.Some? && item.node.value !in owners
    ensures var f := item.file.value;
      Balanced(files[f := files[f].(collected := files[f].collected + 1)], owners[item.node.value := f], before + [Collection(items + [item])])
  {
    hide Collected, Charges, TimeOf, ItemCount, AllCharged;
    var f := item.file.value;
    var was, now := before + [Collection(items)], before + [Collection(items + [item])];
    var more := owners[item.node.value := f];
    OneItem(before, items, item);
    ChargesStay(was, owners, more);
    assert was[..|before|] == before && now[..|before|] == before;
    SameCharges(was, now, before, more);
    var updated := files[f := files[f].(collected := files[f].collected + 1)];
    forall g, q | g in updated
      ensures updated[g].counts.At(q) == multiset(Charges(now, more))[(g, q)] && updated[g].durations.At(q) == TimeOf(now, more, g, q)
    {
      assert files[g].counts.At(q) == multiset(Charges(was, owners))[(g, q)] && files[g].durations.At(q) == TimeOf(was, owners, g, q);
    }
  }

  lemma OneItem(before: seq<Event>, items: seq<Item>, item: Item)
    requires item.file.Some?
    ensures var was, now := before + [Collection(items)], before + [Collection(items + [item])];
      Collected(now) == Collected(was) + [item.file.value] && ItemCount(now) == ItemCount(was) + 1
  {
    var was, now := before + [Collection(items)], before + [Collection(items + [item])];
    assert was[..|before|] == before && now[..|before|] == before;
    assert (items + [item])[..|items|] == items;
    assert Collected(now) == Collected(was) + [item.file.value];
  }

  lemma SameCharges(a: seq<Event>, b: seq<Event>, before: seq<Event>, owners: map<string, File>)
    requires |a| == |before| + 1 == |b| && a[..|before|] == before && b[..|before|] == before
    requires a[|before|].Collection? && b[|before|].Collection? && AllCharged(a, owners)
    ensures AllCharged(b, owners) && Charges(b, owners) == Charges(a, owners)
    ensures forall f, p :: TimeOf(b, owners, f, p) == TimeOf(a, owners, f, p)
  {
    forall k | 0 <= k < |b| && b[k].Report? ensures Chargeable(b[k], owners) {
      assert b[k] == b[..|before|][k] == a[..|before|][k] == a[k];
    }
  }

  lemma BalancedReport(files: map<File, FileTiming>, owners: map<string, File>, events: seq<Event>, e: Event)
    requires Balanced(files, owners, events) && Chargeable(e, owners) && owners[e.node.value] in files
    ensures var f := owners[e.node.value];
      Balanced(files[f := Charged(files[f], e.phase.value, e.duration.value)], owners, events + [e])
  {
    hide Collected, Charges, TimeOf, ItemCount;
    var f, p, more := owners[e.node.value], e.phase.value, events + [e];
    OneReport(events, owners, e);
    forall k | 0 <= k < |more| && more[k].Report? ensures Chargeable(more[k], owners) {
      if k < |events| { assert more[k] == events[k]; }
    }
    var now := files[f := Charged(files[f], p, e.duration.value)];
    forall g, q | g in now
      ensures now[g].counts.At(q) == multiset(Charges(more, owners))[(g, q)] && now[g].durations.At(q) == TimeOf(more, owners, g, q)
    {
      assert files[g].counts.At(q) == multiset(Charges(events, owners))[(g, q)] && files[g].durations.At(q) == TimeOf(events, owners, g, q);
    }
  }

  lemma OneReport(events: seq<Event>, owners: map<string, File>, e: Event)
    requires Chargeable(e, owners)
    ensures var more := events + [e];
      && Charges(more, owners) == Charges(events, owners) + [(owners[e.node.value], e.phase.value)]
      && Collected(more) == Collected(events) && ItemCount(more) == ItemCount(events)
      && forall g, q :: TimeOf(more, owners, g, q)
           == TimeOf(events, owners, g, q) + if g == owners[e.node.value] && q == e.phase.value then e.duration.value else 0
  {
    var more := events + [e];
    assert more[..|events|] == events;
    assert Collected(more) == Collected(events) + [];
  }

  // ---- the report ----

  datatype FileEntry = FileEntry(path: File, collected: nat, durations: Phases, counts: Phases, total: nat)

  datatype ShardReport = ShardReport(collectedItems: nat, errors: set<Trouble>, exitStatus: int, files: seq<FileEntry>,
                                     phaseReports: nat, runId: bytes, shard: nat)

  function EntryOf(files: map<File, FileTiming>, f: File): FileEntry
    requires f in files
  {
    var t := files[f];
    FileEntry(f, t.collected, t.durations, t.counts, t.durations.Total())
  }

  function Entries(files: map<File, FileTiming>, paths: seq<File>): (r: seq<FileEntry>)
    requires forall k :: 0 <= k < |paths| ==> paths[k] in files
    ensures |r| == |paths| && forall k :: 0 <= k < |r| ==> r[k] == EntryOf(files, paths[k])
  {
    seq(|paths|, k requires 0 <= k < |paths| => EntryOf(files, paths[k]))
  }

  function ItemsIn(e: FileEntry): nat {
    e.collected
  }

  function ReportsIn(e: FileEntry): nat {
    e.counts.Total()
  }

  function SumItems(entries: seq<FileEntry>): nat {
    SumOf(entries, ItemsIn)
  }

  function SumReports(entries: seq<FileEntry>): nat {
    SumOf(entries, ReportsIn)
  }

  lemma SumsExtend(entries: seq<FileEntry>, e: FileEntry)
    ensures SumItems(entries + [e]) == SumItems(entries) + e.collected
    ensures SumReports(entries + [e]) == SumReports(entries) + e.counts.Total()
  {
    SumExtend(entries, e, ItemsIn);
    SumExtend(entries, e, ReportsIn);
  }

  /** The elements of a finite set of files, in order. */
  function SortedFiles(s: set<File>): (r: seq<File>)
    ensures (forall f :: f in r <==> f in s) && Unrepeated(r)
    ensures forall i, j :: 0 <= i < j < |r| ==> LexLess(r[i], r[j])
    decreases |s|
  {
    hide LexLess;
    if s == {} then []
    else
      HasLeast(s);
      LeastIsUnique(s);
      var least :| IsLeast(s, least);
      [least] + SortedFiles(s - {least})
  }

  predicate IsLeast(s: set<File>, x: File) {
    x in s && forall f :: f in s && f != x ==> LexLess(x, f)
  }

  predicate Unrepeated(s: seq<File>) {
    forall i, j :: 0 <= i < j < |s| ==> s[i] != s[j]
  }

  lemma LeastIsUnique(s: set<File>)
    ensures forall x, y :: IsLeast(s, x) && IsLeast(s, y) ==> x == y
  {
    hide LexLess;
    forall x, y | IsLeast(s, x) && IsLeast(s, y) ensures x == y { LexTrichotomy(x, y); }
  }

  lemma LeastOfMore(rest: set<File>, x: File, y: File)
    requires IsLeast(rest, y) && x !in rest
    ensures IsLeast(rest + {x}, if LexLess(x, y) then x else y)
  {
    hide LexLess;
    LexTrichotomy(x, y);
    if LexLess(x, y) {
      forall f | f in rest ensures LexLess(x, f) {
        if f != y { LexTransitive(x, y, f); }
      }
    }
  }

  lemma {:induction false} HasLeast(s: set<File>)
    requires s != {}
    ensures exists x :: IsLeast(s, x)
    decreases |s|
  {
    hide LexLess;
    var x :| x in s;
    var rest := s - {x};
    assert s == rest + {x};
    if rest == {} {
      assert IsLeast(s, x);
    } else {
      HasLeast(rest);
      var y :| IsLeast(rest, y);
      LeastOfMore(rest, x, y);
    }
  }

  function SortedKeys(files: map<File, FileTiming>): seq<File> {
    SortedFiles(files.Keys)
  }

  /** What `_report_payload` writes. */
  function ReportOf(files: map<File, FileTiming>, errors: set<Trouble>, exitStatus: int, runId: bytes, shard: nat): ShardReport {
    var entries := Entries(files, SortedKeys(files));
    ShardReport(SumItems(entries), errors, exitStatus, entries, SumReports(entries), runId, shard)
  }

  // ---- the report as JSON ----

  const SHARD_TIMING_SCHEMA := Letters("agency.pytest-file-timings.shard.v1")

  function Label(t: Trouble): bytes {
    match t
    case DurationOverflow => Letters("duration-overflow")
    case InvalidNode => Letters("invalid-collected-nodeid")
    case InvalidDuration => Letters("invalid-report-duration")
    case InvalidReportNode => Letters("invalid-report-nodeid")
    case UnexpectedFile => Letters("unexpected-collected-file")
    case UnexpectedNode => Letters("unexpected-report-nodeid")
    case UnexpectedPhase => Letters("unexpected-report-phase")
  }

  /** The troubles in the order of their labels. */
  const TROUBLES := [DurationOverflow, InvalidNode, InvalidDuration, InvalidReportNode, UnexpectedFile, UnexpectedNode, UnexpectedPhase]

  function ErrorTexts(errors: set<Trouble>, to: nat): (r: seq<Json>)
    requires to <= |TROUBLES|
    ensures errors == {} ==> r == []
  {
    if to == 0 then []
    else ErrorTexts(errors, to - 1) + (if TROUBLES[to - 1] in errors then [Str(Label(TROUBLES[to - 1]))] else [])
  }

  ghost predicate Ascending(texts: seq<Json>) {
    forall a, b :: 0 <= a < b < |texts| ==> texts[a].Str? && texts[b].Str? && LexLess(texts[a].text, texts[b].text)
  }

  ghost predicate LabelsOf(texts: seq<Json>, errors: set<Trouble>, to: nat)
    requires to <= |TROUBLES|
  {
    && (forall j :: j in texts ==> exists i :: 0 <= i < to && TROUBLES[i] in errors && j == Str(Label(TROUBLES[i])))
    && forall i :: 0 <= i < to && TROUBLES[i] in errors ==> Str(Label(TROUBLES[i])) in texts
  }

  /** The errors of a report are the labels of its troubles, each once, in their order. */
  lemma {:induction false} ErrorTextsAre(errors: set<Trouble>, to: nat)
    requires to <= |TROUBLES|
    ensures LabelsOf(ErrorTexts(errors, to), errors, to) && Ascending(ErrorTexts(errors, to))
  {
    hide Label, LexLess, TROUBLES;
    if to > 0 {
      var before, last := ErrorTexts(errors, to - 1), Str(Label(TROUBLES[to - 1]));
      ErrorTextsAre(errors, to - 1);
      forall k | 0 <= k < |before| ensures before[k].Str? && LexLess(before[k].text, last.text) {
        assert before[k] in before;
        var i :| 0 <= i < to - 1 && TROUBLES[i] in errors && before[k] == Str(Label(TROUBLES[i]));
        LabelsInOrder(i, to - 1);
      }
      assert last in before + [last];
    }
  }

  lemma Differs(a: bytes, b: bytes, k: nat)
    requires k < |a| && k < |b| && a[..k] == b[..k] && a[k] < b[k]
    ensures LexLess(a, b)
  {
    hide LexLess;
    LexIsPrecedes(a, b);
  }

  lemma NextLabel(i: nat)
    requires i < 6
    ensures LexLess(Label(TROUBLES[i]), Label(TROUBLES[i + 1]))
  {
    hide LexLess;
    var a, b := Label(TROUBLES[i]), Label(TROUBLES[i + 1]);
    var k := if i == 1 then 8 else if i == 2 then 15 else if i == 4 then 11 else if i == 5 then 18 else 0;
    assert a[..k] == b[..k];
    Differs(a, b, k);
  }

  lemma {:induction false} LabelsInOrder(i: nat, j: nat)
    requires i < j < |TROUBLES|
    ensures LexLess(Label(TROUBLES[i]), Label(TROUBLES[j]))
    decreases j - i
  {
    hide Label, LexLess;
    NextLabel(i);
    if i + 1 < j {
      LabelsInOrder(i + 1, j);
      LexTransitive(Label(TROUBLES[i]), Label(TROUBLES[i + 1]), Label(TROUBLES[j]));
    }
  }

  lemma EveryTrouble(t: Trouble)
    ensures exists i :: 0 <= i < |TROUBLES| && TROUBLES[i] == t
  {
    assert TROUBLES[0] == DurationOverflow && TROUBLES[1] == InvalidNode && TROUBLES[2] == InvalidDuration && TROUBLES[3] == InvalidReportNode;
    assert TROUBLES[4] == UnexpectedFile && TROUBLES[5] == UnexpectedNode && TROUBLES[6] == UnexpectedPhase;
  }

  /** A report lists the labels of all its troubles, and nothing else, in order. */
  lemma ErrorsListed(errors: set<Trouble>)
    ensures var texts := ErrorTexts(errors, |TROUBLES|);
      && (forall t :: t in errors ==> Str(Label(t)) in texts) && Ascending(texts)
      && forall j :: j in texts ==> exists t :: t in errors && j == Str(Label(t))
  {
    hide Label, TROUBLES, ErrorTexts, Ascending;
    ErrorTextsAre(errors, |TROUBLES|);
    forall t | t in errors ensures Str(Label(t)) in ErrorTexts(errors, |TROUBLES|) {
      EveryTrouble(t);
      var i :| 0 <= i < |TROUBLES| && TROUBLES[i] == t;
      assert Str(Label(TROUBLES[i])) in ErrorTexts(errors, |TROUBLES|);
    }
  }

  function PhasesTree(p: Phases): Json {
    Object([Member(PhaseKey(Call), Number(p.call)), Member(PhaseKey(Setup), Number(p.setup)), Member(PhaseKey(Teardown), Number(p.teardown))])
  }

  function EntryTree(e: FileEntry): Json {
    Object([Member(CollectedItems, Number(e.collected)), Member(DurationNs, PhasesTree(e.durations)), Member(Path, Str(e.path)),
            Member(ReportCounts, PhasesTree(e.counts)), Member(TotalNs, Number(e.total))])
  }

  function EntryTrees(entries: seq<FileEntry>): (r: seq<Json>)
    ensures |r| == |entries| && forall i :: 0 <= i < |r| ==> r[i] == EntryTree(entries[i])
  {
    seq(|entries|, i requires 0 <= i < |entries| => EntryTree(entries[i]))
  }

  function ReportTree(r: ShardReport): Json {
    Object([Member(CollectedItemCount, Number(r.collectedItems)), Member(Errors, Array(ErrorTexts(r.errors, |TROUBLES|))),
            Member(ExitStatus, Number(r.exitStatus)), Member(Files, Array(EntryTrees(r.files))),
            Member(PhaseReportCount, Number(r.phaseReports)), Member(RunId, Str(r.runId)),
            Member(Schema, Str(SHARD_TIMING_SCHEMA)), Member(Shard, Number(r.shard))])
  }

  /** The bytes of a report: its JSON and a line break. */
  function Payload(r: ShardReport, codec: Codec): bytes {
    codec.dumps(ReportTree(r)) + [NEWLINE]
  }

  // ---- conservation ----

  function CountIn(s: seq<File>, paths: seq<File>): nat {
    if paths == [] then 0 else CountIn(s, paths[..|paths| - 1]) + multiset(s)[paths[|paths| - 1]]
  }

  lemma {:induction false} CountNothing(paths: seq<File>)
    ensures CountIn([], paths) == 0
  {
    if paths != [] { CountNothing(paths[..|paths| - 1]); }
  }

  lemma {:induction false} CountOneMore(s: seq<File>, f: File, paths: seq<File>)
    requires Unrepeated(paths)
    ensures CountIn(s + [f], paths) == CountIn(s, paths) + if f in paths then 1 else 0
  {
    if paths != [] {
      var n := |paths| - 1;
      CountOneMore(s, f, paths[..n]);
      assert paths == paths[..n] + [paths[n]];
      assert f == paths[n] ==> f !in paths[..n];
    }
  }

  /** Counting a list file by file, over files that cover it, gives its length. */
  lemma {:induction false} CountAll(s: seq<File>, paths: seq<File>)
    requires Unrepeated(paths) && forall f :: f in s ==> f in paths
    ensures CountIn(s, paths) == |s|
  {
    if s == [] {
      CountNothing(paths);
    } else {
      var n := |s| - 1;
      assert s == s[..n] + [s[n]];
      CountAll(s[..n], paths);
      CountOneMore(s[..n], s[n], paths);
    }
  }

  function Firsts(charges: seq<(File, Phase)>): (r: seq<File>)
    ensures |r| == |charges|
  {
    if charges == [] then [] else Firsts(charges[..|charges| - 1]) + [charges[|charges| - 1].0]
  }

  lemma {:induction false} PhasesOf(charges: seq<(File, Phase)>, f: File)
    ensures var m := multiset(charges); multiset(Firsts(charges))[f] == m[(f, Setup)] + m[(f, Call)] + m[(f, Teardown)]
    ensures f in Firsts(charges) ==> exists p :: (f, p) in charges
  {
    if charges != [] {
      var n := |charges| - 1;
      assert charges == charges[..n] + [charges[n]];
      PhasesOf(charges[..n], f);
      var c := charges[n];
      assert multiset(charges) == multiset(charges[..n]) + multiset{c};
      assert multiset(Firsts(charges)) == multiset(Firsts(charges[..n])) + multiset{c.0};
      assert c in charges && c == (c.0, c.1);
      match c.1 { case Setup => case Call => case Teardown => }
    }
  }

  lemma {:induction false} EntriesSum(files: map<File, FileTiming>, paths: seq<File>, items: seq<File>, charged: seq<File>)
    requires forall f :: f in paths ==> f in files && files[f].collected == multiset(items)[f] && files[f].counts.Total() == multiset(charged)[f]
    ensures SumItems(Entries(files, paths)) == CountIn(items, paths) && SumReports(Entries(files, paths)) == CountIn(charged, paths)
  {
    if paths != [] {
      var n := |paths| - 1;
      assert forall f :: f in paths[..n] ==> f in paths;
      EntriesSum(files, paths[..n], items, charged);
      SumsExtend(Entries(files, paths[..n]), EntryOf(files, paths[n]));
      assert Entries(files, paths) == Entries(files, paths[..n]) + [EntryOf(files, paths[n])];
    }
  }

  /** The counts of each file, as the two lists of charges have them. */
  lemma FilesCounted(files: map<File, FileTiming>, owners: map<string, File>, events: seq<Event>, f: File)
    requires Balanced(files, owners, events) && f in files
    ensures files[f].collected == multiset(Collected(events))[f]
    ensures files[f].counts.Total() == multiset(Firsts(Charges(events, owners)))[f]
  {
    hide Collected, Charges, TimeOf, ItemCount, AllCharged, Firsts;
    var charges, t := Charges(events, owners), files[f];
    PhasesOf(charges, f);
    assert t.counts.At(Setup) == multiset(charges)[(f, Setup)] && t.counts.At(Call) == multiset(charges)[(f, Call)]
        && t.counts.At(Teardown) == multiset(charges)[(f, Teardown)];
  }

  lemma ChargedFiles(files: map<File, FileTiming>, owners: map<string, File>, events: seq<Event>, f: File)
    requires Balanced(files, owners, events) && f in Firsts(Charges(events, owners))
    ensures f in files
  {
    hide Collected, Charges, TimeOf, ItemCount, AllCharged, Firsts;
    var charges := Charges(events, owners);
    PhasesOf(charges, f);
    var p :| (f, p) in charges;
    assert (f, p).0 in files;
  }

  lemma BalancedCounts(files: map<File, FileTiming>, owners: map<string, File>, events: seq<Event>)
    requires Balanced(files, owners, events)
    ensures AllCharged(events, owners) && |Collected(events)| == ItemCount(events)
    ensures forall f :: f in Collected(events) ==> f in files
  {
    hide Collected, Charges, TimeOf, ItemCount, AllCharged;
  }

  /** An error-free report counts every collected item and every phase report once, and gives each
      file exactly its own. */
  lemma Conserved(files: map<File, FileTiming>, owners: map<string, File>, events: seq<Event>, exitStatus: int, runId: bytes, shard: nat)
    requires Balanced(files, owners, events)
    ensures var r := ReportOf(files, {}, exitStatus, runId, shard);
      r.collectedItems == ItemCount(events) && r.phaseReports == ReportCount(events)
  {
    hide Balanced, Collected, Charges, ItemCount, ReportCount, AllCharged, Firsts, SumItems, SumReports, CountIn, SortedFiles, Entries;
    var paths, charged := SortedKeys(files), Firsts(Charges(events, owners));
    BalancedCounts(files, owners, events);
    forall f | f in paths
      ensures f in files && files[f].collected == multiset(Collected(events))[f] && files[f].counts.Total() == multiset(charged)[f]
    {
      FilesCounted(files, owners, events, f);
    }
    EntriesSum(files, paths, Collected(events), charged);
    CountAll(Collected(events), paths);
    forall f | f in charged ensures f in paths { ChargedFiles(files, owners, events, f); }
    CountAll(charged, paths);
    ChargesCount(events, owners);
  }
}
