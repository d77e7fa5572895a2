/** The timing artifact of a whole run: made only when every shard succeeded, over every planned
    file exactly once, and within its size limit. */
module TimingArtifact {
  import opened Outcomes
  import opened Bytes
  import opened Sorting
  import opened Sums
  import opened TimingJson
  import opened PytestTiming
  import opened TimingReports

  datatype ShardResult = ShardResult(index: nat, returnCode: int, timedOut: bool, cancelled: bool,
                                     failureCategory: Option<string>, report: Option<LoadedReport>)

  const MAX_RUN_TIMING_BYTES: nat := 4_194_304
  const RUN_TIMING_SCHEMA := Letters("agency.pytest-file-timings.run.v2")

  /** `partition` is what `_partition_evidence` makes of the plan. */
  datatype TestPlan = TestPlan(wantsArtifact: bool, serialFiles: seq<File>, shardCount: nat, measurementContext: Json, partition: Json)

  datatype ArtifactFile = ArtifactFile(entry: FileEntry, shard: nat)

  datatype ShardLine = ShardLine(collectedItems: nat, exitStatus: int, index: nat, phaseReports: nat)

  datatype Artifact = Artifact(collectedItems: nat, files: seq<ArtifactFile>, measurementContext: Json, partition: Json,
                               phaseReports: nat, runId: bytes, shardCount: nat, shards: seq<ShardLine>, testFileCount: nat)

  /** `_shard_succeeded` */
  predicate ShardSucceeded(r: ShardResult) {
    r.returnCode == 0 && !r.timedOut && !r.cancelled && r.failureCategory.None?
  }

  predicate ByIndex(a: ShardResult, b: ShardResult) {
    a.index < b.index
  }

  predicate ByFilePath(a: ArtifactFile, b: ArtifactFile) {
    LexLess(a.entry.path, b.entry.path)
  }

  function ItemsOf(f: ArtifactFile): nat {
    f.entry.collected
  }

  function ReportsOf(f: ArtifactFile): nat {
    f.entry.counts.Total()
  }

  function ItemsInLine(l: ShardLine): nat {
    l.collectedItems
  }

  function ReportsInLine(l: ShardLine): nat {
    l.phaseReports
  }

  function Paths(files: seq<ArtifactFile>): set<File> {
    set f | f in files :: f.entry.path
  }

  predicate Apart(files: seq<ArtifactFile>) {
    forall i, j :: 0 <= i < j < |files| ==> files[i].entry.path != files[j].entry.path
  }

  /** A run whose artifact is to be written: asked for, complete and without a failed shard. */
  predicate Complete(plan: TestPlan, results: seq<ShardResult>) {
    && plan.wantsArtifact && |results| == plan.shardCount
    && forall i :: 0 <= i < |results| ==> ShardSucceeded(results[i]) && results[i].report.Some?
  }

  /** What the artifact says: every planned file exactly once, in path order, each with the figures
      of its shard, and totals that are the sums over the files. */
  ghost predicate Faithful(a: Artifact, plan: TestPlan, results: seq<ShardResult>) {
    && Sorted(a.files, ByFilePath) && Apart(a.files) && Paths(a.files) == (set f | f in plan.serialFiles)
    && a.collectedItems == SumOf(a.files, ItemsOf) == SumOf(a.shards, ItemsInLine)
    && a.phaseReports == SumOf(a.files, ReportsOf) == SumOf(a.shards, ReportsInLine)
    && (forall f :: f in a.files ==> FromResults(f, results))
    && a.measurementContext == plan.measurementContext && a.partition == plan.partition
    && a.shardCount == plan.shardCount == |a.shards| && a.testFileCount == |plan.serialFiles|
  }

  ghost predicate FromResults(f: ArtifactFile, results: seq<ShardResult>) {
    exists r :: r in results && r.report.Some? && r.index == f.shard && f.entry in r.report.value.files
  }

  ghost predicate ReportsConsistent(results: seq<ShardResult>) {
    forall r :: r in results && r.report.Some? ==> Consistent(r.report.value)
  }

  /** The growing lists of the loop, over the results so far. */
  ghost predicate Gathered(items: nat, reports: nat, files: seq<ArtifactFile>, results: seq<ShardResult>) {
    && Apart(files) && items == SumOf(files, ItemsOf) && reports == SumOf(files, ReportsOf)
    && forall f :: f in files ==> FromResults(f, results)
  }

  /** The files of the first reports, one after another. */
  function AllMarked(results: seq<ShardResult>, to: nat): seq<ArtifactFile>
    requires to <= |results|
  {
    if to == 0 then []
    else
      var r := results[to - 1];
      AllMarked(results, to - 1) + (if r.report.Some? then Marked(r.report.value.files, r.index) else [])
  }

  predicate Identified(r: ShardResult, runId: bytes) {
    r.report.Some? && r.report.value.runId == runId && r.report.value.shard == r.index
  }

  /** The reports are of this run and of their shards, do not overlap, and cover the plan. */
  predicate Coherent(plan: TestPlan, results: seq<ShardResult>, runId: bytes) {
    && (forall i :: 0 <= i < |results| ==> Identified(results[i], runId))
    && Apart(AllMarked(results, |results|)) && Paths(AllMarked(results, |results|)) == (set f | f in plan.serialFiles)
  }

  lemma {:induction false} AllMarkedGrows(results: seq<ShardResult>, k: nat, n: nat)
    requires k <= n <= |results|
    ensures AllMarked(results, k) <= AllMarked(results, n)
  {
    if k < n { AllMarkedGrows(results, k, n - 1); }
  }

  lemma PrefixApart(files: seq<ArtifactFile>, all: seq<ArtifactFile>)
    requires files <= all && !Apart(files)
    ensures !Apart(all)
  {
    var i, j :| 0 <= i < j < |files| && files[i].entry.path == files[j].entry.path;
    assert all[i] == files[i] && all[j] == files[j];
  }

  function ShardLines(results: seq<ShardResult>, to: nat): (r: seq<ShardLine>)
    requires to <= |results| && forall i :: 0 <= i < to ==> results[i].report.Some?
    ensures |r| == to
  {
    if to == 0 then []
    else
      var report := results[to - 1].report.value;
      ShardLines(results, to - 1) + [ShardLine(report.collectedItems, report.exitStatus, results[to - 1].index, report.phaseReports)]
  }

  predicate AllReported(results: seq<ShardResult>) {
    forall i :: 0 <= i < |results| ==> results[i].report.Some?
  }

  lemma SortedReported(results: seq<ShardResult>)
    requires AllReported(results)
    ensures AllReported(Sort(results, ByIndex))
  {
    hide Sort;
    SortMembers(results, ByIndex);
    var sorted := Sort(results, ByIndex);
    forall i | 0 <= i < |sorted| ensures sorted[i].report.Some? { assert sorted[i] in results; }
  }

  // results come in the order of their indexes, and stay in order where these are the same

  function WithIndex(results: seq<ShardResult>, n: nat): seq<ShardResult> {
    if results == [] then [] else (if results[0].index == n then [results[0]] else []) + WithIndex(results[1..], n)
  }

  ghost predicate IndexesAscend(results: seq<ShardResult>) {
    forall i, j :: 0 <= i < j < |results| ==> results[i].index <= results[j].index
  }

  lemma {:induction false} InsertedInOrder(r: ShardResult, results: seq<ShardResult>, n: nat)
    requires IndexesAscend(results)
    ensures var all := Insert(r, results, ByIndex);
      && IndexesAscend(all) && WithIndex(all, n) == (if r.index == n then [r] else []) + WithIndex(results, n)
      && forall x :: x in all <==> x == r || x in results
  {
    var all := Insert(r, results, ByIndex);
    if results == [] || !ByIndex(results[0], r) {
      assert all == [r] + results && all[1..] == results;
    } else {
      var rest := Insert(r, results[1..], ByIndex);
      InsertedInOrder(r, results[1..], n);
      assert all == [results[0]] + rest && all[1..] == rest;
      assert results == [results[0]] + results[1..];
      forall j | 1 <= j < |all| ensures results[0].index <= all[j].index { assert all[j] in rest; }
    }
  }

  /** The sorted results ascend, and keep the order of those with the same index. */
  lemma {:induction false} SortedInOrder(results: seq<ShardResult>, n: nat)
    ensures IndexesAscend(Sort(results, ByIndex)) && WithIndex(Sort(results, ByIndex), n) == WithIndex(results, n)
  {
    hide Insert;
    if results != [] {
      SortedInOrder(results[1..], n);
      InsertedInOrder(results[0], Sort(results[1..], ByIndex), n);
    }
  }

  /** The artifact of complete results: files in path order, shards in the order of their indexes. */
  function ArtifactOf(plan: TestPlan, results: seq<ShardResult>, runId: bytes): Artifact
    requires AllReported(results)
  {
    SortedReported(results);
    var sorted := Sort(results, ByIndex);
    var files := AllMarked(sorted, |sorted|);
    Artifact(SumOf(files, ItemsOf), Sort(files, ByFilePath), plan.measurementContext, plan.partition, SumOf(files, ReportsOf), runId,
             plan.shardCount, ShardLines(sorted, |sorted|), |plan.serialFiles|)
  }

  /** The loops of `_timing_artifact_payload`, before the result is encoded.  An error means that
      reports changed after they were loaded, that shards overlap, or that they differ from the plan. */
  method Consolidate(plan: TestPlan, results: seq<ShardResult>, runId: bytes) returns (r: Result<Artifact>)
    requires ReportsConsistent(results) && Complete(plan, results)
    ensures AllReported(results)
    ensures r.Ok? <==> Coherent(plan, Sort(results, ByIndex), runId)
    ensures r.Ok? ==> r.value == ArtifactOf(plan, results, runId) && Faithful(r.value, plan, results)
  {
    hide LexLess, Sort, Consistent, FromResults, Gathered, SumOf, Apart, Marked, Paths, Identified, ShardSucceeded, Faithful, AllMarked;
    SortKeeps(results, ByIndex);
    SortMembers(results, ByIndex);
    SortedReported(results);
    var sorted := Sort(results, ByIndex);
    var observed: set<File> := {};
    var files: seq<ArtifactFile> := [];
    var lines: seq<ShardLine> := [];
    var items: nat, reports: nat := 0, 0;
    GatheredNothing(results);
    NothingMarked(sorted);
    NoLines();
    for k := 0 to |sorted|
      invariant Gathered(items, reports, files, results) && Apart(files) && observed == Paths(files)
      invariant lines == ShardLines(sorted, k) && LinesAddUp(items, reports, lines)
      invariant files == AllMarked(sorted, k) && forall i :: 0 <= i < k ==> Identified(sorted[i], runId)
    {
      var result := sorted[k];
      assert result in results;
      var report := result.report.value;
      IdentifiedIs(result, runId);
      if report.runId != runId || report.shard != result.index {
        return Err("report identity changed before consolidation");
      }
      LinesExtend(items, reports, lines, ShardLine(report.collectedItems, report.exitStatus, result.index, report.phaseReports));
      lines := lines + [ShardLine(report.collectedItems, report.exitStatus, result.index, report.phaseReports)];
      var more := AddFiles(report, result, files, observed, results);
      MarkedNext(sorted, k);
      AllMarkedGrows(sorted, k + 1, |sorted|);
      if more.None? {
        PrefixApart(AllMarked(sorted, k + 1), AllMarked(sorted, |sorted|));
        return Err("paths overlap between shards");
      }
      ReportIsConsistent(results, result);
      GatherTotals(items, reports, files, result, results);
      items := items + report.collectedItems;
      reports := reports + report.phaseReports;
      files := more.value;
      observed := Paths(files);
    }
    if observed != set f | f in plan.serialFiles {
      return Err("union differs from the serial file plan");
    }
    GatheredTotals(items, reports, files, results);
    SortedArtifact(items, reports, files, results);
    r := Ok(Artifact(items, Sort(files, ByFilePath), plan.measurementContext, plan.partition, reports, runId,
                     plan.shardCount, lines, |plan.serialFiles|));
    FaithfulIs(r.value, plan, results);
  }

  /** The bytes of the artifact: its JSON and a line break. */
  function ArtifactPayload(a: Artifact, codec: Codec): bytes {
    codec.dumps(ArtifactTree(a)) + [NEWLINE]
  }

  function FileTree(f: ArtifactFile): Json {
    Object(EntryTree(f.entry).fields + [Member(Shard, Number(f.shard))])
  }

  function LineTree(l: ShardLine): Json {
    Object([Member(CollectedItemCount, Number(l.collectedItems)), Member(ExitStatus, Number(l.exitStatus)), Member(Index, Number(l.index)),
            Member(PhaseReportCount, Number(l.phaseReports))])
  }

  function FileTrees(files: seq<ArtifactFile>): (r: seq<Json>)
    ensures |r| == |files| && forall i :: 0 <= i < |r| ==> r[i] == FileTree(files[i])
  {
    seq(|files|, i requires 0 <= i < |files| => FileTree(files[i]))
  }

  function LineTrees(lines: seq<ShardLine>): (r: seq<Json>)
    ensures |r| == |lines| && forall i :: 0 <= i < |r| ==> r[i] == LineTree(lines[i])
  {
    seq(|lines|, i requires 0 <= i < |lines| => LineTree(lines[i]))
  }

  function ArtifactTree(a: Artifact): Json {
    Object([Member(CollectedItemCount, Number(a.collectedItems)),
            Member(Files, Array(FileTrees(a.files))),
            Member(MeasurementContext, a.measurementContext), Member(Partition, a.partition),
            Member(PhaseReportCount, Number(a.phaseReports)), Member(RunId, Str(a.runId)), Member(Schema, Str(RUN_TIMING_SCHEMA)),
            Member(ShardCount, Number(a.shardCount)),
            Member(Shards, Array(LineTrees(a.shards))),
            Member(TestFileCount, Number(a.testFileCount))])
  }

  // what the text says

  ghost predicate FileSaid(j: Json, f: ArtifactFile) {
    && j.Object? && Field(j.fields, Shard) == Some(Number(f.shard)) && Field(j.fields, Path) == Some(Str(f.entry.path))
    && Field(j.fields, CollectedItems) == Some(Number(f.entry.collected)) && Field(j.fields, TotalNs) == Some(Number(f.entry.total))
    && (exists d :: Field(j.fields, DurationNs) == Some(d) && PhasesJson(d, RawPhasesOf(f.entry.durations)))
    && exists c :: Field(j.fields, ReportCounts) == Some(c) && PhasesJson(c, RawPhasesOf(f.entry.counts))
  }

  ghost predicate LineSaid(j: Json, l: ShardLine) {
    && j.Object? && Field(j.fields, Index) == Some(Number(l.index)) && Field(j.fields, ExitStatus) == Some(Number(l.exitStatus))
    && Field(j.fields, CollectedItemCount) == Some(Number(l.collectedItems)) && Field(j.fields, PhaseReportCount) == Some(Number(l.phaseReports))
  }

  ghost predicate FilesSaid(items: seq<Json>, files: seq<ArtifactFile>) {
    |items| == |files| && forall i :: 0 <= i < |items| ==> FileSaid(items[i], files[i])
  }

  ghost predicate LinesSaid(items: seq<Json>, lines: seq<ShardLine>) {
    |items| == |lines| && forall i :: 0 <= i < |items| ==> LineSaid(items[i], lines[i])
  }

  ghost predicate ArtifactSaid(j: Json, a: Artifact) {
    && j.Object? && Field(j.fields, RunId) == Some(Str(a.runId)) && Field(j.fields, Schema) == Some(Str(RUN_TIMING_SCHEMA))
    && Field(j.fields, CollectedItemCount) == Some(Number(a.collectedItems)) && Field(j.fields, PhaseReportCount) == Some(Number(a.phaseReports))
    && Field(j.fields, MeasurementContext) == Some(a.measurementContext) && Field(j.fields, Partition) == Some(a.partition)
    && Field(j.fields, ShardCount) == Some(Number(a.shardCount)) && Field(j.fields, TestFileCount) == Some(Number(a.testFileCount))
    && (exists items :: Field(j.fields, Files) == Some(Array(items)) && FilesSaid(items, a.files))
    && exists lines :: Field(j.fields, Shards) == Some(Array(lines)) && LinesSaid(lines, a.shards)
  }

  lemma FileFields(f: ArtifactFile)
    ensures var j := FileTree(f);
      && j.Object? && Field(j.fields, Shard) == Some(Number(f.shard)) && Field(j.fields, Path) == Some(Str(f.entry.path))
      && Field(j.fields, CollectedItems) == Some(Number(f.entry.collected)) && Field(j.fields, TotalNs) == Some(Number(f.entry.total))
      && Field(j.fields, DurationNs) == Some(PhasesTree(f.entry.durations)) && Field(j.fields, ReportCounts) == Some(PhasesTree(f.entry.counts))
  {
    hide Field, KeysOf, PhasesTree;
    var fields := FileTree(f).fields;
    FieldAt(fields, 0);
    FieldAt(fields, 1);
    FieldAt(fields, 2);
    FieldAt(fields, 3);
    FieldAt(fields, 4);
    FieldAt(fields, 5);
  }

  lemma FileTreeSays(f: ArtifactFile)
    ensures FileSaid(FileTree(f), f)
  {
    hide Field, FileTree, PhasesTree, PhasesJson, RawPhasesOf;
    FileFields(f);
    PhasesSaid(f.entry.durations);
    PhasesSaid(f.entry.counts);
  }

  lemma PhasesSaid(p: Phases)
    ensures PhasesJson(PhasesTree(p), RawPhasesOf(p))
  {
    hide PhasesTree, PhasesJson, ReadPhases, Nodes, Depth, Unambiguous, RawPhasesOf;
    PhasesRead(p);
    PhasesExactly(PhasesTree(p), RawPhasesOf(p));
  }

  lemma LineTreeSays(l: ShardLine)
    ensures LineSaid(LineTree(l), l)
  {
    hide Field, KeysOf;
    var fields := LineTree(l).fields;
    FieldAt(fields, 0);
    FieldAt(fields, 1);
    FieldAt(fields, 2);
    FieldAt(fields, 3);
  }

  lemma ArtifactKeysUnique(a: Artifact)
    ensures UniqueKeys(ArtifactTree(a).fields)
  {
    hide FileTrees, LineTrees, RUN_TIMING_SCHEMA;
  }

  lemma NumbersSaid(a: Artifact)
    ensures var fields := ArtifactTree(a).fields;
      && Field(fields, CollectedItemCount) == Some(Number(a.collectedItems)) && Field(fields, PhaseReportCount) == Some(Number(a.phaseReports))
      && Field(fields, ShardCount) == Some(Number(a.shardCount)) && Field(fields, TestFileCount) == Some(Number(a.testFileCount))
      && Field(fields, RunId) == Some(Str(a.runId)) && Field(fields, Schema) == Some(Str(RUN_TIMING_SCHEMA))
  {
    hide Field, KeysOf, UniqueKeys, FileTrees, LineTrees, RUN_TIMING_SCHEMA;
    ArtifactKeysUnique(a);
    var fields := ArtifactTree(a).fields;
    FieldAt(fields, 0);
    FieldAt(fields, 4);
    FieldAt(fields, 5);
    FieldAt(fields, 6);
    FieldAt(fields, 7);
    FieldAt(fields, 9);
  }

  lemma PartsSaid(a: Artifact)
    ensures var fields := ArtifactTree(a).fields;
      && Field(fields, MeasurementContext) == Some(a.measurementContext) && Field(fields, Partition) == Some(a.partition)
      && Field(fields, Files) == Some(Array(FileTrees(a.files)))
      && Field(fields, Shards) == Some(Array(LineTrees(a.shards)))
  {
    hide Field, KeysOf, UniqueKeys, FileTrees, LineTrees, RUN_TIMING_SCHEMA;
    ArtifactKeysUnique(a);
    var fields := ArtifactTree(a).fields;
    FieldAt(fields, 1);
    FieldAt(fields, 2);
    FieldAt(fields, 3);
    FieldAt(fields, 8);
  }

  /** The JSON of an artifact has its fields, its files and its shards, in order. */
  lemma ArtifactTreeSays(a: Artifact)
    ensures ArtifactSaid(ArtifactTree(a), a)
  {
    hide Field, KeysOf, FileTrees, LineTrees, FilesSaid, LinesSaid, RUN_TIMING_SCHEMA;
    FileTreesSay(a.files);
    LineTreesSay(a.shards);
    NumbersSaid(a);
    PartsSaid(a);
    ArtifactIsObject(a);
    hide ArtifactTree;
  }

  lemma ArtifactIsObject(a: Artifact)
    ensures ArtifactTree(a).Object?
  {
  }

  lemma FileTreesSay(files: seq<ArtifactFile>)
    ensures FilesSaid(FileTrees(files), files)
  {
    hide FileTree, FileSaid;
    forall i | 0 <= i < |files| ensures FileSaid(FileTree(files[i]), files[i]) { FileTreeSays(files[i]); }
  }

  lemma LineTreesSay(lines: seq<ShardLine>)
    ensures LinesSaid(LineTrees(lines), lines)
  {
    hide LineTree, LineSaid;
    forall i | 0 <= i < |lines| ensures LineSaid(LineTree(lines[i]), lines[i]) { LineTreeSays(lines[i]); }
  }

  /** Its first checks. */
  method IsComplete(plan: TestPlan, results: seq<ShardResult>) returns (complete: bool)
    ensures complete <==> Complete(plan, results)
  {
    if !plan.wantsArtifact || |results| != plan.shardCount {
      return false;
    }
    for k := 0 to |results|
      invariant forall i :: 0 <= i < k ==> ShardSucceeded(results[i]) && results[i].report.Some?
    {
      var result := results[k];
      if result.returnCode != 0 || result.timedOut || result.cancelled || result.failureCategory.Some? || result.report.None? {
        return false;
      }
    }
    return true;
  }

  /** `_timing_artifact_payload`: nothing for a run that is not complete; otherwise the faithful
      artifact, exactly when the reports are coherent and its text is within the limit. */
  method TimingArtifactPayload(plan: TestPlan, results: seq<ShardResult>, runId: bytes, codec: Codec) returns (r: Result<Option<bytes>>)
    requires ReportsConsistent(results)
    ensures r == Ok(None) <==> !Complete(plan, results)
    ensures Complete(plan, results) ==> AllReported(results)
    ensures Complete(plan, results) ==>
      var a := ArtifactOf(plan, results, runId);
      && (r.Ok? <==> Coherent(plan, Sort(results, ByIndex), runId) && |ArtifactPayload(a, codec)| <= MAX_RUN_TIMING_BYTES)
      && (r.Ok? ==> Faithful(a, plan, results) && r == Ok(Some(ArtifactPayload(a, codec))))
  {
    hide ArtifactOf, Faithful, Coherent, ReportsConsistent, ArtifactTree, ShardSucceeded, Sort;
    var complete := IsComplete(plan, results);
    if !complete {
      return Ok(None);
    }
    var artifact := Consolidate(plan, results, runId);
    if artifact.Err? {
      return Err(artifact.reason);
    }
    var encoded := codec.dumps(ArtifactTree(artifact.value)) + [NEWLINE];
    if |encoded| > MAX_RUN_TIMING_BYTES {
      return Err("artifact exceeded its byte bound");
    }
    return Ok(Some(encoded));
  }

  lemma IdentifiedIs(r: ShardResult, runId: bytes)
    requires r.report.Some?
    ensures Identified(r, runId) <==> r.report.value.runId == runId && r.report.value.shard == r.index
  {
  }

  lemma NothingMarked(results: seq<ShardResult>)
    ensures AllMarked(results, 0) == []
  {
  }

  lemma MarkedNext(results: seq<ShardResult>, k: nat)
    requires k < |results| && results[k].report.Some?
    ensures AllMarked(results, k + 1) == AllMarked(results, k) + Marked(results[k].report.value.files, results[k].index)
  {
    hide Marked;
  }

  lemma ReportIsConsistent(results: seq<ShardResult>, r: ShardResult)
    requires ReportsConsistent(results) && r in results && r.report.Some?
    ensures Consistent(r.report.value)
  {
    hide Consistent;
  }

  predicate LinesAddUp(items: nat, reports: nat, lines: seq<ShardLine>) {
    items == SumOf(lines, ItemsInLine) && reports == SumOf(lines, ReportsInLine)
  }

  lemma NoLines()
    ensures LinesAddUp(0, 0, [])
  {
  }

  lemma LinesExtend(items: nat, reports: nat, lines: seq<ShardLine>, l: ShardLine)
    requires LinesAddUp(items, reports, lines)
    ensures LinesAddUp(items + l.collectedItems, reports + l.phaseReports, lines + [l])
  {
    hide SumOf;
    SumExtend(lines, l, ItemsInLine);
    SumExtend(lines, l, ReportsInLine);
  }

  lemma GatheredTotals(items: nat, reports: nat, files: seq<ArtifactFile>, results: seq<ShardResult>)
    requires Gathered(items, reports, files, results)
    ensures items == SumOf(files, ItemsOf) && reports == SumOf(files, ReportsOf)
  {
    hide SumOf, FromResults, Apart;
  }

  lemma FaithfulIs(a: Artifact, plan: TestPlan, results: seq<ShardResult>)
    requires Gathered(a.collectedItems, a.phaseReports, a.files, results) && Sorted(a.files, ByFilePath)
    requires Paths(a.files) == (set f | f in plan.serialFiles) && LinesAddUp(a.collectedItems, a.phaseReports, a.shards)
    requires a.measurementContext == plan.measurementContext && a.partition == plan.partition
    requires a.shardCount == plan.shardCount == |a.shards| && a.testFileCount == |plan.serialFiles|
    ensures Faithful(a, plan, results)
  {
    hide SumOf, FromResults, LexLess;
  }

  lemma GatheredNothing(results: seq<ShardResult>)
    ensures Gathered(0, 0, [], results) && Apart([]) && Paths([]) == {}
  {
  }

  /** The files of a report, marked with its shard. */
  function Marked(entries: seq<FileEntry>, shard: nat): (r: seq<ArtifactFile>)
    ensures |r| == |entries| && forall i :: 0 <= i < |r| ==> r[i] == ArtifactFile(entries[i], shard)
  {
    seq(|entries|, i requires 0 <= i < |entries| => ArtifactFile(entries[i], shard))
  }

  /** The inner loop: a report's files are added unless one of them was seen before. */
  method AddFiles(report: LoadedReport, result: ShardResult, files: seq<ArtifactFile>, observed: set<File>, ghost results: seq<ShardResult>)
    returns (more: Option<seq<ArtifactFile>>)
    requires observed == Paths(files) && Apart(files)
    ensures more.Some? ==> more.value == files + Marked(report.files, result.index) && Apart(more.value)
    ensures more.None? ==> !Apart(files + Marked(report.files, result.index))
  {
    var all, seen := files, observed;
    for k := 0 to |report.files|
      invariant all == files + Marked(report.files[..k], result.index) && Apart(all) && seen == Paths(all)
    {
      var item := report.files[k];
      if item.path in seen {
        SeenTwice(all, files + Marked(report.files, result.index), item.path, |files| + k);
        return None;
      }
      assert report.files[..k + 1] == report.files[..k] + [item];
      PathsExtend(all, ArtifactFile(item, result.index));
      seen := seen + {item.path};
      all := all + [ArtifactFile(item, result.index)];
    }
    assert report.files[..|report.files|] == report.files;
    return Some(all);
  }

  lemma SeenTwice(some: seq<ArtifactFile>, all: seq<ArtifactFile>, path: File, n: nat)
    requires some <= all && path in Paths(some) && |some| <= n < |all| && all[n].entry.path == path
    ensures !Apart(all)
  {
    var f :| f in some && f.entry.path == path;
    var i :| 0 <= i < |some| && some[i] == f;
    assert all[i] == f;
  }

  lemma PathsExtend(files: seq<ArtifactFile>, f: ArtifactFile)
    ensures Paths(files + [f]) == Paths(files) + {f.entry.path}
    ensures Apart(files) && f.entry.path !in Paths(files) ==> Apart(files + [f])
  {
    var more := files + [f];
    assert forall x :: x in more <==> x in files || x == f;
    assert forall i :: 0 <= i < |files| ==> files[i] in files;
  }

  lemma {:induction false} MarkedSums(entries: seq<FileEntry>, shard: nat)
    ensures SumOf(Marked(entries, shard), ItemsOf) == SumItems(entries)
    ensures SumOf(Marked(entries, shard), ReportsOf) == SumReports(entries)
  {
    if entries != [] {
      MarkedSums(entries[1..], shard);
      assert Marked(entries, shard)[1..] == Marked(entries[1..], shard);
    }
  }

  lemma GatherTotals(items: nat, reports: nat, files: seq<ArtifactFile>, result: ShardResult, results: seq<ShardResult>)
    requires Gathered(items, reports, files, results) && result in results && result.report.Some? && Consistent(result.report.value)
    requires Apart(files + Marked(result.report.value.files, result.index))
    ensures var report := result.report.value;
      Gathered(items + report.collectedItems, reports + report.phaseReports, files + Marked(report.files, result.index), results)
  {
    hide SumOf;
    var report := result.report.value;
    var marked := Marked(report.files, result.index);
    Sums.SumConcat(files, marked, ItemsOf);
    Sums.SumConcat(files, marked, ReportsOf);
    MarkedSums(report.files, result.index);
    forall f | f in files + marked ensures FromResults(f, results) {
      if f !in files {
        var i :| 0 <= i < |marked| && marked[i] == f;
        assert report.files[i] in report.files;
      }
    }
  }

  lemma ByFilePathIsStrict()
    ensures StrictOrder(ByFilePath)
  {
    forall x: ArtifactFile ensures !ByFilePath(x, x) { LexTrichotomy(x.entry.path, x.entry.path); }
    forall x: ArtifactFile, y: ArtifactFile, z: ArtifactFile | ByFilePath(x, y) && ByFilePath(y, z) ensures ByFilePath(x, z) {
      LexTransitive(x.entry.path, y.entry.path, z.entry.path);
    }
  }

  lemma SortedArtifact(items: nat, reports: nat, files: seq<ArtifactFile>, results: seq<ShardResult>)
    requires Gathered(items, reports, files, results)
    ensures var s := Sort(files, ByFilePath);
      Sorted(s, ByFilePath) && Paths(s) == Paths(files) && Gathered(items, reports, s, results)
  {
    hide LexLess, Sort, FromResults, SumOf;
    ByFilePathIsStrict();
    forall x, y | x in files && y in files ensures x == y || ByFilePath(x, y) || ByFilePath(y, x) {
      LexTrichotomy(x.entry.path, y.entry.path);
      var i :| 0 <= i < |files| && files[i] == x;
      var j :| 0 <= j < |files| && files[j] == y;
      if x.entry.path == y.entry.path { assert i == j; }
    }
    assert Distinct(files) by {
      forall i, j | 0 <= i < j < |files| ensures files[i] != files[j] { assert files[i].entry.path != files[j].entry.path; }
    }
    SortSorted(files, ByFilePath);
    SortMembers(files, ByFilePath);
    SumSorted(files, ByFilePath, ItemsOf);
    SumSorted(files, ByFilePath, ReportsOf);
    var s := Sort(files, ByFilePath);
    forall i, j | 0 <= i < j < |s| ensures s[i].entry.path != s[j].entry.path {
      assert ByFilePath(s[i], s[j]);
      LexTrichotomy(s[i].entry.path, s[j].entry.path);
    }
  }
}
