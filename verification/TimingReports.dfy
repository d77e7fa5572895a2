/** The loader of shard timing reports, and when it accepts what the plugin writes. */
module TimingReports {
  import opened Outcomes
  import opened Bytes
  import opened Text
  import opened Sorting
  import opened Sums
  import opened TimingJson
  import opened PytestTiming

  const MAX_COUNT: int := 2147483647
  const MAX_SHARD: int := 4096
  const BACKSLASH: byte := 0x5c
  const DOT: byte := 0x2e

  // ---- reports as read ----

  /** A report whose fields are all there, of the right kind, and no others. */
  datatype RawPhases = RawPhases(setup: int, call: int, teardown: int)
  datatype RawFile = RawFile(path: File, collected: int, durations: RawPhases, counts: RawPhases, total: int)
  datatype RawReport = RawReport(schema: bytes, runId: bytes, errors: seq<Json>, shard: int, exitStatus: int,
                                 files: seq<RawFile>, collectedItems: int, phaseReports: int)

  function PhaseKeys(): set<Key> {
    {PhaseKey(Setup), PhaseKey(Call), PhaseKey(Teardown)}
  }

  function FileKeys(): set<Key> {
    {CollectedItems, DurationNs, Path, ReportCounts, TotalNs}
  }

  function ReportKeys(): set<Key> {
    {CollectedItemCount, Errors, ExitStatus, Files, PhaseReportCount, RunId, Schema, Shard}
  }

  function ReadPhases(j: Json): (r: Option<RawPhases>) {
    if !HasShape(j, PhaseKeys()) then None
    else
      var s, c, t := Field(j.fields, PhaseKey(Setup)).value, Field(j.fields, PhaseKey(Call)).value, Field(j.fields, PhaseKey(Teardown)).value;
      if s.Number? && c.Number? && t.Number? then Some(RawPhases(s.n, c.n, t.n)) else None
  }

  function ReadFile(j: Json): (r: Option<RawFile>) {
    if !HasShape(j, FileKeys()) then None
    else
      var path, collected, total := Field(j.fields, Path).value, Field(j.fields, CollectedItems).value, Field(j.fields, TotalNs).value;
      var durations, counts := ReadPhases(Field(j.fields, DurationNs).value), ReadPhases(Field(j.fields, ReportCounts).value);
      if path.Str? && collected.Number? && total.Number? && durations.Some? && counts.Some?
      then Some(RawFile(path.text, collected.n, durations.value, counts.value, total.n)) else None
  }

  predicate AllRead(items: seq<Json>) {
    forall i :: 0 <= i < |items| ==> ReadFile(items[i]).Some?
  }

  function ReadFiles(items: seq<Json>): (r: Option<seq<RawFile>>)
    ensures r.Some? <==> AllRead(items)
    ensures r.Some? ==> |r.value| == |items| && forall i :: 0 <= i < |items| ==> Some(r.value[i]) == ReadFile(items[i])
  {
    hide ReadFile;
    if AllRead(items) then Some(seq(|items|, i requires 0 <= i < |items| => ReadFile(items[i]).value)) else None
  }

  function ReadReport(j: Json): (r: Option<RawReport>) {
    if !HasShape(j, ReportKeys()) then None
    else
      var schema, runId, errors := Field(j.fields, Schema).value, Field(j.fields, RunId).value, Field(j.fields, Errors).value;
      var shard, status, files := Field(j.fields, Shard).value, Field(j.fields, ExitStatus).value, Field(j.fields, Files).value;
      var items, reports := Field(j.fields, CollectedItemCount).value, Field(j.fields, PhaseReportCount).value;
      if !schema.Str? || !runId.Str? || !errors.Array? || !files.Array? then None
      else if !shard.Number? || !status.Number? || !items.Number? || !reports.Number? || ReadFiles(files.items).None? then None
      else Some(RawReport(schema.text, runId.text, errors.items, shard.n, status.n, ReadFiles(files.items).value, items.n, reports.n))
  }

  // the fields of a report, and no others

  ghost predicate PhasesJson(j: Json, p: RawPhases) {
    && j.Object? && KeysOf(j.fields) == {PhaseKey(Setup), PhaseKey(Call), PhaseKey(Teardown)}
    && Field(j.fields, PhaseKey(Setup)) == Some(Number(p.setup)) && Field(j.fields, PhaseKey(Call)) == Some(Number(p.call))
    && Field(j.fields, PhaseKey(Teardown)) == Some(Number(p.teardown))
  }

  ghost predicate FileJson(j: Json, f: RawFile) {
    && j.Object? && KeysOf(j.fields) == {CollectedItems, DurationNs, Path, ReportCounts, TotalNs}
    && Field(j.fields, CollectedItems) == Some(Number(f.collected)) && Field(j.fields, Path) == Some(Str(f.path))
    && Field(j.fields, TotalNs) == Some(Number(f.total))
    && (exists d :: Field(j.fields, DurationNs) == Some(d) && PhasesJson(d, f.durations))
    && exists c :: Field(j.fields, ReportCounts) == Some(c) && PhasesJson(c, f.counts)
  }

  ghost predicate ReportJson(j: Json, r: RawReport) {
    && j.Object? && KeysOf(j.fields) == {CollectedItemCount, Errors, ExitStatus, Files, PhaseReportCount, RunId, Schema, Shard}
    && Field(j.fields, Schema) == Some(Str(r.schema)) && Field(j.fields, RunId) == Some(Str(r.runId))
    && Field(j.fields, Errors) == Some(Array(r.errors)) && Field(j.fields, Shard) == Some(Number(r.shard))
    && Field(j.fields, ExitStatus) == Some(Number(r.exitStatus)) && Field(j.fields, CollectedItemCount) == Some(Number(r.collectedItems))
    && Field(j.fields, PhaseReportCount) == Some(Number(r.phaseReports))
    && exists items :: Field(j.fields, Files) == Some(Array(items)) && FilesJson(items, r.files)
  }

  ghost predicate FilesJson(items: seq<Json>, files: seq<RawFile>) {
    |items| == |files| && forall i :: 0 <= i < |items| ==> FileJson(items[i], files[i])
  }

  lemma PhasesExactly(j: Json, p: RawPhases)
    ensures ReadPhases(j) == Some(p) <==> PhasesJson(j, p)
  {
    hide Field, KeysOf;
  }

  lemma FileExactly(j: Json, f: RawFile)
    ensures ReadFile(j) == Some(f) <==> FileJson(j, f)
  {
    hide Field, KeysOf, ReadPhases, PhasesJson;
    forall d, p ensures ReadPhases(d) == Some(p) <==> PhasesJson(d, p) { PhasesExactly(d, p); }
  }

  lemma FilesExactly(items: seq<Json>, files: seq<RawFile>)
    ensures ReadFiles(items) == Some(files) <==> FilesJson(items, files)
  {
    hide ReadFile, FileJson;
    forall j, f ensures ReadFile(j) == Some(f) <==> FileJson(j, f) { FileExactly(j, f); }
    if FilesJson(items, files) { assert ReadFiles(items).value == files; }
  }

  /** A value is read as a report exactly when it has these fields and no others. */
  lemma ReportExactly(j: Json, r: RawReport)
    ensures ReadReport(j) == Some(r) <==> ReportJson(j, r)
  {
    hide Field, KeysOf, ReadFiles, FilesJson, ReportKeys;
    forall items, files ensures ReadFiles(items) == Some(files) <==> FilesJson(items, files) { FilesExactly(items, files); }
    ReportKeysAreEight();
  }

  lemma ReportKeysAreEight()
    ensures ReportKeys() == {CollectedItemCount, Errors, ExitStatus, Files, PhaseReportCount, RunId, Schema, Shard}
  {
  }

  datatype ShardPlan = ShardPlan(index: nat, testFiles: seq<File>)

  datatype LoadedReport = LoadedReport(collectedItems: nat, exitStatus: int, files: seq<FileEntry>, phaseReports: nat, runId: bytes, shard: nat)

  predicate Bounded(n: int, maximum: int) {
    0 <= n <= maximum
  }

  predicate BoundedPhases(p: RawPhases, maximum: int) {
    Bounded(p.setup, maximum) && Bounded(p.call, maximum) && Bounded(p.teardown, maximum)
  }

  /** `_canonical_timing_path`: relative, and spelled as it prints again.  The path of one dot has no
      parts at all, so it passes. */
  predicate CanonicalPath(path: File) {
    path == [DOT]
    || (path != [] && BACKSLASH !in path && forall part :: part in Split(path, SLASH) ==> part !in {[], [DOT], [DOT, DOT]})
  }

  /** Parts that are neither empty nor dots, without backslashes, with slashes between them. */
  lemma CanonicalPathExactly(path: File)
    ensures CanonicalPath(path) <==>
      path == [DOT] || exists parts :: parts != [] && path == Join(parts, SLASH) && forall part :: part in parts ==> PlainPart(part)
  {
    hide Split, Join;
    if CanonicalPath(path) && path != [DOT] {
      SplitJoin(path, SLASH);
      var parts := Split(path, SLASH);
      forall part | part in parts ensures PlainPart(part) {
        var i :| 0 <= i < |parts| && parts[i] == part;
        PartsOfJoin(parts, part);
      }
    }
    forall parts | parts != [] && path == Join(parts, SLASH) && forall part :: part in parts ==> PlainPart(part) ensures CanonicalPath(path) {
      forall i | 0 <= i < |parts| ensures SLASH !in parts[i] && parts[i] != [] { assert parts[i] in parts; }
      SplitOfJoin(parts, SLASH);
      JoinLast(parts, SLASH);
      JoinHasNo(parts);
    }
  }

  predicate PlainPart(part: bytes) {
    part != [] && part != [DOT] && part != [DOT, DOT] && SLASH !in part && BACKSLASH !in part
  }

  lemma {:induction false} PartsOfJoin(parts: seq<bytes>, part: bytes)
    requires part in parts
    ensures forall b :: b in part ==> b in Join(parts, SLASH)
  {
    if |parts| > 1 && part in parts[1..] { PartsOfJoin(parts[1..], part); }
    if |parts| > 1 { assert Join(parts, SLASH) == parts[0] + [SLASH] + Join(parts[1..], SLASH); }
    assert part == parts[0] || part in parts[1..];
  }

  lemma {:induction false} JoinHasNo(parts: seq<bytes>)
    requires forall part :: part in parts ==> BACKSLASH !in part
    ensures BACKSLASH !in Join(parts, SLASH)
  {
    if parts != [] {
      assert parts[0] in parts && forall part :: part in parts[1..] ==> part in parts;
      JoinHasNo(parts[1..]);
    }
  }

  predicate FileOk(f: RawFile) {
    && CanonicalPath(f.path) && Bounded(f.collected, MAX_COUNT)
    && BoundedPhases(f.durations, MAX_DURATION_NS) && BoundedPhases(f.counts, MAX_COUNT) && Bounded(f.total, MAX_DURATION_NS)
    && f.total == f.durations.setup + f.durations.call + f.durations.teardown
  }

  function EntryFrom(f: RawFile): FileEntry
    requires FileOk(f)
  {
    FileEntry(f.path, f.collected, Phases(f.durations.setup, f.durations.call, f.durations.teardown),
              Phases(f.counts.setup, f.counts.call, f.counts.teardown), f.total)
  }

  function EntriesFrom(files: seq<RawFile>): (r: seq<FileEntry>)
    requires forall i :: 0 <= i < |files| ==> FileOk(files[i])
    ensures |r| == |files| && forall i :: 0 <= i < |r| ==> r[i] == EntryFrom(files[i])
  {
    seq(|files|, i requires 0 <= i < |files| => EntryFrom(files[i]))
  }

  predicate ByPath(a: FileEntry, b: FileEntry) {
    LexLess(a.path, b.path)
  }

  function PathSet(entries: seq<FileEntry>): set<File> {
    set e | e in entries :: e.path
  }

  predicate DistinctPaths(entries: seq<FileEntry>) {
    forall i, j :: 0 <= i < j < |entries| ==> entries[i].path != entries[j].path
  }

  // ---- the loader ----

  predicate IdentityOk(plan: ShardPlan, runId: bytes, exitStatus: int, raw: RawReport) {
    && raw.schema == SHARD_TIMING_SCHEMA && raw.runId == runId && raw.errors == []
    && Bounded(raw.shard, MAX_SHARD) && raw.shard == plan.index && Bounded(raw.exitStatus, 255) && raw.exitStatus == exitStatus
    && |raw.files| == |plan.testFiles|
  }

  predicate FilesOk(files: seq<RawFile>) {
    forall i :: 0 <= i < |files| ==> FileOk(files[i])
  }

  /** When the loader accepts a report it has read. */
  predicate Acceptable(plan: ShardPlan, runId: bytes, exitStatus: int, raw: RawReport) {
    && IdentityOk(plan, runId, exitStatus, raw) && FilesOk(raw.files)
    && var entries := EntriesFrom(raw.files);
       && DistinctPaths(entries) && PathSet(entries) == (set f | f in plan.testFiles)
       && Bounded(raw.collectedItems, MAX_COUNT) && raw.collectedItems == SumItems(entries)
       && Bounded(raw.phaseReports, MAX_COUNT) && raw.phaseReports == SumReports(entries)
  }

  /** When the loader accepts these bytes: they are JSON within the limits, with the fields of a
      report, and the report is acceptable. */
  predicate Accepts(plan: ShardPlan, runId: bytes, exitStatus: int, raw: bytes, codec: Codec) {
    var j := LoadBounded(raw, MAX_SHARD_TIMING_BYTES, codec);
    j.Some? && ReadReport(j.value).Some? && Acceptable(plan, runId, exitStatus, ReadReport(j.value).value)
  }

  /** `_load_timing_report`, on the bytes of the file. */
  method LoadTimingReport(plan: ShardPlan, runId: bytes, exitStatus: int, raw: bytes, codec: Codec) returns (r: Result<LoadedReport>)
    ensures r.Ok? <==> Accepts(plan, runId, exitStatus, raw, codec)
    ensures r.Ok? ==> Consistent(r.value) && r.value.runId == runId && r.value.shard == plan.index && r.value.exitStatus == exitStatus
    ensures r.Ok? ==>
      var read := ReadReport(codec.loads(raw).value).value;
      && PathSet(r.value.files) == (set f | f in plan.testFiles) && multiset(r.value.files) == multiset(EntriesFrom(read.files))
      && r.value.collectedItems == read.collectedItems && r.value.phaseReports == read.phaseReports
  {
    hide ReadReport, Acceptable, Consistent, PathSet, EntriesFrom, FilesOk;
    var j := LoadBounded(raw, MAX_SHARD_TIMING_BYTES, codec);
    if j.None? { return Err("not bounded JSON"); }
    var report := ReadReport(j.value);
    if report.None? { return Err("report has an invalid shape"); }
    AcceptableFiles(plan, runId, exitStatus, report.value);
    r := ValidateReport(plan, runId, exitStatus, report.value);
  }

  lemma AcceptableFiles(plan: ShardPlan, runId: bytes, exitStatus: int, raw: RawReport)
    ensures Acceptable(plan, runId, exitStatus, raw) ==> FilesOk(raw.files)
  {
    hide IdentityOk, FilesOk, DistinctPaths, PathSet, SumItems, SumReports;
  }

  /** The checks on the fields of a report. */
  method ValidateReport(plan: ShardPlan, runId: bytes, exitStatus: int, raw: RawReport) returns (r: Result<LoadedReport>)
    ensures r.Ok? <==> Acceptable(plan, runId, exitStatus, raw)
    ensures r.Ok? ==> Consistent(r.value) && r.value.runId == runId && r.value.shard == plan.index && r.value.exitStatus == exitStatus
    ensures r.Ok? ==> PathSet(r.value.files) == (set f | f in plan.testFiles) && multiset(r.value.files) == multiset(EntriesFrom(raw.files))
    ensures r.Ok? ==> r.value.collectedItems == raw.collectedItems && r.value.phaseReports == raw.phaseReports
  {
    hide CanonicalPath, LexLess;
    if raw.schema != SHARD_TIMING_SCHEMA || raw.runId != runId || raw.errors != []
      || !Bounded(raw.shard, MAX_SHARD) || raw.shard != plan.index || !Bounded(raw.exitStatus, 255) || raw.exitStatus != exitStatus
    {
      return Err("report identity is invalid");
    }
    if |raw.files| != |plan.testFiles| {
      return Err("file count is invalid");
    }
    var observed: set<File> := {};
    var items, reports := 0, 0;
    var entries: seq<FileEntry> := [];
    for k := 0 to |raw.files|
      invariant FilesOk(raw.files[..k]) && entries == EntriesFrom(raw.files[..k])
      invariant DistinctPaths(entries) && observed == PathSet(entries)
      invariant items == SumItems(entries) && reports == SumReports(entries)
    {
      var file := raw.files[k];
      assert raw.files[..k + 1] == raw.files[..k] + [file];
      if !CanonicalPath(file.path) {
        assert !FilesOk(raw.files);
        return Err("path is not canonical");
      }
      if file.path in observed {
        RepeatedPath(raw.files, k);
        return Err("duplicate path");
      }
      if !Bounded(file.collected, MAX_COUNT) || !BoundedPhases(file.durations, MAX_DURATION_NS)
        || !BoundedPhases(file.counts, MAX_COUNT) || !Bounded(file.total, MAX_DURATION_NS)
      {
        assert !FilesOk(raw.files);
        return Err("an integer is out of bounds");
      }
      if file.total != file.durations.setup + file.durations.call + file.durations.teardown {
        assert !FilesOk(raw.files);
        return Err("total does not match its phases");
      }
      var entry := FileEntry(file.path, file.collected,
                             Phases(file.durations.setup, file.durations.call, file.durations.teardown),
                             Phases(file.counts.setup, file.counts.call, file.counts.teardown), file.total);
      SumsExtend(entries, entry);
      PathSetExtends(entries, entry);
      observed := observed + {entry.path};
      items := items + entry.collected;
      reports := reports + entry.counts.Total();
      entries := entries + [entry];
    }
    assert raw.files[..|raw.files|] == raw.files;
    if observed != set f | f in plan.testFiles {
      return Err("paths differ from the planned shard");
    }
    if !Bounded(raw.collectedItems, MAX_COUNT) || items != raw.collectedItems
      || !Bounded(raw.phaseReports, MAX_COUNT) || reports != raw.phaseReports {
      return Err("aggregate counts are inconsistent");
    }
    SortedEntries(entries);
    return Ok(LoadedReport(items, exitStatus, Sort(entries, ByPath), reports, runId, plan.index));
  }

  lemma RepeatedPath(files: seq<RawFile>, k: nat)
    requires k < |files| && FilesOk(files[..k])
    requires files[k].path in PathSet(EntriesFrom(files[..k]))
    ensures FilesOk(files) ==> !DistinctPaths(EntriesFrom(files))
  {
    hide FileOk;
    var e :| e in EntriesFrom(files[..k]) && e.path == files[k].path;
    var i :| 0 <= i < k && EntriesFrom(files[..k])[i] == e;
    if FilesOk(files) {
      var all := EntriesFrom(files);
      assert all[i] == EntryFrom(files[i]) == e && all[k] == EntryFrom(files[k]);
    }
  }

  lemma PathSetExtends(entries: seq<FileEntry>, e: FileEntry)
    ensures PathSet(entries + [e]) == PathSet(entries) + {e.path}
    ensures DistinctPaths(entries) && e.path !in PathSet(entries) ==> DistinctPaths(entries + [e])
  {
    var more := entries + [e];
    assert forall x :: x in more <==> x in entries || x == e;
    assert forall i :: 0 <= i < |entries| ==> entries[i] in entries;
  }

  // ---- what a loaded report is ----

  /** In path order, no path twice, and totals equal to the sums over its files. */
  ghost predicate Consistent(r: LoadedReport) {
    && Sorted(r.files, ByPath) && DistinctPaths(r.files)
    && r.collectedItems == SumItems(r.files) && r.phaseReports == SumReports(r.files)
  }

  lemma ByPathIsStrict()
    ensures StrictOrder(ByPath)
  {
    forall x: FileEntry ensures !ByPath(x, x) { LexTrichotomy(x.path, x.path); }
    forall x: FileEntry, y: FileEntry, z: FileEntry | ByPath(x, y) && ByPath(y, z) ensures ByPath(x, z) {
      LexTransitive(x.path, y.path, z.path);
    }
  }

  lemma SortedEntries(entries: seq<FileEntry>)
    requires DistinctPaths(entries)
    ensures var s := Sort(entries, ByPath);
      && Sorted(s, ByPath) && DistinctPaths(s) && PathSet(s) == PathSet(entries) && multiset(s) == multiset(entries)
      && SumItems(s) == SumItems(entries) && SumReports(s) == SumReports(entries)
  {
    hide LexLess, Sort;
    ByPathIsStrict();
    forall x, y | x in entries && y in entries ensures x == y || ByPath(x, y) || ByPath(y, x) {
      LexTrichotomy(x.path, y.path);
      var i :| 0 <= i < |entries| && entries[i] == x;
      var j :| 0 <= j < |entries| && entries[j] == y;
      if x.path == y.path { assert i == j; }
    }
    assert Distinct(entries) by {
      forall i, j | 0 <= i < j < |entries| ensures entries[i] != entries[j] { assert entries[i].path != entries[j].path; }
    }
    SortSorted(entries, ByPath);
    SortKeeps(entries, ByPath);
    SortMembers(entries, ByPath);
    SumSorted(entries, ByPath, ItemsIn);
    SumSorted(entries, ByPath, ReportsIn);
    var s := Sort(entries, ByPath);
    forall i, j | 0 <= i < j < |s| ensures s[i].path != s[j].path {
      assert ByPath(s[i], s[j]);
      LexTrichotomy(s[i].path, s[j].path);
    }
  }

  // ---- an error-free plugin run is accepted, within the bounds ----

  function RawPhasesOf(p: Phases): RawPhases {
    RawPhases(p.setup, p.call, p.teardown)
  }

  function RawEntry(e: FileEntry): RawFile {
    RawFile(e.path, e.collected, RawPhasesOf(e.durations), RawPhasesOf(e.counts), e.total)
  }

  function RawEntries(entries: seq<FileEntry>): (r: seq<RawFile>)
    ensures |r| == |entries| && forall i :: 0 <= i < |r| ==> r[i] == RawEntry(entries[i])
  {
    seq(|entries|, i requires 0 <= i < |entries| => RawEntry(entries[i]))
  }

  /** The report as the loader should read it. */
  function Decoded(r: ShardReport): RawReport {
    RawReport(SHARD_TIMING_SCHEMA, r.runId, ErrorTexts(r.errors, |TROUBLES|), r.shard, r.exitStatus, RawEntries(r.files), r.collectedItems, r.phaseReports)
  }

  // the loader's field names are the writer's

  lemma PhasesRead(p: Phases)
    ensures ReadPhases(PhasesTree(p)) == Some(RawPhasesOf(p))
    ensures Nodes(PhasesTree(p)) == 4 && Depth(PhasesTree(p)) <= 1 && Unambiguous(PhasesTree(p))
  {
    hide Nodes, Depth, Field, KeysOf;
    var fields := PhasesTree(p).fields;
    FieldAt(fields, 0);
    FieldAt(fields, 1);
    FieldAt(fields, 2);
    PhaseKeysAre(p);
    FlatNodes(fields);
    ScalarDepth(fields);
    ObjectMeasures(fields);
  }

  lemma PhaseKeysAre(p: Phases)
    ensures KeysOf(PhasesTree(p).fields) == PhaseKeys()
  {
    var fields := PhasesTree(p).fields;
    KeyAt(fields, 0);
    KeyAt(fields, 1);
    KeyAt(fields, 2);
  }

  lemma ScalarDepth(fields: seq<Member>)
    requires forall i :: 0 <= i < |fields| ==> Flat(fields[i].value)
    ensures FieldDepth(fields) == 0
  {
    FieldDepthAtMost(fields, 0);
  }

  lemma ObjectMeasures(fields: seq<Member>)
    ensures Nodes(Object(fields)) == 1 + FieldNodes(fields) && Depth(Object(fields)) == 1 + FieldDepth(fields)
  {
  }

  lemma ArrayMeasures(items: seq<Json>)
    ensures Nodes(Array(items)) == 1 + AllNodes(items) && Depth(Array(items)) == 1 + MaxDepth(items)
  {
  }

  lemma ScalarMeasures(j: Json)
    requires Flat(j)
    ensures Nodes(j) == 1 && Depth(j) == 0 && Unambiguous(j)
  {
  }

  lemma EntryKeysAre(e: FileEntry)
    ensures KeysOf(EntryTree(e).fields) == FileKeys()
  {
    hide PhasesTree;
    var fields := EntryTree(e).fields;
    KeyAt(fields, 0);
    KeyAt(fields, 1);
    KeyAt(fields, 2);
    KeyAt(fields, 3);
    KeyAt(fields, 4);
  }

  lemma EntryRead(e: FileEntry)
    ensures ReadFile(EntryTree(e)) == Some(RawEntry(e))
  {
    hide Field, KeysOf, PhasesTree, ReadPhases, FileKeys;
    var fields := EntryTree(e).fields;
    FieldAt(fields, 0);
    FieldAt(fields, 1);
    FieldAt(fields, 2);
    FieldAt(fields, 3);
    FieldAt(fields, 4);
    EntryKeysAre(e);
    EntryKeysHold();
    PhasesRead(e.durations);
    PhasesRead(e.counts);
  }

  lemma EntryKeysHold()
    ensures {CollectedItems, DurationNs, Path, ReportCounts, TotalNs} <= FileKeys()
  {
  }

  lemma EntryKeysUnique(e: FileEntry)
    ensures UniqueKeys(EntryTree(e).fields)
  {
    hide PhasesTree;
  }

  lemma EntryMeasures(e: FileEntry)
    ensures Nodes(EntryTree(e)) == 12 && Depth(EntryTree(e)) <= 2 && Unambiguous(EntryTree(e))
  {
    hide Nodes, Depth, PhasesTree, Unambiguous, FieldNodes, FieldDepth, UniqueKeys;
    var fields := EntryTree(e).fields;
    EntryValues(e);
    EntryKeysUnique(e);
    FiveNodes(fields);
    FieldDepthAtMost(fields, 1);
    ObjectMeasures(fields);
    ObjectUnambiguous(fields);
  }

  /** A shallow value without ambiguity, of this many values. */
  predicate Sized(j: Json, nodes: nat) {
    Nodes(j) == nodes && Depth(j) <= 1 && Unambiguous(j)
  }

  lemma EntryValues(e: FileEntry)
    ensures var fields := EntryTree(e).fields;
      && |fields| == 5 && Sized(fields[0].value, 1) && Sized(fields[1].value, 4) && Sized(fields[2].value, 1)
      && Sized(fields[3].value, 4) && Sized(fields[4].value, 1)
  {
    hide Nodes, Depth, PhasesTree, Unambiguous;
    EntryMembers(e);
    hide EntryTree;
    PhasesRead(e.durations);
    PhasesRead(e.counts);
    ScalarMeasures(Number(e.collected));
    ScalarMeasures(Str(e.path));
    ScalarMeasures(Number(e.total));
  }

  lemma EntryMembers(e: FileEntry)
    ensures EntryTree(e).Object? && |EntryTree(e).fields| == 5
    ensures var fields := EntryTree(e).fields;
      && fields[0].value == Number(e.collected) && fields[1].value == PhasesTree(e.durations) && fields[2].value == Str(e.path)
      && fields[3].value == PhasesTree(e.counts) && fields[4].value == Number(e.total)
  {
    hide PhasesTree;
  }

  lemma FiveNodes(fields: seq<Member>)
    requires |fields| == 5
    ensures FieldNodes(fields) == Nodes(fields[0].value) + Nodes(fields[1].value) + Nodes(fields[2].value) + Nodes(fields[3].value) + Nodes(fields[4].value)
  {
    hide Nodes, FieldNodes;
    FieldNodesConcat([fields[0]], fields[1..]);
    FieldNodesConcat([fields[1]], fields[2..]);
    FieldNodesConcat([fields[2]], fields[3..]);
    FieldNodesConcat([fields[3]], fields[4..]);
    assert [fields[0]] + fields[1..] == fields && [fields[1]] + fields[2..] == fields[1..];
    assert [fields[2]] + fields[3..] == fields[2..] && [fields[3]] + fields[4..] == fields[3..] && [fields[4]] == fields[4..];
    FieldNodesOne(fields[0]);
    FieldNodesOne(fields[1]);
    FieldNodesOne(fields[2]);
    FieldNodesOne(fields[3]);
    FieldNodesOne(fields[4]);
  }

  lemma ObjectUnambiguous(fields: seq<Member>)
    requires UniqueKeys(fields) && forall i :: 0 <= i < |fields| ==> Unambiguous(fields[i].value)
    ensures Unambiguous(Object(fields))
  {
  }

  lemma ArrayUnambiguous(items: seq<Json>)
    requires forall i :: 0 <= i < |items| ==> Unambiguous(items[i])
    ensures Unambiguous(Array(items))
  {
  }

  lemma {:induction false} EntriesMeasures(entries: seq<FileEntry>)
    ensures AllNodes(EntryTrees(entries)) == 12 * |entries| && MaxDepth(EntryTrees(entries)) <= 2 && Unambiguous(Array(EntryTrees(entries)))
  {
    hide Nodes, Depth, EntryTree, Unambiguous;
    forall i | 0 <= i < |entries| ensures Nodes(EntryTree(entries[i])) == 12 && Depth(EntryTree(entries[i])) <= 2 && Unambiguous(EntryTree(entries[i])) {
      EntryMeasures(entries[i]);
    }
    MaxDepthAtMost(EntryTrees(entries), 2);
    ArrayUnambiguous(EntryTrees(entries));
    if entries != [] {
      EntriesMeasures(entries[1..]);
      assert EntryTrees(entries)[1..] == EntryTrees(entries[1..]);
    }
  }

  lemma EntriesRead(entries: seq<FileEntry>)
    ensures ReadFiles(EntryTrees(entries)) == Some(RawEntries(entries))
  {
    hide EntryTree, ReadFile, RawEntry;
    forall i | 0 <= i < |entries| ensures ReadFile(EntryTree(entries[i])) == Some(RawEntry(entries[i])) {
      EntryRead(entries[i]);
    }
    var read := ReadFiles(EntryTrees(entries)).value;
    assert forall i :: 0 <= i < |entries| ==> Some(read[i]) == ReadFile(EntryTrees(entries)[i]);
    assert read == RawEntries(entries);
  }

  lemma ReportKeysAre(r: ShardReport)
    ensures KeysOf(ReportTree(r).fields) == ReportKeys()
  {
    hide EntryTrees, ErrorTexts, KeysOf, SHARD_TIMING_SCHEMA;
    var fields := ReportTree(r).fields;
    EightKeys(fields);
  }

  lemma EightKeys(fields: seq<Member>)
    requires |fields| == 8
    ensures KeysOf(fields)
      == {fields[0].key, fields[1].key, fields[2].key, fields[3].key, fields[4].key, fields[5].key, fields[6].key, fields[7].key}
  {
    hide KeysOf;
    KeysConcat(fields[..4], fields[4..]);
    assert fields == fields[..4] + fields[4..];
    FourKeys(fields[..4]);
    FourKeys(fields[4..]);
  }

  lemma FourKeys(fields: seq<Member>)
    requires |fields| == 4
    ensures KeysOf(fields) == {fields[0].key, fields[1].key, fields[2].key, fields[3].key}
  {
    KeyAt(fields, 0);
    KeyAt(fields, 1);
    KeyAt(fields, 2);
    KeyAt(fields, 3);
  }

  lemma KeysConcat(a: seq<Member>, b: seq<Member>)
    ensures KeysOf(a + b) == KeysOf(a) + KeysOf(b)
  {
    assert forall m :: m in a + b <==> m in a || m in b;
  }

  lemma ReportKeysUnique(r: ShardReport)
    ensures UniqueKeys(ReportTree(r).fields)
  {
    hide EntryTrees, ErrorTexts, SHARD_TIMING_SCHEMA;
  }

  lemma FirstFields(r: ShardReport)
    ensures var fields := ReportTree(r).fields;
      && Field(fields, CollectedItemCount) == Some(Number(r.collectedItems))
      && Field(fields, Errors) == Some(Array(ErrorTexts(r.errors, |TROUBLES|)))
      && Field(fields, ExitStatus) == Some(Number(r.exitStatus)) && Field(fields, Files) == Some(Array(EntryTrees(r.files)))
  {
    hide Field, KeysOf, EntryTrees, ErrorTexts, UniqueKeys, SHARD_TIMING_SCHEMA, TROUBLES;
    ReportKeysUnique(r);
    var fields := ReportTree(r).fields;
    FieldAt(fields, 0);
    FieldAt(fields, 1);
    FieldAt(fields, 2);
    FieldAt(fields, 3);
  }

  lemma LastFields(r: ShardReport)
    ensures var fields := ReportTree(r).fields;
      && Field(fields, PhaseReportCount) == Some(Number(r.phaseReports)) && Field(fields, RunId) == Some(Str(r.runId))
      && Field(fields, Schema) == Some(Str(SHARD_TIMING_SCHEMA)) && Field(fields, Shard) == Some(Number(r.shard))
  {
    hide Field, KeysOf, EntryTrees, ErrorTexts, UniqueKeys, SHARD_TIMING_SCHEMA, TROUBLES;
    ReportKeysUnique(r);
    var fields := ReportTree(r).fields;
    FieldAt(fields, 4);
    FieldAt(fields, 5);
    FieldAt(fields, 6);
    FieldAt(fields, 7);
  }

  /** The loader reads from a report's fields what the plugin wrote into them. */
  lemma ReportRead(r: ShardReport)
    ensures ReadReport(ReportTree(r)) == Some(Decoded(r))
  {
    hide Field, KeysOf, EntryTrees, ErrorTexts, ReadFiles, ReportKeys, RawEntries, SHARD_TIMING_SCHEMA, TROUBLES;
    ReportIsObject(r);
    hide ReportTree;
    FirstFields(r);
    LastFields(r);
    ReportKeysAre(r);
    EntriesRead(r.files);
  }

  lemma ReportIsObject(r: ShardReport)
    ensures ReportTree(r).Object?
  {
  }

  /** A report without errors has twelve values for each file and nine more, never too deep. */
  lemma ReportMeasures(r: ShardReport)
    requires r.errors == {}
    ensures Nodes(ReportTree(r)) == 9 + 12 * |r.files| && Depth(ReportTree(r)) <= MAX_DEPTH && Unambiguous(ReportTree(r))
  {
    hide Nodes, Depth, EntryTrees, Unambiguous, FieldNodes, FieldDepth, ErrorTexts, SHARD_TIMING_SCHEMA, UniqueKeys;
    var fields := ReportTree(r).fields;
    ReportValues(r);
    ReportKeysUnique(r);
    EightNodes(fields);
    FieldDepthAtMost(fields, 3);
    ObjectMeasures(fields);
    ObjectUnambiguous(fields);
  }

  lemma ReportValues(r: ShardReport)
    requires r.errors == {}
    ensures var fields := ReportTree(r).fields;
      && (forall i :: 0 <= i < 8 ==> Unambiguous(fields[i].value) && Depth(fields[i].value) <= 3)
      && (forall i :: 0 <= i < 8 ==> Nodes(fields[i].value) == if i == 3 then 1 + 12 * |r.files| else 1)
  {
    hide Nodes, Depth, EntryTrees, Unambiguous, ErrorTexts, SHARD_TIMING_SCHEMA, MaxDepth, AllNodes;
    EntriesMeasures(r.files);
    ArrayMeasures(EntryTrees(r.files));
    ArrayMeasures([]);
    NoItems();
    ArrayUnambiguous([]);
    forall j: Json | Flat(j) ensures Nodes(j) == 1 && Depth(j) == 0 && Unambiguous(j) { ScalarMeasures(j); }
  }

  lemma NoItems()
    ensures AllNodes([]) == 0 && MaxDepth([]) == 0
  {
  }

  lemma EightNodes(fields: seq<Member>)
    requires |fields| == 8
    ensures FieldNodes(fields) == Nodes(fields[0].value) + Nodes(fields[1].value) + Nodes(fields[2].value) + Nodes(fields[3].value)
      + Nodes(fields[4].value) + Nodes(fields[5].value) + Nodes(fields[6].value) + Nodes(fields[7].value)
  {
    hide Nodes, FieldNodes;
    FiveNodes(fields[3..]);
    FieldNodesConcat([fields[0]], fields[1..]);
    FieldNodesConcat([fields[1]], fields[2..]);
    FieldNodesConcat([fields[2]], fields[3..]);
    assert [fields[0]] + fields[1..] == fields && [fields[1]] + fields[2..] == fields[1..] && [fields[2]] + fields[3..] == fields[2..];
    FieldNodesOne(fields[0]);
    FieldNodesOne(fields[1]);
    FieldNodesOne(fields[2]);
  }

  // ---- within the bounds ----

  predicate WithinBounds(files: map<File, FileTiming>, items: nat, reports: nat, exitStatus: int, shard: nat) {
    && items <= MAX_COUNT && reports <= MAX_COUNT && 0 <= exitStatus <= 255 && shard <= MAX_SHARD
    && 9 + 12 * |files| <= MAX_NODES
    && forall f :: f in files ==> files[f].durations.Total() <= MAX_DURATION_NS
  }

  lemma AcceptableExactly(files: map<File, FileTiming>, owners: map<string, File>, events: seq<Event>,
                          exitStatus: int, runId: bytes, plan: ShardPlan)
    requires Balanced(files, owners, events) && Distinct(plan.testFiles) && (set f | f in plan.testFiles) == files.Keys
    requires forall f :: f in files ==> CanonicalPath(f)
    requires 9 + 12 * |files| <= MAX_NODES
    ensures Acceptable(plan, runId, exitStatus, Decoded(ReportOf(files, {}, exitStatus, runId, plan.index)))
      <==> WithinBounds(files, ItemCount(events), ReportCount(events), exitStatus, plan.index)
  {
    hide CanonicalPath, LexLess, Balanced, ItemCount, ReportCount, FileOk, SumItems, SumReports, WithinBounds, SortedFiles, SHARD_TIMING_SCHEMA, ErrorTexts;
    Conserved(files, owners, events, exitStatus, runId, plan.index);
    var entries := Entries(files, SortedKeys(files));
    SameLength(plan.testFiles, SortedKeys(files));
    if FilesOk(RawEntries(entries)) {
      EntriesBack(entries);
    }
    assert DistinctPaths(entries) && PathSet(entries) == files.Keys by { EntryPaths(files); }
    EntriesBounded(files, ItemCount(events), ReportCount(events), exitStatus, plan.index);
  }

  lemma FilesInReport(files: map<File, FileTiming>, exitStatus: int, runId: bytes, shard: nat)
    ensures |ReportOf(files, {}, exitStatus, runId, shard).files| == |files|
  {
    hide SortedFiles, SumItems, SumReports;
    SetSize(SortedKeys(files));
    assert (set f | f in SortedKeys(files)) == files.Keys;
  }

  /** The bytes that the plugin writes after an error-free run over a shard's files are accepted for
      that shard exactly when counts, exit status, shard number, number of files, each file's
      three-phase total and the length of the text are within bounds. */
  lemma ErrorFreeAccepted(files: map<File, FileTiming>, owners: map<string, File>, events: seq<Event>,
                          exitStatus: int, runId: bytes, plan: ShardPlan, codec: Codec)
    requires Balanced(files, owners, events) && Distinct(plan.testFiles) && (set f | f in plan.testFiles) == files.Keys
    requires forall f :: f in files ==> CanonicalPath(f)
    requires var report := ReportOf(files, {}, exitStatus, runId, plan.index); codec.loads(Payload(report, codec)) == Some(ReportTree(report))
    ensures var payload := Payload(ReportOf(files, {}, exitStatus, runId, plan.index), codec);
      Accepts(plan, runId, exitStatus, payload, codec)
      <==> WithinBounds(files, ItemCount(events), ReportCount(events), exitStatus, plan.index) && |payload| <= MAX_SHARD_TIMING_BYTES
  {
    hide *;
    var report := ReportOf(files, {}, exitStatus, runId, plan.index);
    NoErrors(files, exitStatus, runId, plan.index);
    FilesInReport(files, exitStatus, runId, plan.index);
    ReportMeasures(report);
    ReportRead(report);
    BoundsHoldFiles(files, ItemCount(events), ReportCount(events), exitStatus, plan.index);
    AcceptsIs(plan, runId, exitStatus, Payload(report, codec), codec);
    TheDepth();
    if 9 + 12 * |files| <= MAX_NODES { AcceptableExactly(files, owners, events, exitStatus, runId, plan); }
  }

  lemma NoErrors(files: map<File, FileTiming>, exitStatus: int, runId: bytes, shard: nat)
    ensures ReportOf(files, {}, exitStatus, runId, shard).errors == {}
  {
    hide SortedFiles, SumItems, SumReports;
  }

  lemma TheDepth()
    ensures MAX_DEPTH == 5
  {
  }

  lemma BoundsHoldFiles(files: map<File, FileTiming>, items: nat, reports: nat, exitStatus: int, shard: nat)
    ensures WithinBounds(files, items, reports, exitStatus, shard) ==> 9 + 12 * |files| <= MAX_NODES
  {
  }

  lemma AcceptsIs(plan: ShardPlan, runId: bytes, exitStatus: int, raw: bytes, codec: Codec)
    requires codec.loads(raw).Some?
    ensures var j := codec.loads(raw).value;
      Accepts(plan, runId, exitStatus, raw, codec)
      <==> |raw| <= MAX_SHARD_TIMING_BYTES && Depth(j) <= MAX_DEPTH && Nodes(j) <= MAX_NODES && Unambiguous(j)
           && ReadReport(j).Some? && Acceptable(plan, runId, exitStatus, ReadReport(j).value)
  {
    hide Acceptable, ReadReport, Depth, Nodes, Unambiguous;
  }

  lemma SameLength(a: seq<File>, b: seq<File>)
    requires Distinct(a) && Unrepeated(b) && forall f :: f in a <==> f in b
    ensures |a| == |b|
  {
    SetSize(a);
    SetSize(b);
    assert (set f | f in a) == (set f | f in b);
  }

  lemma {:induction false} SetSize(s: seq<File>)
    requires Unrepeated(s)
    ensures |set f | f in s| == |s|
  {
    if s != [] {
      var n := |s| - 1;
      SetSize(s[..n]);
      assert s == s[..n] + [s[n]];
      assert (set f | f in s) == (set f | f in s[..n]) + {s[n]};
    }
  }

  lemma EntriesBack(entries: seq<FileEntry>)
    requires FilesOk(RawEntries(entries))
    ensures EntriesFrom(RawEntries(entries)) == entries
  {
    forall i | 0 <= i < |entries| ensures EntriesFrom(RawEntries(entries))[i] == entries[i] {
      assert FileOk(RawEntries(entries)[i]);
    }
  }

  lemma EntryPaths(files: map<File, FileTiming>)
    ensures var entries := Entries(files, SortedKeys(files)); DistinctPaths(entries) && PathSet(entries) == files.Keys
  {
    hide SortedFiles;
    var keys := SortedKeys(files);
    var entries := Entries(files, keys);
    forall f ensures f in PathSet(entries) <==> f in files {
      if f in files {
        var i :| 0 <= i < |keys| && keys[i] == f;
        assert entries[i] in entries;
      }
    }
  }

  /** The loader's checks on single files come down to the bounds. */
  lemma EntriesBounded(files: map<File, FileTiming>, items: nat, reports: nat, exitStatus: int, shard: nat)
    requires forall f :: f in files ==> CanonicalPath(f)
    requires var entries := Entries(files, SortedKeys(files)); items == SumItems(entries) && reports == SumReports(entries)
    requires 9 + 12 * |files| <= MAX_NODES
    ensures var entries := Entries(files, SortedKeys(files));
      (items <= MAX_COUNT && reports <= MAX_COUNT && 0 <= exitStatus <= 255 && shard <= MAX_SHARD && FilesOk(RawEntries(entries)))
      <==> WithinBounds(files, items, reports, exitStatus, shard)
  {
    hide CanonicalPath, SortedFiles, SumOf;
    var keys := SortedKeys(files);
    var entries := Entries(files, keys);
    if items <= MAX_COUNT && reports <= MAX_COUNT {
      forall i | 0 <= i < |entries|
        ensures FileOk(RawEntries(entries)[i]) <==> files[keys[i]].durations.Total() <= MAX_DURATION_NS
      {
        SumAtLeast(entries, ItemsIn, i);
        SumAtLeast(entries, ReportsIn, i);
        assert entries[i] == EntryOf(files, keys[i]);
      }
      forall f | f in files ensures exists i :: 0 <= i < |keys| && keys[i] == f { assert f in keys; }
    }
  }
}
