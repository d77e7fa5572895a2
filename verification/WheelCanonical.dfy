/** The wheel canonicalizer: read build output, normalize generated text, regenerate the
    RECORD, write the canonical container and check it again.  Its outputs are its fixed
    points, and they depend only on the normalized contents. */
module WheelCanonical {
  import opened Outcomes
  import opened Bytes
  import opened Sorting
  import opened Struct
  import opened Text
  import opened SourceContents
  import opened Normalize
  import opened ReleaseContract
  import opened Wheel
  import opened WheelRecords

  /** What one canonicalization is given besides the archive.  `row` is the RECORD line of a
      file (name, digest and size) and `lastRow` the line of RECORD itself; `text` names the
      generated files of the metadata directory whose line endings are normalized. */
  datatype WheelBuild = WheelBuild(
    timestamp: int,
    stamp: Stamp,
    policy: NamePolicy,
    text: set<bytes>,
    row: (bytes, bytes) -> bytes,
    lastRow: bytes -> bytes,
    inflate: Inflater)

  /** `.dist-info` and `RECORD` */
  const DIST_INFO: bytes := [0x2e, 0x64, 0x69, 0x73, 0x74, 0x2d, 0x69, 0x6e, 0x66, 0x6f]
  const RECORD_FILE: bytes := [0x52, 0x45, 0x43, 0x4f, 0x52, 0x44]

  // ---- normalized entries ----

  predicate EntryLess(a: WheelEntry, b: WheelEntry) {
    LexLess(a.name, b.name)
  }

  /** `_wheel_generated_relative` */
  function GeneratedRelative(name: bytes): Option<bytes> {
    var parts := Split(name, SLASH);
    if |parts| == 2 && EndsWith(parts[0], DIST_INFO) then Some(parts[1]) else None
  }

  predicate IsRecord(e: WheelEntry) {
    GeneratedRelative(e.name) == Some(RECORD_FILE)
  }

  function LfEntry(e: WheelEntry, text: set<bytes>): (r: WheelEntry)
    ensures r.name == e.name
  {
    var relative := GeneratedRelative(e.name);
    if relative.Some? && relative.value in text then WheelEntry(e.name, CanonicalLf(e.payload)) else e
  }

  function LfEntries(entries: seq<WheelEntry>, text: set<bytes>): (r: seq<WheelEntry>)
    ensures |r| == |entries| && forall i :: 0 <= i < |r| ==> r[i] == LfEntry(entries[i], text)
  {
    seq(|entries|, i requires 0 <= i < |entries| => LfEntry(entries[i], text))
  }

  function Records(entries: seq<WheelEntry>): seq<WheelEntry> {
    if entries == [] then []
    else (if IsRecord(entries[0]) then [entries[0]] else []) + Records(entries[1..])
  }

  function Others(entries: seq<WheelEntry>): seq<WheelEntry> {
    if entries == [] then []
    else (if IsRecord(entries[0]) then [] else [entries[0]]) + Others(entries[1..])
  }

  function Rows(entries: seq<WheelEntry>, row: (bytes, bytes) -> bytes): bytes {
    if entries == [] then [] else row(entries[0].name, entries[0].payload) + Rows(entries[1..], row)
  }

  /** `_canonical_wheel_record_payload` for the one RECORD of the wheel */
  function RecordPayload(record: bytes, entries: seq<WheelEntry>, build: WheelBuild): bytes {
    Rows(Sort(Others(entries), EntryLess), build.row) + build.lastRow(record)
  }

  function WithRecord(entries: seq<WheelEntry>, payload: bytes): (r: seq<WheelEntry>)
    ensures |r| == |entries|
    ensures forall i :: 0 <= i < |r| ==>
      r[i] == (if IsRecord(entries[i]) then WheelEntry(entries[i].name, payload) else entries[i])
  {
    seq(|entries|, i requires 0 <= i < |entries| =>
      if IsRecord(entries[i]) then WheelEntry(entries[i].name, payload) else entries[i])
  }

  /** The contents of the canonical wheel, before they are put in order. */
  function NormalizedWheel(entries: seq<WheelEntry>, build: WheelBuild): Option<seq<WheelEntry>> {
    var plain := LfEntries(entries, build.text);
    var records := Records(plain);
    if |records| > 1 then None
    else if |records| == 0 then Some(plain)
    else Some(WithRecord(plain, RecordPayload(records[0].name, plain, build)))
  }

  /** `_canonical_wheel_entries` */
  function CanonicalEntries(entries: seq<WheelEntry>, build: WheelBuild): Option<seq<WheelEntry>> {
    var normalized := NormalizedWheel(entries, build);
    if normalized.None? then None else Some(Sort(normalized.value, EntryLess))
  }

  // ---- reading a wheel ----

  function Named(infos: seq<ZipInfo>, payloads: seq<bytes>): (entries: seq<WheelEntry>)
    requires |infos| == |payloads|
    ensures |entries| == |infos|
    ensures forall i :: 0 <= i < |entries| ==> entries[i] == WheelEntry(infos[i].safe, payloads[i])
  {
    seq(|infos|, i requires 0 <= i < |infos| => WheelEntry(infos[i].safe, payloads[i]))
  }

  /** `_validate_source_zip_info` beyond the record checks: the stored name is the safe one. */
  predicate StoredNames(infos: seq<ZipInfo>) {
    forall i :: 0 <= i < |infos| ==> infos[i].safe == infos[i].name
  }

  /** The members of an acceptable wheel. */
  function Contents(raw: bytes, build: WheelBuild): Option<seq<WheelEntry>> {
    var d := DirectoryContract(raw);
    if d.Err? then None
    else
      var infos := Preflight(raw, d.value, build.stamp, build.policy, false, None);
      if infos.None? || !StoredNames(infos.value) then None
      else
        var payloads := LocalPayloads(raw[..d.value.offset], 0, infos.value, build.stamp, build.inflate);
        if payloads.None? then None else Some(Named(infos.value, payloads.value))
  }

  /** `c` passes the checks made on a finished canonical container. */
  predicate CanonicalChecks(c: bytes, build: WheelBuild) {
    && |c| <= MAX_ARTIFACT_BYTES && DirectoryContract(c).Ok?
    && Preflight(c, DirectoryContract(c).value, build.stamp, build.policy, true, Some(STORED)).Some?
  }

  const EPOCH_1980: int := 315_532_800

  predicate TimeOk(build: WheelBuild) {
    EPOCH_1980 <= build.timestamp < 0x1_0000_0000
  }

  /** The canonical form of a wheel. */
  function Canonical(raw: bytes, build: WheelBuild): Option<bytes> {
    var contents := Contents(raw, build);
    if !TimeOk(build) || contents.None? then None
    else
      var entries := CanonicalEntries(contents.value, build);
      if entries.None? || !WheelFits(entries.value, build.stamp) then None
      else
        var c := WheelImage(entries.value, build.stamp);
        if CanonicalChecks(c, build) then Some(c) else None
  }

  // ---- what canonicalization keeps, said of the members before and after alone ----

  /** `name` is this file of a metadata directory. */
  predicate MetadataFile(name: bytes, file: bytes) {
    exists k :: 10 <= k < |name| && name[k] == SLASH && SLASH !in name[..k] && SLASH !in name[k + 1..]
      && name[k - 10..k] == DIST_INFO && file == name[k + 1..]
  }

  /** The rows of all members but RECORD, in the order of the members. */
  function RowsBut(entries: seq<WheelEntry>, record: bytes, row: (bytes, bytes) -> bytes): bytes {
    if entries == [] then []
    else (if entries[0].name == record then [] else row(entries[0].name, entries[0].payload)) + RowsBut(entries[1..], record, row)
  }

  /** RECORD is regenerated, generated text keeps its lines, and every other member keeps its bytes. */
  ghost predicate MemberKept(before: WheelEntry, after: WheelEntry, entries: seq<WheelEntry>, build: WheelBuild) {
    if MetadataFile(before.name, RECORD_FILE) then
      after.payload == RowsBut(entries, after.name, build.row) + build.lastRow(after.name)
    else if exists file :: MetadataFile(before.name, file) && file in build.text then SameLines(before.payload, after.payload)
    else after.payload == before.payload
  }

  /** Each member before has its one member after, under the same name, there are no others, and they
      are in name order. */
  ghost predicate MembersKept(before: seq<WheelEntry>, after: seq<WheelEntry>, build: WheelBuild) {
    && |after| == |before| && (forall i, j :: 0 <= i < j < |after| ==> Precedes(after[i].name, after[j].name))
    && (forall e :: e in before ==> exists e' :: e' in after && e'.name == e.name && MemberKept(e, e', after, build))
    && (forall e' :: e' in after ==> exists e :: e in before && e'.name == e.name && MemberKept(e, e', after, build))
  }

  ghost predicate SameMembers(raw: bytes, c: bytes, build: WheelBuild) {
    && Contents(raw, build).Some? && Contents(c, build).Some?
    && MembersKept(Contents(raw, build).value, Contents(c, build).value, build)
  }

  lemma GeneratedMeans(name: bytes, file: bytes)
    ensures MetadataFile(name, file) <==> GeneratedRelative(name) == Some(file)
  {
    var at := Find(name, SLASH, 0);
    if at < |name| {
      var rest := name[at + 1..];
      OnePart(rest);
      assert Split(name, SLASH) == [name[..at]] + Split(rest, SLASH);
      assert SLASH !in name[..at];
      if at >= 10 { assert name[..at][at - 10..] == name[at - 10..at]; }
      if k :| 10 <= k < |name| && name[k] == SLASH && SLASH !in name[..k] && SLASH !in name[k + 1..] && file == name[k + 1..] {
        assert forall i :: 0 <= i < k ==> name[i] == name[..k][i] && name[..k][i] in name[..k];
        assert k == at;
      }
    }
  }

  lemma OnePart(s: bytes)
    ensures |Split(s, SLASH)| == 1 <==> SLASH !in s
    ensures SLASH !in s ==> Split(s, SLASH)[0] == s
  {
    var at := Find(s, SLASH, 0);
  }

  /** `canonicalize_wheel_bytes` */
  method CanonicalizeWheelBytes(raw: bytes, build: WheelBuild) returns (r: Result<bytes>)
    ensures r.Ok? <==> Canonical(raw, build).Some?
    ensures r.Ok? ==> Canonical(raw, build) == Some(r.value) && SameMembers(raw, r.value, build)
  {
    hide DirectoryContract, Preflight, LocalPayloads, CanonicalEntries, WheelFits, WheelImage, SameMembers;
    if build.timestamp < EPOCH_1980 || build.timestamp >= 0x1_0000_0000 {
      return Err("canonical archive timestamp is out of range");
    }
    var d := DirectoryContract(raw);
    if d.Err? {
      return Err(d.reason);
    }
    var infos := PreflightSourceZipRecords(raw, d.value, build.stamp, build.policy, false, None);
    if infos.Err? {
      return Err(infos.reason);
    }
    if !StoredNames(infos.value) {
      return Err("wheel contains a noncanonical file name");
    }
    var payloads := ValidateZipLocalRecords(raw, infos.value, d.value.offset, build.stamp, build.inflate);
    if payloads.Err? {
      return Err(payloads.reason);
    }
    var entries := CanonicalEntries(Named(infos.value, payloads.value), build);
    if entries.None? {
      return Err("wheel source contains more than one generated RECORD");
    }
    var canonical := CanonicalWheelPayload(entries.value, build.stamp);
    if canonical.Err? {
      return canonical;
    }
    if |canonical.value| > MAX_ARTIFACT_BYTES {
      return Err("canonical wheel exceeds the artifact size limit");
    }
    var directory := DirectoryContract(canonical.value);
    if directory.Err? {
      return Err(directory.reason);
    }
    var checked := PreflightSourceZipRecords(canonical.value, directory.value, build.stamp, build.policy, true, Some(STORED));
    if checked.Err? {
      return Err(checked.reason);
    }
    CanonicalWheelKeeps(raw, canonical.value, build);
    return canonical;
  }

  // ---- idempotence of the contents ----

  lemma {:induction false} RecordsAre(entries: seq<WheelEntry>, e: WheelEntry)
    ensures e in Records(entries) <==> e in entries && IsRecord(e)
    ensures e in Others(entries) <==> e in entries && !IsRecord(e)
  {
    hide IsRecord;
    if entries != [] {
      RecordsAre(entries[1..], e);
      assert entries == [entries[0]] + entries[1..];
    }
  }

  ghost predicate NamesDistinct(entries: seq<WheelEntry>) {
    forall i, j :: 0 <= i < j < |entries| ==> entries[i].name != entries[j].name
  }

  lemma {:induction false} OthersDistinct(entries: seq<WheelEntry>)
    requires NamesDistinct(entries)
    ensures NamesDistinct(Others(entries))
    ensures NamesDistinct(Records(entries))
  {
    hide IsRecord;
    if entries != [] {
      var rest := entries[1..];
      OthersDistinct(rest);
      forall i | 0 <= i < |Others(rest)| ensures Others(rest)[i].name != entries[0].name {
        RecordsAre(rest, Others(rest)[i]);
        assert Others(rest)[i] in rest;
      }
      forall i | 0 <= i < |Records(rest)| ensures Records(rest)[i].name != entries[0].name {
        RecordsAre(rest, Records(rest)[i]);
        assert Records(rest)[i] in rest;
      }
    }
  }

  lemma EntryOrder()
    ensures StrictOrder(EntryLess)
  {
    hide LexLess;
    forall a: WheelEntry ensures !EntryLess(a, a) { LexTrichotomy(a.name, a.name); }
    forall a, b, c | EntryLess(a, b) && EntryLess(b, c) ensures EntryLess(a, c) { LexTransitive(a.name, b.name, c.name); }
  }

  lemma DistinctEntries(entries: seq<WheelEntry>)
    requires NamesDistinct(entries)
    ensures Distinct(entries) && Comparable(entries, EntryLess)
  {
    hide LexLess;
    forall x, y | x in entries && y in entries
      ensures x == y || EntryLess(x, y) || EntryLess(y, x)
    {
      var i :| 0 <= i < |entries| && entries[i] == x;
      var j :| 0 <= j < |entries| && entries[j] == y;
      LexTrichotomy(x.name, y.name);
      assert i < j ==> x.name != y.name;
      assert j < i ==> y.name != x.name;
    }
  }

  /** The regenerated RECORD depends only on which other members there are. */
  lemma SameRecordPayload(record: bytes, a: seq<WheelEntry>, b: seq<WheelEntry>, build: WheelBuild)
    requires NamesDistinct(a) && NamesDistinct(b)
    requires forall e :: !IsRecord(e) ==> (e in a <==> e in b)
    ensures RecordPayload(record, a, build) == RecordPayload(record, b, build)
  {
    hide IsRecord, Sort, Rows, LexLess;
    EntryOrder();
    OthersDistinct(a);
    OthersDistinct(b);
    DistinctEntries(Others(a));
    DistinctEntries(Others(b));
    forall e ensures e in Others(a) <==> e in Others(b) {
      RecordsAre(a, e);
      RecordsAre(b, e);
    }
    SortOrderFree(Others(a), Others(b), EntryLess);
  }

  lemma LfEntryIdempotent(e: WheelEntry, text: set<bytes>)
    ensures LfEntry(LfEntry(e, text), text) == LfEntry(e, text)
  {
    LfIdempotent(e.payload);
  }

  lemma OneRecord(entries: seq<WheelEntry>, i: nat)
    requires |Records(entries)| <= 1 && i < |entries| && IsRecord(entries[i])
    ensures |Records(entries)| == 1 && Records(entries)[0] == entries[i]
  {
    RecordsAre(entries, entries[i]);
  }

  /** Normalization keeps the names, and which member is the RECORD. */
  lemma NormalizedNames(entries: seq<WheelEntry>, build: WheelBuild)
    requires NormalizedWheel(entries, build).Some?
    ensures var n := NormalizedWheel(entries, build).value;
      |n| == |entries| && forall i :: 0 <= i < |n| ==> n[i].name == entries[i].name
  {
    hide LfEntry, IsRecord, RecordPayload;
    var plain := LfEntries(entries, build.text);
    assert forall i :: 0 <= i < |plain| ==> plain[i].name == entries[i].name;
  }

  /** A stored member is unchanged by normalization, except that RECORD is regenerated. */
  lemma StoredMember(entries: seq<WheelEntry>, build: WheelBuild, e: WheelEntry)
    requires NormalizedWheel(entries, build).Some? && e in NormalizedWheel(entries, build).value
    ensures !IsRecord(e) ==> LfEntry(e, build.text) == e && e in LfEntries(entries, build.text)
    ensures IsRecord(e) ==> exists record ::
      (record in Records(LfEntries(entries, build.text)) && record.name == e.name
       && e.payload == RecordPayload(record.name, LfEntries(entries, build.text), build))
  {
    hide RecordPayload, Records, Others, CanonicalLf;
    var plain := LfEntries(entries, build.text);
    var n := NormalizedWheel(entries, build).value;
    var i :| 0 <= i < |n| && n[i] == e;
    LfEntryIdempotent(entries[i], build.text);
    assert plain[i] in plain;
    RecordsAre(plain, plain[i]);
    if IsRecord(plain[i]) { OneRecord(plain, i); }
  }

  lemma StoredKeeps(entries: seq<WheelEntry>, build: WheelBuild, e: WheelEntry)
    requires NormalizedWheel(entries, build).Some? && !IsRecord(e) && e in LfEntries(entries, build.text)
    ensures e in NormalizedWheel(entries, build).value
  {
    hide RecordPayload, LfEntry, IsRecord;
    var plain := LfEntries(entries, build.text);
    var i :| 0 <= i < |plain| && plain[i] == e;
    assert NormalizedWheel(entries, build).value[i] == e;
  }

  lemma SortedNamesDistinct(entries: seq<WheelEntry>)
    requires NamesDistinct(entries)
    ensures Sorted(Sort(entries, EntryLess), EntryLess) && NamesDistinct(Sort(entries, EntryLess))
  {
    hide LexLess, Sort;
    EntryOrder();
    DistinctEntries(entries);
    SortSorted(entries, EntryLess);
    var s := Sort(entries, EntryLess);
    forall i, j | 0 <= i < j < |s| ensures s[i].name != s[j].name {
      assert EntryLess(s[i], s[j]);
      LexTrichotomy(s[i].name, s[i].name);
    }
  }

  /** Canonical contents are a fixed point of normalization. */
  lemma CanonicalEntriesFixed(entries: seq<WheelEntry>, build: WheelBuild)
    requires NamesDistinct(entries) && CanonicalEntries(entries, build).Some?
    ensures CanonicalEntries(CanonicalEntries(entries, build).value, build) == CanonicalEntries(entries, build)
  {
    hide RecordPayload, LfEntry, IsRecord, Sort, LexLess, Records, Others;
    var plain := LfEntries(entries, build.text);
    var n := NormalizedWheel(entries, build).value;
    var s := Sort(n, EntryLess);
    NormalizedNames(entries, build);
    assert NamesDistinct(n) && NamesDistinct(plain);
    SortedNamesDistinct(n);
    SortMembers(n, EntryLess);
    var plainAgain := LfEntries(s, build.text);
    RecordsAgree(entries, build, s);
    forall i | 0 <= i < |s| && !IsRecord(s[i])
      ensures plainAgain[i] == s[i]
    {
      assert s[i] in n;
      StoredMember(entries, build, s[i]);
    }
    NormalizedAgain(entries, build, s);
    EntryOrder();
    SortIdempotent(s, EntryLess);
  }

  lemma RecordIsByName(a: WheelEntry, b: WheelEntry)
    requires a.name == b.name
    ensures IsRecord(a) <==> IsRecord(b)
  {
  }

  lemma RecordsAgree(entries: seq<WheelEntry>, build: WheelBuild, s: seq<WheelEntry>)
    requires NamesDistinct(entries) && NormalizedWheel(entries, build).Some? && NamesDistinct(s)
    requires forall e :: e in s <==> e in NormalizedWheel(entries, build).value
    ensures |Records(LfEntries(s, build.text))| <= 1
  {
    hide RecordPayload, LfEntry, IsRecord, LexLess, Records, Others;
    var again := LfEntries(s, build.text);
    var records := Records(again);
    assert NamesDistinct(again);
    OthersDistinct(again);
    if |records| >= 2 {
      assert records[0].name != records[1].name;
      RecordOrigin(entries, build, s, records[0]);
      RecordOrigin(entries, build, s, records[1]);
    }
  }

  /** A RECORD read back comes from the one RECORD there was. */
  lemma RecordOrigin(entries: seq<WheelEntry>, build: WheelBuild, s: seq<WheelEntry>, r: WheelEntry)
    requires NormalizedWheel(entries, build).Some? && r in Records(LfEntries(s, build.text))
    requires forall e :: e in s <==> e in NormalizedWheel(entries, build).value
    ensures var records := Records(LfEntries(entries, build.text)); |records| == 1 && records[0].name == r.name
  {
    hide RecordPayload, LfEntry, IsRecord, Records, Others;
    var again := LfEntries(s, build.text);
    RecordsAre(again, r);
    var i :| 0 <= i < |again| && again[i] == r;
    RecordIsByName(s[i], r);
    assert s[i] in s;
    StoredMember(entries, build, s[i]);
    var record :| record in Records(LfEntries(entries, build.text)) && record.name == s[i].name;
  }

  lemma NormalizedAgain(entries: seq<WheelEntry>, build: WheelBuild, s: seq<WheelEntry>)
    requires NamesDistinct(entries) && NormalizedWheel(entries, build).Some? && NamesDistinct(s)
    requires forall e :: e in s <==> e in NormalizedWheel(entries, build).value
    requires |Records(LfEntries(s, build.text))| <= 1
    requires forall i :: 0 <= i < |s| && !IsRecord(s[i]) ==> LfEntries(s, build.text)[i] == s[i]
    ensures NormalizedWheel(s, build) == Some(s)
  {
    hide RecordPayload, LfEntry, IsRecord, LexLess, Records, Others;
    var plain, again := LfEntries(entries, build.text), LfEntries(s, build.text);
    var records := Records(again);
    assert NamesDistinct(plain) && NamesDistinct(again);
    forall e | !IsRecord(e)
      ensures e in plain <==> e in again
    {
      if e in plain {
        StoredKeeps(entries, build, e);
        var i :| 0 <= i < |s| && s[i] == e;
        assert again[i] == e;
      }
      if e in again {
        var i :| 0 <= i < |again| && again[i] == e;
        RecordIsByName(s[i], e);
        StoredMember(entries, build, s[i]);
      }
    }
    var n := NormalizedWheel(s, build).value;
    forall i | 0 <= i < |s|
      ensures n[i] == s[i]
    {
      RecordIsByName(s[i], again[i]);
      if IsRecord(again[i]) {
        OneRecord(again, i);
        StoredMember(entries, build, s[i]);
        var record :| record in Records(plain) && record.name == s[i].name
          && s[i].payload == RecordPayload(record.name, plain, build);
        SameRecordPayload(s[i].name, plain, again, build);
      }
    }
    assert n == s;
  }

  // ---- the theorems ----

  lemma AcceptedNames(raw: bytes, build: WheelBuild)
    requires Contents(raw, build).Some?
    ensures var entries := Contents(raw, build).value;
      NamesDistinct(entries) && forall i :: 0 <= i < |entries| ==> SafeName(entries[i].name, build.policy)
  {
    hide CentralRecords, LocalPayloads, DirectoryContract, SafeReleaseName, Alias, ValidUtf8, PrefixCollision, OneMethod, BudgetOk;
    var d := DirectoryContract(raw).value;
    var infos := Preflight(raw, d, build.stamp, build.policy, false, None).value;
    var entries := Contents(raw, build).value;
    forall i, j | 0 <= i < j < |entries|
      ensures entries[i].name != entries[j].name
    {
      assert Alias(infos[i].safe, build.policy) != Alias(infos[j].safe, build.policy);
    }
  }

  lemma SortedSafe(entries: seq<WheelEntry>, build: WheelBuild)
    requires NamesDistinct(entries) && forall i :: 0 <= i < |entries| ==> SafeName(entries[i].name, build.policy)
    requires CanonicalEntries(entries, build).Some?
    ensures var s := CanonicalEntries(entries, build).value;
      NamesDistinct(s) && forall i :: 0 <= i < |s| ==> SafeName(s[i].name, build.policy)
  {
    hide SafeName, NormalizedWheel, Sort, LexLess;
    var n := NormalizedWheel(entries, build).value;
    NormalizedNames(entries, build);
    SortedNamesDistinct(n);
    SortMembers(n, EntryLess);
    var s := Sort(n, EntryLess);
    forall i | 0 <= i < |s|
      ensures SafeName(s[i].name, build.policy)
    {
      assert s[i] in n;
      var j :| 0 <= j < |n| && n[j] == s[i];
      assert SafeName(entries[j].name, build.policy);
    }
  }

  lemma {:induction false} NamedBack(entries: seq<WheelEntry>, stamp: Stamp, offset: nat)
    ensures Named(InfosOf(entries, stamp, offset), PayloadsOf(entries)) == entries
    ensures StoredNames(InfosOf(entries, stamp, offset))
  {
    hide LocalImage;
    if entries != [] {
      var next := offset + |LocalImage(entries[0], stamp)|;
      NamedBack(entries[1..], stamp, next);
      var named := Named(InfosOf(entries, stamp, offset), PayloadsOf(entries));
      assert named[0] == entries[0];
      assert named[1..] == Named(InfosOf(entries[1..], stamp, next), PayloadsOf(entries[1..]));
      assert entries == [entries[0]] + entries[1..];
    }
  }

  /** What a written container of these entries is read as. */
  lemma WrittenDirectory(entries: seq<WheelEntry>, build: WheelBuild, requireSorted: bool, expected: Option<nat>)
    requires WheelFits(entries, build.stamp) && DirectoryContract(WheelImage(entries, build.stamp)).Ok?
    requires forall i :: 0 <= i < |entries| ==> SafeName(entries[i].name, build.policy)
    ensures var c, infos := WheelImage(entries, build.stamp), InfosOf(entries, build.stamp, 0);
      Preflight(c, DirectoryContract(c).value, build.stamp, build.policy, requireSorted, expected)
      == if DirectoryOk(infos, build.policy, requireSorted, expected) then Some(infos) else None
  {
    hide DirectoryContract, CentralRecords, SafeName, RecordsFit, LocalImages, CentralImages, DirectoryOk, InfosOf, Fits;
    var stamp := build.stamp;
    var c := WheelImage(entries, stamp);
    var locals, centrals := LocalImages(entries, stamp), CentralImages(entries, stamp, 0);
    DirectoryReads(entries, stamp);
    var d := DirectoryContract(c).value;
    assert c[d.offset..d.eocd] == centrals;
    CentralReads(entries, stamp, 0, d.offset, build.policy);
  }

  /** Written entries whose end record is readable pass the checks on a finished container
      exactly when the entries are within budget, differ in their aliases, hide no file behind a
      directory and stand in order; and then the container reads back as those entries. */
  lemma WheelReadsBack(entries: seq<WheelEntry>, build: WheelBuild)
    requires WheelFits(entries, build.stamp)
    requires forall i :: 0 <= i < |entries| ==> SafeName(entries[i].name, build.policy)
    ensures var c := WheelImage(entries, build.stamp);
      && (CanonicalChecks(c, build) <==>
            1 <= |entries| <= MAX_ARCHIVE_MEMBERS && |c| <= MAX_ARTIFACT_BYTES && EndRecordClean(EndOf(entries, build.stamp))
            && DirectoryOk(InfosOf(entries, build.stamp, 0), build.policy, true, Some(STORED)))
      && (CanonicalChecks(c, build) ==> Contents(c, build) == Some(entries))
  {
    hide *;
    var stamp := build.stamp;
    var c := WheelImage(entries, stamp);
    DirectoryReads(entries, stamp);
    ChecksAre(c, build);
    if DirectoryContract(c).Ok? {
      WrittenDirectory(entries, build, true, Some(STORED));
      WrittenDirectory(entries, build, false, None);
      WrittenLocals(entries, build);
      NamedBack(entries, stamp, 0);
      LooserIsOk(InfosOf(entries, stamp, 0), build.policy);
      ContentsAre(c, build, InfosOf(entries, stamp, 0), PayloadsOf(entries));
    }
  }

  lemma ChecksAre(c: bytes, build: WheelBuild)
    ensures CanonicalChecks(c, build) <==>
      && |c| <= MAX_ARTIFACT_BYTES && DirectoryContract(c).Ok?
      && Preflight(c, DirectoryContract(c).value, build.stamp, build.policy, true, Some(STORED)).Some?
  {
    hide DirectoryContract, Preflight;
  }

  lemma LooserIsOk(infos: seq<ZipInfo>, policy: NamePolicy)
    ensures DirectoryOk(infos, policy, true, Some(STORED)) ==> DirectoryOk(infos, policy, false, None)
  {
    hide BudgetOk, AliasesUnique, PrefixCollision, NamesSorted;
  }

  lemma ContentsAre(c: bytes, build: WheelBuild, infos: seq<ZipInfo>, payloads: seq<bytes>)
    requires |infos| == |payloads| && DirectoryContract(c).Ok? && StoredNames(infos)
    requires LocalPayloads(c[..DirectoryContract(c).value.offset], 0, infos, build.stamp, build.inflate) == Some(payloads)
    ensures Preflight(c, DirectoryContract(c).value, build.stamp, build.policy, false, None) == Some(infos) ==>
      Contents(c, build) == Some(Named(infos, payloads))
  {
    hide DirectoryContract, Preflight, LocalPayloads, StoredNames, Named;
  }

  lemma WrittenLocals(entries: seq<WheelEntry>, build: WheelBuild)
    requires WheelFits(entries, build.stamp) && DirectoryContract(WheelImage(entries, build.stamp)).Ok?
    ensures var c := WheelImage(entries, build.stamp);
      var d := DirectoryContract(c).value;
      d.offset <= |c|
      && LocalPayloads(c[..d.offset], 0, InfosOf(entries, build.stamp, 0), build.stamp, build.inflate) == Some(PayloadsOf(entries))
  {
    hide DirectoryContract, LocalPayloads, RecordsFit, LocalImages, CentralImages, InfosOf, PayloadsOf, Fits;
    DirectoryReads(entries, build.stamp);
    LocalReads(entries, build.stamp, 0, build.inflate);
    var c := WheelImage(entries, build.stamp);
    assert c[..|LocalImages(entries, build.stamp)|] == LocalImages(entries, build.stamp);
  }

  /** Canonical output is a fixed point: what the canonicalizer returns, it accepts, and
      returns unchanged. */
  lemma CanonicalWheelIsFixedPoint(raw: bytes, c: bytes, build: WheelBuild)
    requires Canonical(raw, build) == Some(c)
    ensures Canonical(c, build) == Some(c)
  {
    hide Contents, CanonicalEntries, WheelFits, WheelImage, CanonicalChecks, SafeName;
    var entries := Contents(raw, build).value;
    AcceptedNames(raw, build);
    SortedSafe(entries, build);
    var stored := CanonicalEntries(entries, build).value;
    CanonicalEntriesFixed(entries, build);
    WheelReadsBack(stored, build);
  }

  // ---- contents ----

  lemma {:induction false} OthersSorted(s: seq<WheelEntry>)
    requires Sorted(s, EntryLess)
    ensures Sorted(Others(s), EntryLess)
  {
    hide IsRecord, EntryLess;
    if s != [] {
      var rest := s[1..];
      assert forall i :: 0 <= i < |rest| ==> rest[i] == s[i + 1];
      OthersSorted(rest);
      forall i | 0 <= i < |Others(rest)| ensures EntryLess(s[0], Others(rest)[i]) {
        RecordsAre(rest, Others(rest)[i]);
        var j :| 0 <= j < |rest| && rest[j] == Others(rest)[i];
        assert s[j + 1] == rest[j];
      }
    }
  }

  lemma {:induction false} RowsOfOthers(s: seq<WheelEntry>, record: bytes, row: (bytes, bytes) -> bytes)
    requires forall i :: 0 <= i < |s| ==> (IsRecord(s[i]) <==> s[i].name == record)
    ensures Rows(Others(s), row) == RowsBut(s, record, row)
  {
    hide IsRecord;
    if s != [] {
      var rest := s[1..];
      assert forall i :: 0 <= i < |rest| ==> rest[i] == s[i + 1];
      RowsOfOthers(rest, record, row);
      if IsRecord(s[0]) {
        assert [] + Others(rest) == Others(rest) && [] + RowsBut(rest, record, row) == RowsBut(rest, record, row);
      } else {
        assert ([s[0]] + Others(rest))[1..] == Others(rest);
      }
    }
  }

  /** The stored RECORD lists the stored members. */
  lemma StoredRecord(entries: seq<WheelEntry>, build: WheelBuild, e: WheelEntry)
    requires NamesDistinct(entries) && NormalizedWheel(entries, build).Some?
    requires e in NormalizedWheel(entries, build).value && IsRecord(e)
    ensures var s := Sort(NormalizedWheel(entries, build).value, EntryLess);
      e.payload == RowsBut(s, e.name, build.row) + build.lastRow(e.name)
  {
    hide LfEntry, IsRecord, Sort, Records, Others, Rows, RowsBut, NormalizedWheel, LexLess;
    var plain, n := LfEntries(entries, build.text), NormalizedWheel(entries, build).value;
    var s := Sort(n, EntryLess);
    StoredMember(entries, build, e);
    var record :| record in Records(plain) && record.name == e.name && e.payload == RecordPayload(record.name, plain, build);
    NormalizedNames(entries, build);
    assert NamesDistinct(n) && NamesDistinct(plain);
    SortedNamesDistinct(n);
    SortMembers(n, EntryLess);
    forall x | !IsRecord(x) ensures x in plain <==> x in s {
      if x in plain { StoredKeeps(entries, build, x); }
      if x in n { StoredMember(entries, build, x); }
    }
    SameRecordPayload(e.name, plain, s, build);
    EntryOrder();
    OthersSorted(s);
    SortIdempotent(Others(s), EntryLess);
    OnlyRecord(entries, build, s, e);
    RowsOfOthers(s, e.name, build.row);
  }

  lemma OnlyRecord(entries: seq<WheelEntry>, build: WheelBuild, s: seq<WheelEntry>, e: WheelEntry)
    requires NormalizedWheel(entries, build).Some? && e in NormalizedWheel(entries, build).value && IsRecord(e)
    requires forall x :: x in s <==> x in NormalizedWheel(entries, build).value
    ensures forall i :: 0 <= i < |s| ==> (IsRecord(s[i]) <==> s[i].name == e.name)
  {
    hide LfEntry, IsRecord, Others, RecordPayload, Records;
    StoredMember(entries, build, e);
    HasOneRecord(entries, build);
    forall i | 0 <= i < |s| ensures IsRecord(s[i]) <==> s[i].name == e.name {
      assert s[i] in s;
      StoredMember(entries, build, s[i]);
      if s[i].name == e.name { RecordIsByName(s[i], e); }
    }
  }

  lemma HasOneRecord(entries: seq<WheelEntry>, build: WheelBuild)
    requires NormalizedWheel(entries, build).Some?
    ensures |Records(LfEntries(entries, build.text))| <= 1
  {
    hide Records, LfEntries, RecordPayload;
  }

  lemma MemberIsKept(entries: seq<WheelEntry>, build: WheelBuild, i: nat)
    requires NamesDistinct(entries) && NormalizedWheel(entries, build).Some? && i < |entries|
    ensures |NormalizedWheel(entries, build).value| == |entries|
    ensures var n := NormalizedWheel(entries, build).value;
      n[i].name == entries[i].name && MemberKept(entries[i], n[i], Sort(n, EntryLess), build)
  {
    hide MetadataFile, GeneratedRelative, Sort, RowsBut, CanonicalLf, SameLines, Records, RecordPayload;
    var n := NormalizedWheel(entries, build).value;
    NormalizedNames(entries, build);
    assert n[i] in n;
    GeneratedMeans(entries[i].name, RECORD_FILE);
    if IsRecord(n[i]) {
      StoredRecord(entries, build, n[i]);
    } else {
      LfKeepsLines(entries[i].payload);
      forall file ensures MetadataFile(entries[i].name, file) <==> GeneratedRelative(entries[i].name) == Some(file) {
        GeneratedMeans(entries[i].name, file);
      }
    }
  }

  lemma CanonicalEntriesKeep(entries: seq<WheelEntry>, build: WheelBuild)
    requires NamesDistinct(entries) && CanonicalEntries(entries, build).Some?
    ensures MembersKept(entries, CanonicalEntries(entries, build).value, build)
  {
    hide MemberKept, NormalizedWheel, Sort, LexLess, Precedes;
    var n := NormalizedWheel(entries, build).value;
    var s := Sort(n, EntryLess);
    NormalizedNames(entries, build);
    assert NamesDistinct(n);
    SortedNamesDistinct(n);
    SortKeeps(n, EntryLess);
    SortMembers(n, EntryLess);
    forall i, j | 0 <= i < j < |s| ensures Precedes(s[i].name, s[j].name) {
      assert EntryLess(s[i], s[j]);
      LexIsPrecedes(s[i].name, s[j].name);
    }
    forall e | e in entries ensures exists e' :: e' in s && e'.name == e.name && MemberKept(e, e', s, build) {
      var i :| 0 <= i < |entries| && entries[i] == e;
      MemberIsKept(entries, build, i);
      assert n[i] in n;
    }
    forall e' | e' in s ensures exists e :: e in entries && e'.name == e.name && MemberKept(e, e', s, build) {
      var i :| 0 <= i < |n| && n[i] == e';
      MemberIsKept(entries, build, i);
      assert entries[i] in entries;
    }
  }

  /** Canonicalization keeps the contents of a wheel. */
  lemma CanonicalWheelKeeps(raw: bytes, c: bytes, build: WheelBuild)
    requires Canonical(raw, build) == Some(c)
    ensures SameMembers(raw, c, build)
  {
    hide Contents, CanonicalEntries, WheelFits, WheelImage, CanonicalChecks, SafeName, MembersKept;
    var entries := Contents(raw, build).value;
    AcceptedNames(raw, build);
    SortedSafe(entries, build);
    CanonicalEntriesKeep(entries, build);
    WheelReadsBack(CanonicalEntries(entries, build).value, build);
  }

  /** Two accepted wheels with the same normalized contents, in whatever order, compression,
      modes and creators, have the same canonical form. */
  lemma CanonicalWheelIsByContents(raw: bytes, raw': bytes, c: bytes, c': bytes, build: WheelBuild, build': WheelBuild)
    requires Canonical(raw, build) == Some(c) && Canonical(raw', build') == Some(c') && build.stamp == build'.stamp
    requires forall e ::
      e in NormalizedWheel(Contents(raw, build).value, build).value
      <==> e in NormalizedWheel(Contents(raw', build').value, build').value
    ensures c == c'
  {
    hide Contents, NormalizedWheel, WheelFits, WheelImage, CanonicalChecks, SafeName, Sort, LexLess;
    var a := NormalizedWheel(Contents(raw, build).value, build).value;
    var b := NormalizedWheel(Contents(raw', build').value, build').value;
    AcceptedNames(raw, build);
    AcceptedNames(raw', build');
    NormalizedNames(Contents(raw, build).value, build);
    NormalizedNames(Contents(raw', build').value, build');
    assert NamesDistinct(a) && NamesDistinct(b);
    DistinctEntries(a);
    DistinctEntries(b);
    EntryOrder();
    SortOrderFree(a, b, EntryLess);
  }
}
